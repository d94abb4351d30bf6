# WebAuthn ceremony objects, modelled in Dafny

This project models `objects.js` of webauthn-js, a helper for the
browser side of W3C Web Authentication. The file has four constructors.
Each takes the options or the response of a ceremony as a plain
JavaScript object and builds two views of it:

- `packed`: every binary field as lowercase hexadecimal text (or, for
  `clientDataJSON`, as text holding one character per byte);
- `unpacked`: every binary field as a `Uint8Array`.

A binary field may arrive in either form. The constructor keeps the form
it was given and derives the other with one of two codecs:

- hex: `packByteArray` / `unpackByteArray`;
- character codes: `packString` / `unpackString`.

Fields with no binary content are copied into both views, either as
shallow clones or as they are. `isPacked` tells the two forms apart: a
value is packed unless it is a `Uint8Array`.

The model is structured as follows.

- `wrappers.dfy`: `Option`, `Result` and `Outcome`, the last being the
  result of a constructor step that may throw.
- `js_values.dfy`: JavaScript values and the exceptions a constructor can
  throw. It also defines truthiness, property reads and
  `Object.assign({}, o)`. That clone is modelled as JavaScript performs
  it: a string, array or typed array becomes an object keyed by index.
- `codecs.dfy`: the two codecs and their round trips.
- `dual_encoder.dfy`: the reference specification shared by the four
  constructors.
  - `Rule`: the treatment of one field.
  - `EncodeObject`: applies a table of `(name, rule)` entries to the
    input's fields. The first entry, in table order, whose rule throws
    decides the exception.
  - `Convert`: adds the falsy-input and primitive-input cases.
  - It also defines the step-by-step rendering of a credential list and
    the field copy loop.
- `creation_options.dfy`, `request_options.dfy`,
  `attestation_response.dfy` and `assertion_response.dfy`: each holds
  one class with the source's two fields (`packed`, `unpacked`, and
  `clientData` for the attestation response).
  - `Empty` is the constructor's first two lines.
  - `Initialize` is the rest of the constructor, as imperative steps. Its
    contract ties the new state, or the exception, to the ceremony's
    table under `Convert`.
  - `New` combines the two.
  - Lemmas state what the source promises about each field.

## Model

| member | source | states |
|---|---|---|
| JsValues.Prop | objects.js:44 | a property read gives the own property of a plain object that has it, and `undefined` on every other value or name |
| JsValues.FalsyValues | objects.js:23 | the `if (!input)` test (and the same tests of `user.id` at objects.js:44 and `ex.id` at objects.js:70) fails exactly on `undefined`, `null`, `false`, `0` and `''` |
| JsValues.SetProp | objects.js:46-48 | an assignment adds the name with the new value and leaves every other property as it was |
| JsValues.FieldsOf | objects.js:27-29 | the `in` test throws exactly on a truthy boolean, number or string; a plain object offers its own properties |
| JsValues.IndexKey | objects.js:7 | the index name is at least one digit long, and two digits from 10 up |
| JsValues.IndexKeyInjective | objects.js:7 | distinct array indices have distinct property names |
| JsValues.IndexedObject | objects.js:7 | the object holds each element under its index name |
| JsValues.IndexedObjectKeys | objects.js:7 | the indexed object has no property besides the index names |
| JsValues.Clone | objects.js:7 | the clone is always a plain object, and a plain object clones to itself |
| JsValues.CloneSpellsOutText | objects.js:7 | a cloned string is no longer a string: each character becomes a property of its own |
| JsValues.CloneSpellsOutArray | objects.js:7 | a cloned array is no longer an array: its elements sit under their index names |
| Codecs.ByteToHex | objects.js:12 | each byte becomes two lowercase hex digits that read back as the byte |
| Codecs.PackByteArray | objects.js:12 | the packed text has two characters per byte and is lowercase hex |
| Codecs.HexGroups | objects.js:11 | the digit pairs are read exactly when the text has even length and only hex digits (either case), giving half as many bytes |
| Codecs.UnpackByteArray | objects.js:11 | unpacking succeeds exactly on a non-empty even-length hex string; `''` throws because the match is null; a non-string throws |
| Codecs.HexGroupsOfPacked | objects.js:11-12 | the digit pairs of packed bytes read back as those bytes |
| Codecs.PackThenUnpack | objects.js:11-12 | unpack after pack is the identity on non-empty bytes |
| Codecs.EmptyDoesNotRoundTrip | objects.js:11-12 | empty bytes pack to `''`, which does not unpack |
| Codecs.PackedHexGroups | objects.js:11-12 | packing the bytes of a hex text gives the text in lower case |
| Codecs.UnpackThenPack | objects.js:11-12 | pack after unpack gives the text in lower case, and the text itself when it was lowercase |
| Codecs.CaseInsensitiveUnpack | objects.js:11 | uppercase and lowercase digits read as the same bytes |
| Codecs.HexOfExampleBytes | objects.js:12 | the digit pairs of 222, 202, 251 and 173 are `de`, `ca`, `fb` and `ad` |
| Codecs.DecafBad | objects.test.js:44-60 | `[222, 202, 251, 173]` packs to `"decafbad"` and `"decafbad"` unpacks to it |
| Codecs.DecafBadUpper | objects.js:11 | `"DECAFBAD"` unpacks to the same bytes as `"decafbad"` |
| Codecs.ABadIdea | objects.test.js:112-160 | `[171, 173, 29, 234]` packs to `"abad1dea"` |
| Codecs.CharCode | objects.js:14 | a character code below 256 is stored unchanged; a larger one is stored modulo 256 |
| Codecs.PackString | objects.js:15 | one character per byte, whose code is the byte |
| Codecs.UnpackString | objects.js:14 | one byte per character, the code taken modulo 256; a non-string throws |
| Codecs.TextRoundTrip | objects.js:14-15 | bytes survive packing to text and unpacking again |
| Codecs.TextRoundTripBack | objects.js:14-15 | text survives unpacking and packing exactly when every character code is below 256 |
| Codecs.IdeaBad | objects.test.js:209-246 | the test's bytes pack to `{"idea":"bad"}` and that text unpacks to them |
| DualEncoder.IsPackedSides | objects.js:9 | `isPacked` holds of the packed rendering and not of the unpacked one, and a value is on the packed side exactly when `isPacked` holds of it; re-rendering the bytes gives them back with the text in lower case |
| DualEncoder.HexDual | objects.js:53-58 | a hex field keeps the side it was given on (bytes on the unpacked side, anything else on the packed side); it throws exactly when a packed value does not unpack |
| DualEncoder.HexDualAgrees | objects.js:53-58 | the two sides of a converted hex field describe one byte string |
| DualEncoder.TextDual | objects.js:104-112 | a text field keeps the side it was given on; it throws exactly when the value is neither bytes nor text |
| DualEncoder.TextDualAgrees | objects.js:104-112 | the two sides of a converted text field describe one byte string, and the text is recovered when its codes fit in a byte |
| DualEncoder.WithIdDual | objects.js:67-76 | both sides are plain objects; it throws exactly when the object and its `id` are truthy and the `id` does not convert |
| DualEncoder.WithIdDualShape | objects.js:67-76 | both sides are the clone, except that a truthy `id` is replaced by its hex renderings; a falsy `id` is copied unconverted |
| DualEncoder.CredentialDualShape | objects.js:66-76 | an element throws exactly when it is `null` or `undefined` (the read of `ex.id`) or has a truthy `id` that does not unpack; else both sides are its clone off `id`, a truthy `id` becomes two agreeing hex renderings and a falsy one is copied unconverted |
| DualEncoder.CredentialListDual | objects.js:66-79 | the lists are produced exactly when every element converts; they have the input's length and hold the element renderings in order |
| DualEncoder.CredentialListPrefixFails | objects.js:66-79 | an element that throws stops the list with its error, whatever follows |
| DualEncoder.CredentialListShape | objects.js:66-79 | each output element has the keys and the non-`id` fields of the input element's clone; a truthy `id` is converted with agreeing sides, and anything else is copied unchanged |
| DualEncoder.CredentialListIs | objects.js:66-79 | lists whose elements are the element renderings are the list's rendering |
| DualEncoder.CredentialListExample | objects.test.js:112-160 | the test's three credentials render as the test expects on both sides |
| DualEncoder.HexIdExample | objects.test.js:112-160 | a credential with hex id `decafbad` is kept on the packed side and gets bytes on the unpacked side |
| DualEncoder.BytesIdExample | objects.test.js:112-160 | a credential with byte id gets `abad1dea` on the packed side and is kept on the unpacked side |
| DualEncoder.EncodeCredentials | objects.js:66-79 | the `forEach` loop that pushes each rendering returns the list's rendering or its first error |
| DualEncoder.EncodeFieldAgrees | objects.js:27-59 | copied fields never throw and hold one value on both sides (`timeout` the input's own); only the converting rules throw; a converted binary field keeps the given value on its side and its sides agree under its codec; a converted list has one element per iterated element on each side |
| DualEncoder.EncodeObject | objects.js:18-82 | the two views of a completed construction hold the same names, all of them fields of the input |
| DualEncoder.EncodeObjectOfNothing | objects.test.js:15-20 | an input without fields gives two empty views |
| DualEncoder.EncodeObjectSucceeds | objects.js:18-82 | the views are produced exactly when no present field's rule throws |
| DualEncoder.EncodeObjectKeys | objects.js:18-82 | both views hold exactly the table's names that the input has |
| DualEncoder.EncodeObjectValues | objects.js:18-82 | each present field holds its rule's renderings in both views |
| DualEncoder.EncodeObjectFailsAt | objects.js:18-82 | the first present field, in table order, whose rule throws decides the exception |
| DualEncoder.EncodeObjectFailsAtIndex | objects.js:18-82 | the same by position: an entry that throws after entries that convert decides the exception |
| DualEncoder.ConsistentPrefix | objects.js:185 | a field of the loop is not one already visited |
| DualEncoder.EncodeObjectSnoc | objects.js:185-197 | one more round of the field loop adds that field's renderings, throws its error, or leaves the views alone when the field is absent |
| DualEncoder.EncodeObjectIs | objects.js:18-82 | views with exactly the present names, each holding its rule's renderings, are the table's views |
| DualEncoder.EncodeObjectIsAt | objects.js:18-82 | the same, with the rendered entries given by position |
| DualEncoder.Convert | objects.js:23-25 | a falsy input (`null`, `undefined`, `false`, `0`, `''`) leaves both views empty; a completed construction has the same names in both views, all own properties of the input |
| DualEncoder.Own | objects.js:27-29 | the own properties are the fields the `in` tests see on a truthy input that has any; a falsy input, or one on which `in` throws, has none |
| DualEncoder.ConvertSucceeds | objects.js:18-82 | a constructor throws exactly on a truthy boolean, number or string, or when a present field's rule throws |
| DualEncoder.ConvertFails | objects.js:18-82 | the same by position: a constructor throws exactly on a truthy primitive or when the field of some entry does not convert |
| DualEncoder.ConvertShape | objects.js:18-82 | after a construction both views hold exactly the table's names the input has, each rendered by its rule |
| DualEncoder.ProjectionAt | objects.js:27-41 | the copied fields are the listed names the input has, cloned or as they are |
| DualEncoder.CopyFields | objects.js:27-41 | the copy loop adds the projection of the listed names to both views |
| CreationOptions.CreationOptionsOf | objects.js:18-82 | a falsy input gives two empty views; the views of a completed construction have the same names, all input fields |
| CreationOptions.CreationOptionsOfNothing | objects.js:23-25 | `{}`, `null` and `undefined` give two empty views |
| CreationOptions.CreationOptionsKeys | objects.js:18-82 | both views hold exactly the nine option names the input has |
| CreationOptions.CreationOptionsPlain | objects.js:27-33 | `rp`, `pubKeyCredParams`, `authenticatorSelection`, `attestation` and `extensions` are clones of the input's, in both views |
| CreationOptions.CreationOptionsTimeout | objects.js:35-41 | `timeout` is the input's own value in both views |
| CreationOptions.CreationOptionsUser | objects.js:43-50 | `user` is a clone in both views, and its `id` is converted only when `user` and `user.id` are truthy |
| CreationOptions.CreationOptionsChallenge | objects.js:52-59 | `challenge` keeps the side it was given on, and its two sides agree |
| CreationOptions.CreationOptionsCredentials | objects.js:61-80 | `excludeCredentials` becomes the two rendered lists of its elements |
| CreationOptions.CreationOptionsThrows | objects.js:18-82 | the constructor throws exactly on a truthy primitive input, or when `user.id`, `challenge` or an excluded credential does not convert |
| CreationOptions.PublicKeyCredentialCreationOptions.Empty | objects.js:20-21 | both views start out empty |
| CreationOptions.PublicKeyCredentialCreationOptions.New | objects.js:18-82 | construction succeeds exactly when the specification does, with its views, or throws its error |
| CreationOptions.PublicKeyCredentialCreationOptions.Initialize | objects.js:23-80 | the constructor's steps leave the specification's views or return its exception |
| CreationOptions.PublicKeyCredentialCreationOptions.ConvertIds | objects.js:43-59 | the two steps after the plain copies leave `user` and `challenge` rendered by their rules and every other copy as it was, or return the table's error |
| CreationOptions.PublicKeyCredentialCreationOptions.ConvertUserId | objects.js:43-50 | the `user.id` step leaves the id rule's renderings of `user` and changes nothing else, or returns that rule's error |
| CreationOptions.PublicKeyCredentialCreationOptions.ConvertChallenge | objects.js:52-59 | the `challenge` step replaces one side by its encoding and changes nothing else, or returns the hex rule's error |
| CreationOptions.PublicKeyCredentialCreationOptions.ConvertExcludeCredentials | objects.js:61-80 | the credential step adds the two rendered lists and nothing else, or returns the list rule's error |
| RequestOptions.RequestOptionsOf | objects.js:119-174 | a falsy input gives two empty views; the views of a completed construction have the same names, all input fields |
| RequestOptions.RequestOptionsOfNothing | objects.js:124-126 | `{}`, `null` and `undefined` give two empty views |
| RequestOptions.RequestOptionsKeys | objects.js:119-174 | both views hold exactly the six option names the input has |
| RequestOptions.RequestOptionsExtensions | objects.js:128-134 | `extensions` is a clone of the input's, in both views |
| RequestOptions.RequestOptionsShared | objects.js:136-142 | `timeout`, `rpId` and `userVerification` are the input's own values in both views |
| RequestOptions.RequestOptionsChallenge | objects.js:144-151 | `challenge` keeps the side it was given on, and its two sides agree |
| RequestOptions.RequestOptionsCredentials | objects.js:153-172 | `allowCredentials` becomes the two rendered lists of its elements |
| RequestOptions.RequestOptionsThrows | objects.js:119-174 | the constructor throws exactly on a truthy primitive input, or when `challenge` or an allowed credential does not convert |
| RequestOptions.PublicKeyCredentialRequestOptions.Empty | objects.js:121-122 | both views start out empty |
| RequestOptions.PublicKeyCredentialRequestOptions.New | objects.js:119-174 | construction succeeds exactly when the specification does, with its views, or throws its error |
| RequestOptions.PublicKeyCredentialRequestOptions.Initialize | objects.js:124-172 | the constructor's steps leave the specification's views or return its exception |
| RequestOptions.PublicKeyCredentialRequestOptions.ConvertChallenge | objects.js:144-151 | the `challenge` step replaces one side by its encoding and changes nothing else, or returns the hex rule's error |
| RequestOptions.PublicKeyCredentialRequestOptions.ConvertAllowCredentials | objects.js:153-172 | the credential step adds the two rendered lists and nothing else, or returns the list rule's error |
| AttestationResponse.AttestationResponseOf | objects.js:84-117 | a falsy input gives two empty views and no `clientData`; the views of a completed construction have the same names, all input fields |
| AttestationResponse.AttestationResponseOfNothing | objects.js:89-91 | `{}`, `null` and `undefined` give two empty views and no `clientData` |
| AttestationResponse.AttestationResponseKeys | objects.js:84-117 | both views hold exactly the two response names the input has |
| AttestationResponse.AttestationObjectKept | objects.js:93-102 | `attestationObject` keeps the side it was given on, and its two sides agree under the hex codec |
| AttestationResponse.ClientDataJsonKept | objects.js:104-112 | `clientDataJSON` keeps the side it was given on, and its two sides agree under the character-code codec |
| AttestationResponse.ClientDataParsed | objects.js:114 | `clientData` is set exactly when the input has `clientDataJSON`, to the parse of the packed text |
| AttestationResponse.AttestationResponseThrows | objects.js:84-117 | the constructor throws exactly on a truthy primitive input, an `attestationObject` that does not unpack, a `clientDataJSON` that is neither text nor bytes, or packed client data that is not JSON |
| AttestationResponse.AuthenticatorAttestationResponse.Empty | objects.js:86-87 | both views start out empty and there is no `clientData` |
| AttestationResponse.AuthenticatorAttestationResponse.New | objects.js:84-117 | construction succeeds exactly when the specification does, with its views and client data, or throws its error |
| AttestationResponse.AuthenticatorAttestationResponse.Initialize | objects.js:89-115 | the constructor's steps leave the specification's state or return its exception |
| AttestationResponse.AuthenticatorAttestationResponse.ConvertAttestationObject | objects.js:93-102 | the `attestationObject` step renders that field alone, or throws the table's error |
| AttestationResponse.AuthenticatorAttestationResponse.ConvertClientDataJson | objects.js:104-112 | the `clientDataJSON` step renders that field too, or throws the table's error |
| AssertionResponse.AssertionResponseOf | objects.js:176-199 | a falsy input gives two empty views; the views of a completed construction have the same names, all input fields |
| AssertionResponse.AssertionResponseOfNothing | objects.js:181-183 | `{}`, `null` and `undefined` give two empty views |
| AssertionResponse.AssertionResponseKeys | objects.js:176-199 | both views hold exactly the three response names the input has |
| AssertionResponse.AssertionResponseField | objects.js:187-195 | `authenticatorData`, `signature` and `userHandle` each keep the side they were given on, and their two sides agree |
| AssertionResponse.AssertionResponseThrows | objects.js:176-199 | the constructor throws exactly on a truthy primitive input or a present field that does not unpack |
| AssertionResponse.AuthenticatorAssertionResponse.Empty | objects.js:178-179 | both views start out empty |
| AssertionResponse.AuthenticatorAssertionResponse.New | objects.js:176-199 | construction succeeds exactly when the specification does, with its views, or throws its error |
| AssertionResponse.AuthenticatorAssertionResponse.Initialize | objects.js:181-197 | the loop that writes each field to both views and then re-encodes one side leaves the specification's views, or returns its exception |

## Left out

- `JSON.parse` is not modelled. It is the parameter `jsonParse` of the
  attestation response, and `None` stands for its `SyntaxError`.
- Codecs.UnpackByteArray: throws `MalformedHex` on any non-empty text that
  is not an even-length run of hex digits, where JavaScript mostly produces
  bytes instead. There the groups of `match(/.{1,2}/g)` are runs of one or
  two characters that line terminators (`\n`, `\r`, U+2028, U+2029) split
  and drop, so `'a\nb'` gives the one-digit groups `a` and `b`. Each group
  is then coerced as `parseInt(g, 16)` does (for instance `'1g'` gives 1
  and `'-1'` gives -1) and stored modulo 256, with `NaN` stored as 0. Text
  made only of line terminators has no match and throws as `''` does; the
  model throws there too, but with `MalformedHex` instead of `NoHexGroups`.
- Calling `match`, `split` or `forEach` on a value without them throws
  `NotAString` or `NotIterable`; JavaScript's other coercions are not
  modelled.
- Numbers are unbounded integers; floating point is not modelled.
- Each `char` is one Unicode scalar value, while a JavaScript string is a
  sequence of UTF-16 code units. Strings holding surrogate code units
  (text outside the Basic Multilingual Plane, lone surrogates) are not
  modelled, nor is the argument limit of `String.fromCharCode`.
- Object identity is not modelled. A field copied "as it is" shares the
  input's object in JavaScript; here it is an equal value.
  `packed.user` and `unpacked.user` are distinct clones in the source,
  which the two separate values here reflect.
- Property order is not modelled: a plain object is a map.
- Prototypes, inherited properties and getters are not modelled. `in` and
  property reads see only a plain object's own properties. On arrays and
  typed arrays, the index and `length` names are not ceremony names, so
  those inputs offer none.
- The state left behind when a constructor throws is not modelled. The
  object is never returned, so the model stops with the error and says
  nothing about the half-built views.
- `instanceof Uint8Array` is the `Bytes` tag. Other `BufferSource`
  types, such as `ArrayBuffer` or `DataView`, are not modelled.
- `module.exports` and the Jest test harness are not modelled.
