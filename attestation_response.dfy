/**
 * `AuthenticatorAttestationResponse` (objects.js:84-117), the response of
 * an authenticator to `navigator.credentials.create()` (section 5.2.1 of
 * W3C Web Authentication Level 2). `attestationObject` is binary with the
 * hex codec, `clientDataJSON` with the character-code codec, and the
 * parsed client data is kept beside the two views.
 *
 * `JSON.parse` is not modelled: it is the parameter `jsonParse`, which
 * yields `None` where `JSON.parse` throws a `SyntaxError`.
 */
module AttestationResponse {
  import opened Wrappers
  import opened JsValues
  import opened Codecs
  import opened DualEncoder

  const Table: seq<Entry> := [
    Entry("attestationObject", HexBinary),
    Entry("clientDataJSON", TextBinary)
  ]

  const Names: set<string> := {"attestationObject", "clientDataJSON"}

  lemma TableFacts()
    ensures Consistent(Table)
    ensures NameSet(Table) == Names
  {
  }

  /**
   * The state of a constructed response: the two views, and `clientData`,
   * which is `None` while the property is not set.
   */
  datatype Attestation = Attestation(views: Views, clientData: Option<Value>)

  /**
   * The response a `new AuthenticatorAttestationResponse(input)` holds, or
   * the error it throws: the table's views, then the parse of the packed
   * `clientDataJSON` when the input has one.
   */
  function AttestationResponseOf(input: Value, jsonParse: string -> Option<Value>): (r: Result<Attestation, Error>)
    ensures !Truthy(input) ==> r == Success(Attestation(NoViews, None))
    ensures r.Success? ==> r.value.views.packed.Keys == r.value.views.unpacked.Keys
    ensures r.Success? ==> r.value.views.packed.Keys <= Own(input).Keys
  {
    var views :- Convert(Table, input);
    var packed := views.packed;
    if "clientDataJSON" in packed && packed["clientDataJSON"].Str? then
      match jsonParse(packed["clientDataJSON"].s)
      case None => Failure(SyntaxError)
      case Some(data) => Success(Attestation(views, Some(data)))
    else
      Success(Attestation(views, None))
  }

  /** After a construction, entry `i` of the table is rendered in both views. */
  lemma Renders(input: Value, i: nat)
    requires Convert(Table, input).Success? && i < |Table|
    ensures Rendered(Table[i], Own(input), Convert(Table, input).value)
  {
    TableFacts();
    ConvertRenders(Table, input, i);
  }

  /** An empty object, `null` or no input at all leaves both views empty and sets no `clientData`. */
  lemma AttestationResponseOfNothing(jsonParse: string -> Option<Value>)
    ensures AttestationResponseOf(Obj(map[]), jsonParse) == Success(Attestation(NoViews, None))
    ensures AttestationResponseOf(Null, jsonParse) == Success(Attestation(NoViews, None))
    ensures AttestationResponseOf(Undefined, jsonParse) == Success(Attestation(NoViews, None))
  {
    EncodeObjectOfNothing(Table);
  }

  /** The fields a completed construction holds: the two names the input has, in both views. */
  lemma AttestationResponseKeys(input: Value, jsonParse: string -> Option<Value>)
    requires AttestationResponseOf(input, jsonParse).Success?
    ensures AttestationResponseOf(input, jsonParse).value.views.packed.Keys == Own(input).Keys * Names
    ensures AttestationResponseOf(input, jsonParse).value.views.unpacked.Keys == Own(input).Keys * Names
  {
    TableFacts();
    ConvertShape(Table, input);
  }

  /** `attestationObject` keeps the side it was given on; the other side is its hex encoding. */
  lemma AttestationObjectKept(input: Value, jsonParse: string -> Option<Value>)
    requires AttestationResponseOf(input, jsonParse).Success?
    requires "attestationObject" in Own(input)
    ensures var r, v := AttestationResponseOf(input, jsonParse).value.views, Own(input)["attestationObject"];
      && "attestationObject" in r.packed && "attestationObject" in r.unpacked
      && (if v.Bytes? then r.unpacked["attestationObject"] == v else r.packed["attestationObject"] == v)
      && HexAgree(Dual(r.packed["attestationObject"], r.unpacked["attestationObject"]))
  {
    Renders(input, 0);
    HexDualAgrees(Own(input)["attestationObject"]);
  }

  /** `clientDataJSON` keeps the side it was given on; the other side is its character-code encoding. */
  lemma ClientDataJsonKept(input: Value, jsonParse: string -> Option<Value>)
    requires AttestationResponseOf(input, jsonParse).Success?
    requires "clientDataJSON" in Own(input)
    ensures var r, v := AttestationResponseOf(input, jsonParse).value.views, Own(input)["clientDataJSON"];
      && "clientDataJSON" in r.packed && "clientDataJSON" in r.unpacked
      && (if v.Bytes? then r.unpacked["clientDataJSON"] == v else r.packed["clientDataJSON"] == v)
      && TextAgree(Dual(r.packed["clientDataJSON"], r.unpacked["clientDataJSON"]))
  {
    Renders(input, 1);
    TextDualAgrees(Own(input)["clientDataJSON"]);
  }

  /**
   * `clientData` is set exactly when the input has a `clientDataJSON`, and
   * then it is the parse of the packed text.
   */
  lemma ClientDataParsed(input: Value, jsonParse: string -> Option<Value>)
    requires AttestationResponseOf(input, jsonParse).Success?
    ensures var r := AttestationResponseOf(input, jsonParse).value;
      && (r.clientData.Some? <==> Truthy(input) && "clientDataJSON" in Own(input))
      && (r.clientData.Some? ==>
            && "clientDataJSON" in r.views.packed && r.views.packed["clientDataJSON"].Str?
            && jsonParse(r.views.packed["clientDataJSON"].s) == r.clientData)
  {
    TableFacts();
    if Convert(Table, input).Success? {
      Renders(input, 1);
    }
  }

  /**
   * The constructor throws exactly when the input is a truthy primitive,
   * `attestationObject` does not unpack, `clientDataJSON` is neither text
   * nor bytes, or the packed `clientDataJSON` is not JSON.
   */
  lemma AttestationResponseThrows(input: Value, jsonParse: string -> Option<Value>)
    ensures AttestationResponseOf(input, jsonParse).Failure? <==>
      && Truthy(input)
      && (|| input.Bool? || input.Num? || input.Str?
          || ("attestationObject" in Own(input) && HexDual(Own(input)["attestationObject"]).Failure?)
          || ("clientDataJSON" in Own(input)
              && (|| TextDual(Own(input)["clientDataJSON"]).Failure?
                  || jsonParse(TextDual(Own(input)["clientDataJSON"]).value.packed.s).None?)))
  {
    ConvertSucceeds(Table, input);
    var f := Own(input);
    assert Entry("attestationObject", HexBinary) in Table;
    assert Entry("clientDataJSON", TextBinary) in Table;
    if Convert(Table, input).Success? {
      TableFacts();
      ConvertShape(Table, input);
    }
  }

  /** The two fields rendered, in the views the constructor builds up, are the views of the table. */
  lemma AttestationAssembled(fields: map<string, Value>, packed: map<string, Value>, unpacked: map<string, Value>)
    requires packed.Keys == fields.Keys * Names && unpacked.Keys == fields.Keys * Names
    requires Rendered(Table[0], fields, Views(packed, unpacked))
    requires Rendered(Table[1], fields, Views(packed, unpacked))
    ensures EncodeObject(Table, fields) == Success(Views(packed, unpacked))
  {
    TableFacts();
    assert forall i :: 0 <= i < |Table| ==> Rendered(Table[i], fields, Views(packed, unpacked));
    EncodeObjectIsAt(Table, fields, Views(packed, unpacked));
  }

  /** A `clientDataJSON` that does not convert, after an `attestationObject` that does, is the error of the table. */
  lemma ClientDataJsonFails(fields: map<string, Value>)
    requires "attestationObject" in fields ==> HexDual(fields["attestationObject"]).Success?
    requires "clientDataJSON" in fields && TextDual(fields["clientDataJSON"]).Failure?
    ensures EncodeObject(Table, fields) == Failure(NotAString)
  {
    EncodeObjectFailsAt(Table[..1], Table[1], [], fields);
    assert Table[..1] + [Table[1]] + [] == Table;
  }

  class AuthenticatorAttestationResponse {
    var packed: map<string, Value>
    var unpacked: map<string, Value>
    var clientData: Option<Value>

    /** objects.js:86-87: both views start out empty, and there is no `clientData`. */
    constructor Empty()
      ensures packed == map[] && unpacked == map[] && clientData == None
    {
      packed := map[];
      unpacked := map[];
      clientData := None;
    }

    /** `new AuthenticatorAttestationResponse(input)`: the object, or the exception it throws. */
    static method New(input: Value, jsonParse: string -> Option<Value>)
      returns (r: Result<AuthenticatorAttestationResponse, Error>)
      ensures r.Success? <==> AttestationResponseOf(input, jsonParse).Success?
      ensures r.Success? ==> fresh(r.value)
      ensures r.Success? ==>
        AttestationResponseOf(input, jsonParse) == Success(Attestation(Views(r.value.packed, r.value.unpacked), r.value.clientData))
      ensures r.Failure? ==> AttestationResponseOf(input, jsonParse) == Failure(r.error)
    {
      var o := new AuthenticatorAttestationResponse.Empty();
      var outcome := o.Initialize(input, jsonParse);
      if outcome.Fail? {
        return Failure(outcome.error);
      }
      return Success(o);
    }

    /** The body of the constructor after the views are created (objects.js:89-115). */
    method Initialize(input: Value, jsonParse: string -> Option<Value>) returns (outcome: Outcome<Error>)
      requires packed == map[] && unpacked == map[] && clientData == None
      modifies this
      ensures outcome.Fail? ==> AttestationResponseOf(input, jsonParse) == Failure(outcome.error)
      ensures outcome.Pass? ==>
        AttestationResponseOf(input, jsonParse) == Success(Attestation(Views(packed, unpacked), clientData))
    {
      if !Truthy(input) {
        return Pass;
      }
      var fieldsOr := FieldsOf(input);
      if fieldsOr.Failure? {
        return Fail(fieldsOr.error);
      }
      var fields := fieldsOr.value;

      outcome := ConvertAttestationObject(fields);
      if outcome.Fail? {
        return;
      }
      outcome := ConvertClientDataJson(fields);
      if outcome.Fail? {
        return;
      }
      AttestationAssembled(fields, packed, unpacked);
      if "clientDataJSON" in fields {
        var data := jsonParse(packed["clientDataJSON"].s);
        if data.None? {
          return Fail(SyntaxError);
        }
        clientData := data;
      }
    }

    /** objects.js:93-102: `attestationObject`, converted from the side it was given on. */
    method ConvertAttestationObject(fields: map<string, Value>) returns (outcome: Outcome<Error>)
      requires packed == map[] && unpacked == map[]
      modifies this
      ensures clientData == old(clientData)
      ensures outcome.Fail? ==> EncodeObject(Table, fields) == Failure(outcome.error)
      ensures outcome.Pass? ==>
        && packed.Keys == fields.Keys * {"attestationObject"}
        && unpacked.Keys == fields.Keys * {"attestationObject"}
        && Rendered(Table[0], fields, Views(packed, unpacked))
    {
      if "attestationObject" in fields {
        var v := fields["attestationObject"];
        if IsPacked(v) {
          var bytes := UnpackByteArray(v);
          if bytes.Failure? {
            EncodeObjectFailsAt([], Table[0], Table[1..], fields);
            assert [] + [Table[0]] + Table[1..] == Table;
            return Fail(bytes.error);
          }
          unpacked := unpacked["attestationObject" := Bytes(bytes.value)];
          packed := packed["attestationObject" := v];
        } else {
          unpacked := unpacked["attestationObject" := v];
          packed := packed["attestationObject" := Str(PackByteArray(v.bytes))];
        }
      }
      return Pass;
    }

    /** objects.js:104-111: `clientDataJSON`, converted from the side it was given on. */
    method ConvertClientDataJson(fields: map<string, Value>) returns (outcome: Outcome<Error>)
      requires packed.Keys == fields.Keys * {"attestationObject"}
      requires unpacked.Keys == fields.Keys * {"attestationObject"}
      requires Rendered(Table[0], fields, Views(packed, unpacked))
      modifies this
      ensures clientData == old(clientData)
      ensures outcome.Fail? ==> EncodeObject(Table, fields) == Failure(outcome.error)
      ensures outcome.Pass? ==>
        && packed.Keys == fields.Keys * Names && unpacked.Keys == fields.Keys * Names
        && Rendered(Table[0], fields, Views(packed, unpacked))
        && Rendered(Table[1], fields, Views(packed, unpacked))
    {
      if "clientDataJSON" in fields {
        var v := fields["clientDataJSON"];
        if IsPacked(v) {
          var bytes := UnpackString(v);
          if bytes.Failure? {
            ClientDataJsonFails(fields);
            return Fail(bytes.error);
          }
          unpacked := unpacked["clientDataJSON" := Bytes(bytes.value)];
          packed := packed["clientDataJSON" := v];
        } else {
          unpacked := unpacked["clientDataJSON" := v];
          packed := packed["clientDataJSON" := Str(PackString(v.bytes))];
        }
      }
      return Pass;
    }
  }
}
