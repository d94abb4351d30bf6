/**
 * `PublicKeyCredentialRequestOptions` (objects.js:119-174), the options of
 * an authentication ceremony (section 5.5 of W3C Web Authentication
 * Level 2). Its binary fields are `challenge` and the `id` of each entry of
 * `allowCredentials`.
 */
module RequestOptions {
  import opened Wrappers
  import opened JsValues
  import opened Codecs
  import opened DualEncoder

  /** The fields copied as shallow clones (objects.js:128). */
  const ClonedNames: seq<string> := ["extensions"]

  /** The fields copied as they are (objects.js:136). */
  const SharedNames: seq<string> := ["challenge", "timeout", "rpId", "userVerification"]

  /** Every field name with its rule, in the order the constructor can throw. */
  const Table: seq<Entry> := [
    Entry("extensions", Cloned),
    Entry("challenge", HexBinary),
    Entry("timeout", Shared),
    Entry("rpId", Shared),
    Entry("userVerification", Shared),
    Entry("allowCredentials", CredentialList)
  ]

  const Names: set<string> := {"extensions", "challenge", "timeout", "rpId", "userVerification", "allowCredentials"}

  lemma TableConsistent()
    ensures Consistent(Table)
  {
  }

  lemma TableNames()
    ensures NameSet(Table) == Names
  {
  }

  /** The names copied as they are, but `challenge`, sit in the table after `extensions`. */
  lemma SharedIndex(n: string) returns (i: nat)
    requires n in SharedNames && n != "challenge"
    ensures i < |Table| && Table[i] == Entry(n, Shared)
  {
    if n == "timeout" { i := 2; } else if n == "rpId" { i := 3; } else { i := 4; }
  }

  /** Only two entries of the table can throw: `challenge` and `allowCredentials`. */
  lemma ConvertingIndex(i: nat)
    requires i < |Table| && !Table[i].rule.Cloned? && !Table[i].rule.Shared?
    ensures i == 1 || i == 5
  {
    if i == 0 {} else if i == 2 {} else if i == 3 {} else if i == 4 {}
  }

  /** The views a `new PublicKeyCredentialRequestOptions(input)` holds, or the error it throws. */
  function RequestOptionsOf(input: Value): (r: Result<Views, Error>)
    ensures !Truthy(input) ==> r == Success(NoViews)
    ensures r.Success? ==> r.value.packed.Keys == r.value.unpacked.Keys
    ensures r.Success? ==> r.value.packed.Keys <= Own(input).Keys
  {
    Convert(Table, input)
  }

  /** After a construction, entry `i` of the table is rendered in both views. */
  lemma Renders(input: Value, i: nat)
    requires Convert(Table, input).Success? && i < |Table|
    ensures Rendered(Table[i], Own(input), Convert(Table, input).value)
  {
    TableConsistent();
    ConvertRenders(Table, input, i);
  }

  /** An empty object, `null` or no input at all leaves both views empty. */
  lemma RequestOptionsOfNothing()
    ensures RequestOptionsOf(Obj(map[])) == Success(NoViews)
    ensures RequestOptionsOf(Null) == Success(NoViews) && RequestOptionsOf(Undefined) == Success(NoViews)
  {
    EncodeObjectOfNothing(Table);
  }

  /** The fields a completed construction holds: the table's names the input has, in both views. */
  lemma RequestOptionsKeys(input: Value)
    requires RequestOptionsOf(input).Success?
    ensures RequestOptionsOf(input).value.packed.Keys == Own(input).Keys * Names
    ensures RequestOptionsOf(input).value.unpacked.Keys == Own(input).Keys * Names
  {
    TableConsistent();
    TableNames();
    ConvertShape(Table, input);
  }

  /** `extensions` is a clone of the input's, in both views. */
  lemma RequestOptionsExtensions(input: Value)
    requires RequestOptionsOf(input).Success?
    requires "extensions" in Own(input)
    ensures var r := RequestOptionsOf(input).value;
      && "extensions" in r.packed && "extensions" in r.unpacked
      && r.packed["extensions"] == Clone(Own(input)["extensions"])
      && r.unpacked["extensions"] == Clone(Own(input)["extensions"])
  {
    Renders(input, 0);
  }

  /** `timeout`, `rpId` and `userVerification` are the input's own values, in both views. */
  lemma RequestOptionsShared(input: Value, n: string)
    requires RequestOptionsOf(input).Success?
    requires n in Own(input) && n in SharedNames && n != "challenge"
    ensures var r := RequestOptionsOf(input).value;
      n in r.packed && n in r.unpacked && r.packed[n] == Own(input)[n] && r.unpacked[n] == Own(input)[n]
  {
    var i := SharedIndex(n);
    Renders(input, i);
  }

  /** `challenge` keeps the side it was given on; the other side is its encoding. */
  lemma RequestOptionsChallenge(input: Value)
    requires RequestOptionsOf(input).Success?
    requires "challenge" in Own(input)
    ensures var r, c := RequestOptionsOf(input).value, Own(input)["challenge"];
      && "challenge" in r.packed && "challenge" in r.unpacked
      && (if c.Bytes? then r.unpacked["challenge"] == c else r.packed["challenge"] == c)
      && HexAgree(Dual(r.packed["challenge"], r.unpacked["challenge"]))
  {
    Renders(input, 1);
    HexDualAgrees(Own(input)["challenge"]);
  }

  /**
   * `allowCredentials` becomes two lists as long as the input's, in its
   * order, whose elements are the renderings of its elements.
   */
  lemma RequestOptionsCredentials(input: Value)
    requires RequestOptionsOf(input).Success?
    requires "allowCredentials" in Own(input)
    ensures var r, x := RequestOptionsOf(input).value, Own(input)["allowCredentials"];
      && Elements(x).Success? && CredentialListDual(Elements(x).value).Success?
      && "allowCredentials" in r.packed && "allowCredentials" in r.unpacked
      && r.packed["allowCredentials"] == Arr(CredentialListDual(Elements(x).value).value.packed)
      && r.unpacked["allowCredentials"] == Arr(CredentialListDual(Elements(x).value).value.unpacked)
  {
    Renders(input, 5);
  }

  /**
   * The inputs the constructor throws on: a truthy primitive, or an input
   * whose `challenge` or credential list entry does not convert.
   */
  ghost predicate Rejected(input: Value) {
    && Truthy(input)
    && (|| input.Bool? || input.Num? || input.Str?
        || ("challenge" in Own(input) && HexDual(Own(input)["challenge"]).Failure?)
        || ("allowCredentials" in Own(input)
            && EncodeField(CredentialList, Own(input)["allowCredentials"]).Failure?))
  }

  /** The constructor throws exactly on the rejected inputs. */
  lemma RequestOptionsThrows(input: Value)
    ensures RequestOptionsOf(input).Failure? <==> Rejected(input)
  {
    if RequestOptionsOf(input).Failure? {
      ThrowsOnlyOnRejected(input);
    }
    if Rejected(input) {
      ThrowsOnRejected(input);
    }
  }

  lemma ThrowsOnRejected(input: Value)
    requires Rejected(input)
    ensures RequestOptionsOf(input).Failure?
  {
    if input.Obj? {
      var f := input.fields;
      if "challenge" in f && HexDual(f["challenge"]).Failure? {
        ChallengeFails(f);
      } else {
        CredentialsFail(f);
      }
    }
  }

  lemma ThrowsOnlyOnRejected(input: Value)
    requires RequestOptionsOf(input).Failure?
    ensures Rejected(input)
  {
    ConvertFails(Table, input);
    if !input.Bool? && !input.Num? && !input.Str? {
      var f := Own(input);
      var i :| 0 <= i < |Table| && Table[i].name in f && EncodeField(Table[i].rule, f[Table[i].name]).Failure?;
      ConvertingIndex(i);
      if i == 1 {
        assert Table[1] == Entry("challenge", HexBinary);
      } else {
        assert Table[5] == Entry("allowCredentials", CredentialList);
      }
    }
  }

  /** Both views after the plain copies of objects.js:128-142. */
  function Plain(fields: map<string, Value>): map<string, Value> {
    Projection(fields, ClonedNames, true) + Projection(fields, SharedNames, false)
  }

  /** Off `challenge`, the views still hold the plain copies. */
  ghost predicate PlainKept(fields: map<string, Value>, packed: map<string, Value>, unpacked: map<string, Value>) {
    forall n :: n in Plain(fields) && n in packed && n in unpacked && n != "challenge" ==>
      packed[n] == Plain(fields)[n] && unpacked[n] == Plain(fields)[n]
  }

  /** The views between the plain copies and the credential list. */
  ghost predicate Staged(fields: map<string, Value>, packed: map<string, Value>, unpacked: map<string, Value>) {
    && packed.Keys == Plain(fields).Keys && unpacked.Keys == Plain(fields).Keys
    && PlainKept(fields, packed, unpacked)
  }

  lemma StagedSameOff(fields: map<string, Value>, packed: map<string, Value>, unpacked: map<string, Value>,
                      packed': map<string, Value>, unpacked': map<string, Value>)
    requires Staged(fields, packed, unpacked)
    requires SameOff(packed, packed', "challenge") && SameOff(unpacked, unpacked', "challenge")
    ensures Staged(fields, packed', unpacked')
  {
  }

  /** The credential list adds its name to the staged views, leaving the plain copies. */
  lemma StagedWithList(fields: map<string, Value>, packed: map<string, Value>, unpacked: map<string, Value>, p: Value, u: Value)
    requires Staged(fields, packed, unpacked)
    requires "allowCredentials" in fields
    ensures var packed', unpacked' := packed["allowCredentials" := p], unpacked["allowCredentials" := u];
      && packed'.Keys == fields.Keys * Names && unpacked'.Keys == fields.Keys * Names
      && PlainKept(fields, packed', unpacked')
  {
    ListKeys(fields);
    var packed', unpacked' := packed["allowCredentials" := p], unpacked["allowCredentials" := u];
    assert "allowCredentials" !in Plain(fields);
    assert packed'.Keys == Plain(fields).Keys + {"allowCredentials"} && unpacked'.Keys == Plain(fields).Keys + {"allowCredentials"};
    forall n | n in Plain(fields) && n in packed' && n in unpacked' && n != "challenge"
      ensures packed'[n] == Plain(fields)[n] && unpacked'[n] == Plain(fields)[n]
    {
      assert n != "allowCredentials";
    }
  }

  /** Staged views with no credential list have the table's keys. */
  lemma StagedWithoutList(fields: map<string, Value>, packed: map<string, Value>, unpacked: map<string, Value>)
    requires Staged(fields, packed, unpacked)
    requires "allowCredentials" !in fields
    ensures packed.Keys == fields.Keys * Names && unpacked.Keys == fields.Keys * Names
  {
    ListKeys(fields);
  }

  /** The credential list's name is the one name of the table the plain copies leave out. */
  lemma ListKeys(fields: map<string, Value>)
    ensures "allowCredentials" !in Plain(fields)
    ensures "allowCredentials" in fields ==> Plain(fields).Keys + {"allowCredentials"} == fields.Keys * Names
    ensures "allowCredentials" !in fields ==> Plain(fields).Keys == fields.Keys * Names
  {
    PlainKeys(fields);
    NamesWith(fields);
  }

  lemma PlainNames()
    ensures (set f | f in ClonedNames) + (set f | f in SharedNames) == Names - {"allowCredentials"}
  {
  }

  lemma NamesWith(fields: map<string, Value>)
    ensures "allowCredentials" in fields ==>
      fields.Keys * (Names - {"allowCredentials"}) + {"allowCredentials"} == fields.Keys * Names
    ensures "allowCredentials" !in fields ==> fields.Keys * (Names - {"allowCredentials"}) == fields.Keys * Names
  {
  }

  /** The plain copies hold the table's names but `allowCredentials`. */
  lemma PlainKeys(fields: map<string, Value>)
    ensures Plain(fields).Keys == fields.Keys * (Names - {"allowCredentials"})
  {
    ProjectionAt(fields, ClonedNames, true);
    ProjectionAt(fields, SharedNames, false);
    PlainNames();
  }

  /** A field copied as a clone holds the clone in the plain copies. */
  lemma ClonedAt(fields: map<string, Value>, n: string)
    requires n in fields && n in ClonedNames
    ensures n in Plain(fields) && Plain(fields)[n] == Clone(fields[n])
  {
    ProjectionAt(fields, ClonedNames, true);
    ProjectionAt(fields, SharedNames, false);
    assert n !in SharedNames;
  }

  /** A field copied as it is holds the input's value in the plain copies. */
  lemma SharedAt(fields: map<string, Value>, n: string)
    requires n in fields && n in SharedNames
    ensures n in Plain(fields) && Plain(fields)[n] == fields[n]
  {
    ProjectionAt(fields, SharedNames, false);
  }

  /** Right after the plain copies the views are staged, with `challenge` as given. */
  lemma PlainStaged(fields: map<string, Value>)
    ensures Staged(fields, Plain(fields), Plain(fields))
    ensures "challenge" in fields ==> "challenge" in Plain(fields) && Plain(fields)["challenge"] == fields["challenge"]
  {
    if "challenge" in fields {
      SharedAt(fields, "challenge");
    }
  }

  /** Before `allowCredentials`, every entry but `challenge` is copied, as a clone or as it is. */
  lemma CopiedBefore(j: nat)
    requires j < 5 && j != 1
    ensures Table[j].rule == Cloned || Table[j].rule == Shared
  {
    if j == 0 {} else if j == 2 {} else if j == 3 {}
  }

  /** A `challenge` that does not convert is the first error of the table. */
  lemma ChallengeFails(fields: map<string, Value>)
    requires "challenge" in fields && HexDual(fields["challenge"]).Failure?
    ensures EncodeObject(Table, fields) == Failure(HexDual(fields["challenge"]).error)
  {
    EncodeObjectFailsAtIndex(Table, 1, fields);
  }

  /** A credential list that does not convert, after a `challenge` that does, is the error of the table. */
  lemma CredentialsFail(fields: map<string, Value>)
    requires "challenge" in fields ==> HexDual(fields["challenge"]).Success?
    requires "allowCredentials" in fields && EncodeField(CredentialList, fields["allowCredentials"]).Failure?
    ensures EncodeObject(Table, fields) == Failure(EncodeField(CredentialList, fields["allowCredentials"]).error)
  {
    forall j | 0 <= j < 5 && Table[j].name in fields
      ensures EncodeField(Table[j].rule, fields[Table[j].name]).Success?
    {
      if j != 1 {
        CopiedBefore(j);
      }
    }
    EncodeObjectFailsAtIndex(Table, 5, fields);
  }

  /** `extensions` is copied as a clone. */
  lemma ExtensionsRendered(fields: map<string, Value>, packed: map<string, Value>, unpacked: map<string, Value>)
    requires packed.Keys == fields.Keys * Names && unpacked.Keys == fields.Keys * Names
    requires PlainKept(fields, packed, unpacked)
    ensures Rendered(Entry("extensions", Cloned), fields, Views(packed, unpacked))
  {
    if "extensions" in fields {
      ClonedAt(fields, "extensions");
      assert "extensions" in Names;
    }
  }

  /** A field copied as it is, and not converted afterwards, is rendered by its rule. */
  lemma SharedRendered(fields: map<string, Value>, packed: map<string, Value>, unpacked: map<string, Value>, n: string)
    requires n in SharedNames && n != "challenge"
    requires packed.Keys == fields.Keys * Names && unpacked.Keys == fields.Keys * Names
    requires PlainKept(fields, packed, unpacked)
    ensures Rendered(Entry(n, Shared), fields, Views(packed, unpacked))
  {
    if n in fields {
      SharedAt(fields, n);
      assert n in Names;
    }
  }

  /** Views in which every entry of the table is rendered are the views of the table. */
  lemma TableRendered(fields: map<string, Value>, views: Views)
    requires Rendered(Entry("extensions", Cloned), fields, views)
    requires Rendered(Entry("challenge", HexBinary), fields, views)
    requires Rendered(Entry("timeout", Shared), fields, views)
    requires Rendered(Entry("rpId", Shared), fields, views)
    requires Rendered(Entry("userVerification", Shared), fields, views)
    requires Rendered(Entry("allowCredentials", CredentialList), fields, views)
    ensures forall e :: e in Table ==> Rendered(e, fields, views)
  {
  }

  lemma TableIs(fields: map<string, Value>, views: Views)
    requires forall e :: e in Table ==> Rendered(e, fields, views)
    requires views.packed.Keys == fields.Keys * Names && views.unpacked.Keys == fields.Keys * Names
    ensures EncodeObject(Table, fields) == Success(views)
  {
    TableConsistent();
    TableNames();
    EncodeObjectIs(Table, fields, views);
  }

  /** The staged views with the credential list rendered on top are the views of the table. */
  lemma RequestAssembled(fields: map<string, Value>, staged: map<string, Value>, stagedU: map<string, Value>,
                         packed: map<string, Value>, unpacked: map<string, Value>)
    requires Staged(fields, staged, stagedU)
    requires "challenge" in fields ==>
      "challenge" in staged && "challenge" in stagedU
      && HexDual(fields["challenge"]) == Success(Dual(staged["challenge"], stagedU["challenge"]))
    requires "allowCredentials" !in fields ==> packed == staged && unpacked == stagedU
    requires "allowCredentials" in fields ==>
      && "allowCredentials" in packed && "allowCredentials" in unpacked
      && packed == staged["allowCredentials" := packed["allowCredentials"]]
      && unpacked == stagedU["allowCredentials" := unpacked["allowCredentials"]]
      && EncodeField(CredentialList, fields["allowCredentials"])
           == Success(Dual(packed["allowCredentials"], unpacked["allowCredentials"]))
    ensures EncodeObject(Table, fields) == Success(Views(packed, unpacked))
  {
    if "allowCredentials" in fields {
      StagedWithList(fields, staged, stagedU, packed["allowCredentials"], unpacked["allowCredentials"]);
    } else {
      StagedWithoutList(fields, packed, unpacked);
    }
    ExtensionsRendered(fields, packed, unpacked);
    SharedRendered(fields, packed, unpacked, "timeout");
    SharedRendered(fields, packed, unpacked, "rpId");
    SharedRendered(fields, packed, unpacked, "userVerification");
    assert Rendered(Entry("challenge", HexBinary), fields, Views(packed, unpacked));
    assert Rendered(Entry("allowCredentials", CredentialList), fields, Views(packed, unpacked));
    TableRendered(fields, Views(packed, unpacked));
    TableIs(fields, Views(packed, unpacked));
  }

  class PublicKeyCredentialRequestOptions {
    var packed: map<string, Value>
    var unpacked: map<string, Value>

    /** objects.js:121-122: both views start out empty. */
    constructor Empty()
      ensures packed == map[] && unpacked == map[]
    {
      packed := map[];
      unpacked := map[];
    }

    /** `new PublicKeyCredentialRequestOptions(input)`: the object, or the exception it throws. */
    static method New(input: Value) returns (r: Result<PublicKeyCredentialRequestOptions, Error>)
      ensures r.Success? <==> RequestOptionsOf(input).Success?
      ensures r.Success? ==> fresh(r.value)
      ensures r.Success? ==> RequestOptionsOf(input) == Success(Views(r.value.packed, r.value.unpacked))
      ensures r.Failure? ==> RequestOptionsOf(input) == Failure(r.error)
    {
      var o := new PublicKeyCredentialRequestOptions.Empty();
      var outcome := o.Initialize(input);
      if outcome.Fail? {
        return Failure(outcome.error);
      }
      return Success(o);
    }

    /** The body of the constructor after the views are created (objects.js:124-172). */
    method Initialize(input: Value) returns (outcome: Outcome<Error>)
      requires packed == map[] && unpacked == map[]
      modifies this
      ensures outcome.Fail? ==> RequestOptionsOf(input) == Failure(outcome.error)
      ensures outcome.Pass? ==> RequestOptionsOf(input) == Success(Views(packed, unpacked))
    {
      if !Truthy(input) {
        return Pass;
      }
      var fieldsOr := FieldsOf(input);
      if fieldsOr.Failure? {
        return Fail(fieldsOr.error);
      }
      var fields := fieldsOr.value;

      packed, unpacked := CopyFields(fields, ClonedNames, true, packed, unpacked);
      packed, unpacked := CopyFields(fields, SharedNames, false, packed, unpacked);
      NoneBefore(Projection(fields, ClonedNames, true));
      assert packed == Plain(fields) && unpacked == Plain(fields);
      PlainStaged(fields);

      outcome := ConvertChallenge(fields);
      if outcome.Fail? {
        ChallengeFails(fields);
        return;
      }
      StagedSameOff(fields, Plain(fields), Plain(fields), packed, unpacked);
      ghost var staged, stagedU := packed, unpacked;
      outcome := ConvertAllowCredentials(fields);
      if outcome.Fail? {
        CredentialsFail(fields);
        return;
      }
      RequestAssembled(fields, staged, stagedU, packed, unpacked);
    }

    /** objects.js:144-151: `challenge`, converted from the side it was given on. */
    method ConvertChallenge(fields: map<string, Value>) returns (outcome: Outcome<Error>)
      requires "challenge" in fields ==>
        "challenge" in packed && "challenge" in unpacked
        && packed["challenge"] == fields["challenge"] && unpacked["challenge"] == fields["challenge"]
      modifies this
      ensures outcome.Fail? ==> "challenge" in fields && HexDual(fields["challenge"]) == Failure(outcome.error)
      ensures outcome.Pass? ==> SameOff(old(packed), packed, "challenge") && SameOff(old(unpacked), unpacked, "challenge")
      ensures outcome.Pass? && "challenge" in fields ==>
        "challenge" in packed && "challenge" in unpacked
        && HexDual(fields["challenge"]) == Success(Dual(packed["challenge"], unpacked["challenge"]))
    {
      if "challenge" in fields {
        var challenge := fields["challenge"];
        if IsPacked(challenge) {
          var bytes := UnpackByteArray(challenge);
          if bytes.Failure? {
            return Fail(bytes.error);
          }
          unpacked := unpacked["challenge" := Bytes(bytes.value)];
        } else {
          packed := packed["challenge" := Str(PackByteArray(challenge.bytes))];
        }
      }
      return Pass;
    }

    /** objects.js:153-172: `allowCredentials`, element by element. */
    method ConvertAllowCredentials(fields: map<string, Value>) returns (outcome: Outcome<Error>)
      modifies this
      ensures outcome.Fail? ==>
        "allowCredentials" in fields && EncodeField(CredentialList, fields["allowCredentials"]) == Failure(outcome.error)
      ensures outcome.Pass? && "allowCredentials" !in fields ==> packed == old(packed) && unpacked == old(unpacked)
      ensures outcome.Pass? && "allowCredentials" in fields ==>
        && "allowCredentials" in packed && "allowCredentials" in unpacked
        && packed == old(packed)["allowCredentials" := packed["allowCredentials"]]
        && unpacked == old(unpacked)["allowCredentials" := unpacked["allowCredentials"]]
        && EncodeField(CredentialList, fields["allowCredentials"])
             == Success(Dual(packed["allowCredentials"], unpacked["allowCredentials"]))
    {
      if "allowCredentials" in fields {
        ghost var before, beforeU := packed, unpacked;
        packed := packed["allowCredentials" := Arr([])];
        unpacked := unpacked["allowCredentials" := Arr([])];
        var list := Elements(fields["allowCredentials"]);
        if list.Failure? {
          return Fail(list.error);
        }
        var duals := EncodeCredentials(list.value);
        if duals.Failure? {
          return Fail(duals.error);
        }
        packed := packed["allowCredentials" := Arr(duals.value.packed)];
        unpacked := unpacked["allowCredentials" := Arr(duals.value.unpacked)];
        assert packed == before["allowCredentials" := Arr(duals.value.packed)];
        assert unpacked == beforeU["allowCredentials" := Arr(duals.value.unpacked)];
      }
      return Pass;
    }
  }
}
