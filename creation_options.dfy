/**
 * `PublicKeyCredentialCreationOptions` (objects.js:18-82), the options of
 * a registration ceremony (section 5.4 of W3C Web Authentication Level 2).
 * Its binary fields are `user.id`, `challenge` and the `id` of each entry
 * of `excludeCredentials`.
 */
module CreationOptions {
  import opened Wrappers
  import opened JsValues
  import opened Codecs
  import opened DualEncoder

  /** The fields copied as shallow clones (objects.js:27). */
  const ClonedNames: seq<string> := ["rp", "user", "pubKeyCredParams", "authenticatorSelection", "attestation", "extensions"]

  /** The fields copied as they are (objects.js:35). */
  const SharedNames: seq<string> := ["challenge", "timeout"]

  /** Every field name with its rule, in the order the constructor can throw. */
  const Table: seq<Entry> := [
    Entry("rp", Cloned),
    Entry("user", ClonedWithId),
    Entry("pubKeyCredParams", Cloned),
    Entry("authenticatorSelection", Cloned),
    Entry("attestation", Cloned),
    Entry("extensions", Cloned),
    Entry("challenge", HexBinary),
    Entry("timeout", Shared),
    Entry("excludeCredentials", CredentialList)
  ]

  const Names: set<string> := {"rp", "user", "pubKeyCredParams", "authenticatorSelection", "attestation",
                               "extensions", "challenge", "timeout", "excludeCredentials"}

  lemma TableConsistent()
    ensures Consistent(Table)
  {
  }

  lemma TableNames()
    ensures NameSet(Table) == Names
  {
  }

  /** The cloned names other than `user` sit in the table at their own index. */
  lemma ClonedIndex(n: string)
    requires n in ClonedNames && n != "user"
    ensures exists i :: 0 <= i < |Table| && Table[i] == Entry(n, Cloned)
  {
    var i :| 0 <= i < |ClonedNames| && ClonedNames[i] == n;
    assert Table[i] == Entry(n, Cloned) by {
      if i == 0 {} else if i == 2 {} else if i == 3 {} else if i == 4 {} else if i == 5 {}
    }
  }

  /** Only three entries of the table can throw: `user`, `challenge` and `excludeCredentials`. */
  lemma ConvertingIndex(i: nat)
    requires i < |Table| && !Table[i].rule.Cloned? && !Table[i].rule.Shared?
    ensures i == 1 || i == 6 || i == 8
  {
    if i == 0 {} else if i == 2 {} else if i == 3 {} else if i == 4 {} else if i == 5 {} else if i == 7 {}
  }

  /** The views a `new PublicKeyCredentialCreationOptions(input)` holds, or the error it throws. */
  function CreationOptionsOf(input: Value): (r: Result<Views, Error>)
    ensures !Truthy(input) ==> r == Success(NoViews)
    ensures r.Success? ==> r.value.packed.Keys == r.value.unpacked.Keys
    ensures r.Success? ==> r.value.packed.Keys <= Own(input).Keys
  {
    Convert(Table, input)
  }

  /** After a construction, entry `i` of the table is rendered in both views. */
  lemma Renders(input: Value, i: nat)
    requires Convert(Table, input).Success? && i < |Table|
    ensures Rendered(Table[i], Own(input), Convert(Table, input).value)
  {
    TableConsistent();
    ConvertRenders(Table, input, i);
  }

  /** An empty object, `null` or no input at all leaves both views empty. */
  lemma CreationOptionsOfNothing()
    ensures CreationOptionsOf(Obj(map[])) == Success(NoViews)
    ensures CreationOptionsOf(Null) == Success(NoViews) && CreationOptionsOf(Undefined) == Success(NoViews)
  {
    EncodeObjectOfNothing(Table);
  }

  /** The fields a completed construction holds: the table's names the input has, in both views. */
  lemma CreationOptionsKeys(input: Value)
    requires CreationOptionsOf(input).Success?
    ensures CreationOptionsOf(input).value.packed.Keys == Own(input).Keys * Names
    ensures CreationOptionsOf(input).value.unpacked.Keys == Own(input).Keys * Names
  {
    TableConsistent();
    TableNames();
    ConvertShape(Table, input);
  }

  /** The plain fields: clones of the input's, or for `timeout` the input's own value, equal in both views. */
  lemma CreationOptionsPlain(input: Value, n: string)
    requires CreationOptionsOf(input).Success?
    requires n in Own(input) && n in ClonedNames && n != "user"
    ensures var r := CreationOptionsOf(input).value;
      n in r.packed && n in r.unpacked && r.packed[n] == Clone(Own(input)[n]) && r.unpacked[n] == Clone(Own(input)[n])
  {
    ClonedIndex(n);
    var i :| 0 <= i < |Table| && Table[i] == Entry(n, Cloned);
    Renders(input, i);
  }

  lemma CreationOptionsTimeout(input: Value)
    requires CreationOptionsOf(input).Success?
    requires "timeout" in Own(input)
    ensures var r := CreationOptionsOf(input).value;
      && "timeout" in r.packed && "timeout" in r.unpacked
      && r.packed["timeout"] == Own(input)["timeout"] && r.unpacked["timeout"] == Own(input)["timeout"]
  {
    Renders(input, 7);
  }

  /**
   * `user` is cloned into both views; its `id` is converted, and the
   * two sides then describe one byte string, exactly when `user` and
   * `user.id` are truthy.
   */
  lemma CreationOptionsUser(input: Value)
    requires CreationOptionsOf(input).Success?
    requires "user" in Own(input)
    ensures var r, user := CreationOptionsOf(input).value, Own(input)["user"];
      && "user" in r.packed && "user" in r.unpacked
      && r.packed["user"].Obj? && r.unpacked["user"].Obj?
      && r.packed["user"].fields.Keys == Clone(user).fields.Keys
      && r.unpacked["user"].fields.Keys == Clone(user).fields.Keys
      && (forall k :: k in Clone(user).fields && k != "id" ==>
            r.packed["user"].fields[k] == Clone(user).fields[k] && r.unpacked["user"].fields[k] == Clone(user).fields[k])
      && (if Truthy(user) && Truthy(Prop(user, "id"))
          then HexAgree(Dual(r.packed["user"].fields["id"], r.unpacked["user"].fields["id"]))
            && HexDual(Prop(user, "id")) == Success(Dual(r.packed["user"].fields["id"], r.unpacked["user"].fields["id"]))
          else r.packed["user"] == Clone(user) && r.unpacked["user"] == Clone(user))
  {
    Renders(input, 1);
    var user := Own(input)["user"];
    WithIdDualShape(user);
    if Truthy(user) && Truthy(Prop(user, "id")) {
      HexDualAgrees(Prop(user, "id"));
    }
  }

  /** `challenge` keeps the side it was given on; the other side is its encoding. */
  lemma CreationOptionsChallenge(input: Value)
    requires CreationOptionsOf(input).Success?
    requires "challenge" in Own(input)
    ensures var r, c := CreationOptionsOf(input).value, Own(input)["challenge"];
      && "challenge" in r.packed && "challenge" in r.unpacked
      && (if c.Bytes? then r.unpacked["challenge"] == c else r.packed["challenge"] == c)
      && HexAgree(Dual(r.packed["challenge"], r.unpacked["challenge"]))
  {
    Renders(input, 6);
    HexDualAgrees(Own(input)["challenge"]);
  }

  /**
   * `excludeCredentials` becomes two lists as long as the input's, in its
   * order, whose elements are the renderings of its elements.
   */
  lemma CreationOptionsCredentials(input: Value)
    requires CreationOptionsOf(input).Success?
    requires "excludeCredentials" in Own(input)
    ensures var r, x := CreationOptionsOf(input).value, Own(input)["excludeCredentials"];
      && Elements(x).Success? && CredentialListDual(Elements(x).value).Success?
      && "excludeCredentials" in r.packed && "excludeCredentials" in r.unpacked
      && r.packed["excludeCredentials"] == Arr(CredentialListDual(Elements(x).value).value.packed)
      && r.unpacked["excludeCredentials"] == Arr(CredentialListDual(Elements(x).value).value.unpacked)
  {
    Renders(input, 8);
  }

  /**
   * The inputs the constructor throws on: a truthy primitive, or an input
   * whose `user.id`, `challenge` or credential list entry does not convert.
   */
  ghost predicate Rejected(input: Value) {
    && Truthy(input)
    && (|| input.Bool? || input.Num? || input.Str?
        || ("user" in Own(input) && WithIdDual(Own(input)["user"]).Failure?)
        || ("challenge" in Own(input) && HexDual(Own(input)["challenge"]).Failure?)
        || ("excludeCredentials" in Own(input)
            && EncodeField(CredentialList, Own(input)["excludeCredentials"]).Failure?))
  }

  /** The constructor throws exactly on the rejected inputs. */
  lemma CreationOptionsThrows(input: Value)
    ensures CreationOptionsOf(input).Failure? <==> Rejected(input)
  {
    if CreationOptionsOf(input).Failure? {
      ThrowsOnlyOnRejected(input);
    }
    if Rejected(input) {
      ThrowsOnRejected(input);
    }
  }

  lemma ThrowsOnRejected(input: Value)
    requires Rejected(input)
    ensures CreationOptionsOf(input).Failure?
  {
    if input.Obj? {
      var f := input.fields;
      if "user" in f && WithIdDual(f["user"]).Failure? {
        UserIdFails(f);
      } else if "challenge" in f && HexDual(f["challenge"]).Failure? {
        ChallengeFails(f);
      } else {
        CredentialsFail(f);
      }
    }
  }

  lemma ThrowsOnlyOnRejected(input: Value)
    requires CreationOptionsOf(input).Failure?
    ensures Rejected(input)
  {
    ConvertFails(Table, input);
    if !input.Bool? && !input.Num? && !input.Str? {
      var f := Own(input);
      var i :| 0 <= i < |Table| && Table[i].name in f && EncodeField(Table[i].rule, f[Table[i].name]).Failure?;
      ConvertingIndex(i);
      if i == 1 {
        assert Table[1] == Entry("user", ClonedWithId);
      } else if i == 6 {
        assert Table[6] == Entry("challenge", HexBinary);
      } else {
        assert Table[8] == Entry("excludeCredentials", CredentialList);
      }
    }
  }

  /** Both views after the plain copies of objects.js:27-41. */
  function Plain(fields: map<string, Value>): map<string, Value> {
    Projection(fields, ClonedNames, true) + Projection(fields, SharedNames, false)
  }

  /** Off `user` and `challenge`, the views still hold the plain copies. */
  ghost predicate PlainKept(fields: map<string, Value>, packed: map<string, Value>, unpacked: map<string, Value>) {
    forall n :: n in Plain(fields) && n in packed && n in unpacked && n != "user" && n != "challenge" ==>
      packed[n] == Plain(fields)[n] && unpacked[n] == Plain(fields)[n]
  }

  /** The views between the plain copies and the credential list: the plain names, kept off the binary ones. */
  ghost predicate Staged(fields: map<string, Value>, packed: map<string, Value>, unpacked: map<string, Value>) {
    && packed.Keys == Plain(fields).Keys && unpacked.Keys == Plain(fields).Keys
    && PlainKept(fields, packed, unpacked)
  }

  lemma StagedSameOff(fields: map<string, Value>, packed: map<string, Value>, unpacked: map<string, Value>,
                      packed': map<string, Value>, unpacked': map<string, Value>, name: string)
    requires Staged(fields, packed, unpacked)
    requires SameOff(packed, packed', name) && SameOff(unpacked, unpacked', name)
    requires name == "user" || name == "challenge"
    ensures Staged(fields, packed', unpacked')
  {
  }

  /** The credential list adds its name to the staged views, leaving the plain copies. */
  lemma StagedWithList(fields: map<string, Value>, packed: map<string, Value>, unpacked: map<string, Value>, p: Value, u: Value)
    requires Staged(fields, packed, unpacked)
    requires "excludeCredentials" in fields
    ensures var packed', unpacked' := packed["excludeCredentials" := p], unpacked["excludeCredentials" := u];
      && packed'.Keys == fields.Keys * Names && unpacked'.Keys == fields.Keys * Names
      && PlainKept(fields, packed', unpacked')
  {
    ListKeys(fields);
    var packed', unpacked' := packed["excludeCredentials" := p], unpacked["excludeCredentials" := u];
    assert "excludeCredentials" !in Plain(fields);
    assert packed'.Keys == Plain(fields).Keys + {"excludeCredentials"} && unpacked'.Keys == Plain(fields).Keys + {"excludeCredentials"};
    forall n | n in Plain(fields) && n in packed' && n in unpacked' && n != "user" && n != "challenge"
      ensures packed'[n] == Plain(fields)[n] && unpacked'[n] == Plain(fields)[n]
    {
      assert n != "excludeCredentials";
    }
  }

  /** Staged views with no credential list have the table's keys. */
  lemma StagedWithoutList(fields: map<string, Value>, packed: map<string, Value>, unpacked: map<string, Value>)
    requires Staged(fields, packed, unpacked)
    requires "excludeCredentials" !in fields
    ensures packed.Keys == fields.Keys * Names && unpacked.Keys == fields.Keys * Names
  {
    ListKeys(fields);
  }

  /** The credential list's name is the one name of the table the plain copies leave out. */
  lemma ListKeys(fields: map<string, Value>)
    ensures "excludeCredentials" !in Plain(fields)
    ensures "excludeCredentials" in fields ==> Plain(fields).Keys + {"excludeCredentials"} == fields.Keys * Names
    ensures "excludeCredentials" !in fields ==> Plain(fields).Keys == fields.Keys * Names
  {
    PlainKeys(fields);
    NamesWith(fields);
  }

  lemma PlainNames()
    ensures (set f | f in ClonedNames) + (set f | f in SharedNames) == Names - {"excludeCredentials"}
  {
  }

  lemma NamesWith(fields: map<string, Value>)
    ensures "excludeCredentials" in fields ==>
      fields.Keys * (Names - {"excludeCredentials"}) + {"excludeCredentials"} == fields.Keys * Names
    ensures "excludeCredentials" !in fields ==> fields.Keys * (Names - {"excludeCredentials"}) == fields.Keys * Names
  {
  }

  /** The plain copies hold the table's names but `excludeCredentials`. */
  lemma PlainKeys(fields: map<string, Value>)
    ensures Plain(fields).Keys == fields.Keys * (Names - {"excludeCredentials"})
  {
    ProjectionAt(fields, ClonedNames, true);
    ProjectionAt(fields, SharedNames, false);
    PlainNames();
  }

  /** A field copied as it is holds the input's value in the plain copies. */
  lemma SharedAt(fields: map<string, Value>, n: string)
    requires n in fields && n in SharedNames
    ensures n in Plain(fields) && Plain(fields)[n] == fields[n]
  {
    ProjectionAt(fields, SharedNames, false);
  }

  /** Right after the plain copies the views are staged, with `user` cloned and `challenge` as given. */
  lemma PlainStaged(fields: map<string, Value>)
    ensures Staged(fields, Plain(fields), Plain(fields))
    ensures "user" in fields ==> "user" in Plain(fields) && Plain(fields)["user"] == Clone(fields["user"])
    ensures "challenge" in fields ==> "challenge" in Plain(fields) && Plain(fields)["challenge"] == fields["challenge"]
  {
    if "user" in fields {
      ClonedAt(fields, "user");
    }
    if "challenge" in fields {
      SharedAt(fields, "challenge");
    }
  }

  /** Converting `user.id` keeps the views staged and `challenge` as given. */
  lemma StagedAfterUser(fields: map<string, Value>, packed: map<string, Value>, unpacked: map<string, Value>)
    requires SameOff(Plain(fields), packed, "user") && SameOff(Plain(fields), unpacked, "user")
    ensures Staged(fields, packed, unpacked)
    ensures "challenge" in fields ==>
      "challenge" in packed && "challenge" in unpacked
      && packed["challenge"] == fields["challenge"] && unpacked["challenge"] == fields["challenge"]
  {
    PlainStaged(fields);
    StagedSameOff(fields, Plain(fields), Plain(fields), packed, unpacked, "user");
  }

  /** Before `challenge`, every entry but `user` is a clone. */
  lemma ClonedBefore(j: nat)
    requires j < 6 && j != 1
    ensures Table[j].rule == Cloned
  {
    if j == 0 {} else if j == 2 {} else if j == 3 {} else if j == 4 {}
  }

  /** A `user.id` that does not convert is the first error of the table. */
  lemma UserIdFails(fields: map<string, Value>)
    requires "user" in fields && WithIdDual(fields["user"]).Failure?
    ensures EncodeObject(Table, fields) == Failure(WithIdDual(fields["user"]).error)
  {
    EncodeObjectFailsAtIndex(Table, 1, fields);
  }

  /** A `challenge` that does not convert, after a `user` that does, is the error of the table. */
  lemma ChallengeFails(fields: map<string, Value>)
    requires "user" in fields ==> WithIdDual(fields["user"]).Success?
    requires "challenge" in fields && HexDual(fields["challenge"]).Failure?
    ensures EncodeObject(Table, fields) == Failure(HexDual(fields["challenge"]).error)
  {
    forall j | 0 <= j < 6 && Table[j].name in fields
      ensures EncodeField(Table[j].rule, fields[Table[j].name]).Success?
    {
      if j == 1 {} else { ClonedBefore(j); }
    }
    EncodeObjectFailsAtIndex(Table, 6, fields);
  }

  /** A credential list that does not convert, after fields that do, is the error of the table. */
  lemma CredentialsFail(fields: map<string, Value>)
    requires "user" in fields ==> WithIdDual(fields["user"]).Success?
    requires "challenge" in fields ==> HexDual(fields["challenge"]).Success?
    requires "excludeCredentials" in fields && EncodeField(CredentialList, fields["excludeCredentials"]).Failure?
    ensures EncodeObject(Table, fields) == Failure(EncodeField(CredentialList, fields["excludeCredentials"]).error)
  {
    forall j | 0 <= j < 8 && Table[j].name in fields
      ensures EncodeField(Table[j].rule, fields[Table[j].name]).Success?
    {
      if j == 1 {} else if j == 6 {} else if j == 7 {} else { ClonedBefore(j); }
    }
    EncodeObjectFailsAtIndex(Table, 8, fields);
  }

  /** A field copied as a clone, and not converted afterwards, is rendered by its rule. */
  lemma PlainRendered(fields: map<string, Value>, packed: map<string, Value>, unpacked: map<string, Value>, n: string)
    requires n in ClonedNames && n != "user"
    requires packed.Keys == fields.Keys * Names && unpacked.Keys == fields.Keys * Names
    requires PlainKept(fields, packed, unpacked)
    ensures Rendered(Entry(n, Cloned), fields, Views(packed, unpacked))
  {
    if n in fields {
      ClonedAt(fields, n);
      assert n in Names && n != "challenge";
    }
  }

  /** A field copied as a clone holds the clone in the plain copies. */
  lemma ClonedAt(fields: map<string, Value>, n: string)
    requires n in fields && n in ClonedNames
    ensures n in Plain(fields) && Plain(fields)[n] == Clone(fields[n])
  {
    ProjectionAt(fields, ClonedNames, true);
    ProjectionAt(fields, SharedNames, false);
    assert n !in SharedNames;
  }

  /** `timeout` is copied as it is. */
  lemma TimeoutRendered(fields: map<string, Value>, packed: map<string, Value>, unpacked: map<string, Value>)
    requires packed.Keys == fields.Keys * Names && unpacked.Keys == fields.Keys * Names
    requires PlainKept(fields, packed, unpacked)
    ensures Rendered(Entry("timeout", Shared), fields, Views(packed, unpacked))
  {
    if "timeout" in fields {
      SharedAt(fields, "timeout");
      assert "timeout" in Names;
    }
  }

  /** Views in which every entry of the table is rendered are the views of the table. */
  lemma TableRendered(fields: map<string, Value>, views: Views)
    requires Rendered(Entry("rp", Cloned), fields, views)
    requires Rendered(Entry("user", ClonedWithId), fields, views)
    requires Rendered(Entry("pubKeyCredParams", Cloned), fields, views)
    requires Rendered(Entry("authenticatorSelection", Cloned), fields, views)
    requires Rendered(Entry("attestation", Cloned), fields, views)
    requires Rendered(Entry("extensions", Cloned), fields, views)
    requires Rendered(Entry("challenge", HexBinary), fields, views)
    requires Rendered(Entry("timeout", Shared), fields, views)
    requires Rendered(Entry("excludeCredentials", CredentialList), fields, views)
    ensures forall e :: e in Table ==> Rendered(e, fields, views)
  {
  }

  lemma TableIs(fields: map<string, Value>, views: Views)
    requires forall e :: e in Table ==> Rendered(e, fields, views)
    requires views.packed.Keys == fields.Keys * Names && views.unpacked.Keys == fields.Keys * Names
    ensures EncodeObject(Table, fields) == Success(views)
  {
    TableConsistent();
    TableNames();
    EncodeObjectIs(Table, fields, views);
  }

  /**
   * Views that hold the plain copies off the binary fields and the
   * renderings of the binary fields are the views of the table.
   */
  lemma CreationSucceeds(fields: map<string, Value>, packed: map<string, Value>, unpacked: map<string, Value>)
    requires packed.Keys == fields.Keys * Names && unpacked.Keys == fields.Keys * Names
    requires PlainKept(fields, packed, unpacked)
    requires "user" in fields ==> WithIdDual(fields["user"]) == Success(Dual(packed["user"], unpacked["user"]))
    requires "challenge" in fields ==> HexDual(fields["challenge"]) == Success(Dual(packed["challenge"], unpacked["challenge"]))
    requires "excludeCredentials" in fields ==>
      EncodeField(CredentialList, fields["excludeCredentials"])
        == Success(Dual(packed["excludeCredentials"], unpacked["excludeCredentials"]))
    ensures EncodeObject(Table, fields) == Success(Views(packed, unpacked))
  {
    PlainRendered(fields, packed, unpacked, "rp");
    PlainRendered(fields, packed, unpacked, "pubKeyCredParams");
    PlainRendered(fields, packed, unpacked, "authenticatorSelection");
    PlainRendered(fields, packed, unpacked, "attestation");
    PlainRendered(fields, packed, unpacked, "extensions");
    TimeoutRendered(fields, packed, unpacked);
    assert Rendered(Entry("user", ClonedWithId), fields, Views(packed, unpacked));
    assert Rendered(Entry("challenge", HexBinary), fields, Views(packed, unpacked));
    assert Rendered(Entry("excludeCredentials", CredentialList), fields, Views(packed, unpacked));
    TableRendered(fields, Views(packed, unpacked));
    TableIs(fields, Views(packed, unpacked));
  }

  /** The staged views with the credential list rendered on top are the views of the table. */
  lemma CreationAssembled(fields: map<string, Value>, staged: map<string, Value>, stagedU: map<string, Value>,
                          packed: map<string, Value>, unpacked: map<string, Value>)
    requires Staged(fields, staged, stagedU)
    requires "user" in fields ==>
      "user" in staged && "user" in stagedU && WithIdDual(fields["user"]) == Success(Dual(staged["user"], stagedU["user"]))
    requires "challenge" in fields ==>
      "challenge" in staged && "challenge" in stagedU
      && HexDual(fields["challenge"]) == Success(Dual(staged["challenge"], stagedU["challenge"]))
    requires "excludeCredentials" !in fields ==> packed == staged && unpacked == stagedU
    requires "excludeCredentials" in fields ==>
      && "excludeCredentials" in packed && "excludeCredentials" in unpacked
      && packed == staged["excludeCredentials" := packed["excludeCredentials"]]
      && unpacked == stagedU["excludeCredentials" := unpacked["excludeCredentials"]]
      && EncodeField(CredentialList, fields["excludeCredentials"])
           == Success(Dual(packed["excludeCredentials"], unpacked["excludeCredentials"]))
    ensures EncodeObject(Table, fields) == Success(Views(packed, unpacked))
  {
    if "excludeCredentials" in fields {
      StagedWithList(fields, staged, stagedU, packed["excludeCredentials"], unpacked["excludeCredentials"]);
    } else {
      StagedWithoutList(fields, packed, unpacked);
    }
    CreationSucceeds(fields, packed, unpacked);
  }

  class PublicKeyCredentialCreationOptions {
    var packed: map<string, Value>
    var unpacked: map<string, Value>

    /** objects.js:20-21: both views start out empty. */
    constructor Empty()
      ensures packed == map[] && unpacked == map[]
    {
      packed := map[];
      unpacked := map[];
    }

    /** `new PublicKeyCredentialCreationOptions(input)`: the object, or the exception it throws. */
    static method New(input: Value) returns (r: Result<PublicKeyCredentialCreationOptions, Error>)
      ensures r.Success? <==> CreationOptionsOf(input).Success?
      ensures r.Success? ==> fresh(r.value)
      ensures r.Success? ==> CreationOptionsOf(input) == Success(Views(r.value.packed, r.value.unpacked))
      ensures r.Failure? ==> CreationOptionsOf(input) == Failure(r.error)
    {
      var o := new PublicKeyCredentialCreationOptions.Empty();
      var outcome := o.Initialize(input);
      if outcome.Fail? {
        return Failure(outcome.error);
      }
      return Success(o);
    }

    /** The body of the constructor after the views are created (objects.js:23-80). */
    method Initialize(input: Value) returns (outcome: Outcome<Error>)
      requires packed == map[] && unpacked == map[]
      modifies this
      ensures outcome.Fail? ==> CreationOptionsOf(input) == Failure(outcome.error)
      ensures outcome.Pass? ==> CreationOptionsOf(input) == Success(Views(packed, unpacked))
    {
      if !Truthy(input) {
        return Pass;
      }
      var fieldsOr := FieldsOf(input);
      if fieldsOr.Failure? {
        return Fail(fieldsOr.error);
      }
      var fields := fieldsOr.value;

      packed, unpacked := CopyFields(fields, ClonedNames, true, packed, unpacked);
      packed, unpacked := CopyFields(fields, SharedNames, false, packed, unpacked);
      NoneBefore(Projection(fields, ClonedNames, true));
      assert packed == Plain(fields) && unpacked == Plain(fields);

      outcome := ConvertIds(fields);
      if outcome.Fail? {
        return;
      }
      ghost var staged, stagedU := packed, unpacked;
      outcome := ConvertExcludeCredentials(fields);
      if outcome.Fail? {
        CredentialsFail(fields);
        return;
      }
      CreationAssembled(fields, staged, stagedU, packed, unpacked);
    }

    /** objects.js:43-59: the two binary fields outside the credential list, `user.id` and `challenge`. */
    method ConvertIds(fields: map<string, Value>) returns (outcome: Outcome<Error>)
      requires packed == Plain(fields) && unpacked == Plain(fields)
      modifies this
      ensures outcome.Fail? ==> EncodeObject(Table, fields) == Failure(outcome.error)
      ensures outcome.Pass? ==> Staged(fields, packed, unpacked)
      ensures outcome.Pass? && "user" in fields ==>
        "user" in packed && "user" in unpacked && WithIdDual(fields["user"]) == Success(Dual(packed["user"], unpacked["user"]))
      ensures outcome.Pass? && "challenge" in fields ==>
        "challenge" in packed && "challenge" in unpacked
        && HexDual(fields["challenge"]) == Success(Dual(packed["challenge"], unpacked["challenge"]))
    {
      PlainStaged(fields);
      outcome := ConvertUserId(fields);
      if outcome.Fail? {
        UserIdFails(fields);
        return;
      }
      StagedAfterUser(fields, packed, unpacked);
      ghost var afterUser, afterUserU := packed, unpacked;
      outcome := ConvertChallenge(fields);
      if outcome.Fail? {
        ChallengeFails(fields);
        return;
      }
      StagedSameOff(fields, afterUser, afterUserU, packed, unpacked, "challenge");
      assert "user" in afterUser ==> packed["user"] == afterUser["user"] && unpacked["user"] == afterUserU["user"];
    }

    /** objects.js:43-50: the `id` of the cloned `user`, when both are truthy. */
    method ConvertUserId(fields: map<string, Value>) returns (outcome: Outcome<Error>)
      requires "user" in fields ==>
        "user" in packed && "user" in unpacked && packed["user"] == Clone(fields["user"]) && unpacked["user"] == Clone(fields["user"])
      modifies this
      ensures outcome.Fail? ==> "user" in fields && WithIdDual(fields["user"]) == Failure(outcome.error)
      ensures outcome.Pass? ==> SameOff(old(packed), packed, "user") && SameOff(old(unpacked), unpacked, "user")
      ensures outcome.Pass? && "user" in fields ==>
        "user" in packed && "user" in unpacked && WithIdDual(fields["user"]) == Success(Dual(packed["user"], unpacked["user"]))
    {
      var user := Get(fields, "user");
      if Truthy(user) && Truthy(Prop(user, "id")) {
        var id := Prop(user, "id");
        if IsPacked(id) {
          var bytes := UnpackByteArray(id);
          if bytes.Failure? {
            return Fail(bytes.error);
          }
          unpacked := unpacked["user" := SetProp(unpacked["user"], "id", Bytes(bytes.value))];
        } else {
          packed := packed["user" := SetProp(packed["user"], "id", Str(PackByteArray(id.bytes)))];
        }
        assert user.fields["id" := id] == user.fields;
      }
      return Pass;
    }

    /** objects.js:52-59: `challenge`, converted from the side it was given on. */
    method ConvertChallenge(fields: map<string, Value>) returns (outcome: Outcome<Error>)
      requires "challenge" in fields ==>
        "challenge" in packed && "challenge" in unpacked
        && packed["challenge"] == fields["challenge"] && unpacked["challenge"] == fields["challenge"]
      modifies this
      ensures outcome.Fail? ==> "challenge" in fields && HexDual(fields["challenge"]) == Failure(outcome.error)
      ensures outcome.Pass? ==> SameOff(old(packed), packed, "challenge") && SameOff(old(unpacked), unpacked, "challenge")
      ensures outcome.Pass? && "challenge" in fields ==>
        "challenge" in packed && "challenge" in unpacked
        && HexDual(fields["challenge"]) == Success(Dual(packed["challenge"], unpacked["challenge"]))
    {
      if "challenge" in fields {
        var challenge := fields["challenge"];
        if IsPacked(challenge) {
          var bytes := UnpackByteArray(challenge);
          if bytes.Failure? {
            return Fail(bytes.error);
          }
          unpacked := unpacked["challenge" := Bytes(bytes.value)];
        } else {
          packed := packed["challenge" := Str(PackByteArray(challenge.bytes))];
        }
      }
      return Pass;
    }

    /** objects.js:61-80: `excludeCredentials`, element by element. */
    method ConvertExcludeCredentials(fields: map<string, Value>) returns (outcome: Outcome<Error>)
      modifies this
      ensures outcome.Fail? ==>
        "excludeCredentials" in fields && EncodeField(CredentialList, fields["excludeCredentials"]) == Failure(outcome.error)
      ensures outcome.Pass? && "excludeCredentials" !in fields ==> packed == old(packed) && unpacked == old(unpacked)
      ensures outcome.Pass? && "excludeCredentials" in fields ==>
        && "excludeCredentials" in packed && "excludeCredentials" in unpacked
        && packed == old(packed)["excludeCredentials" := packed["excludeCredentials"]]
        && unpacked == old(unpacked)["excludeCredentials" := unpacked["excludeCredentials"]]
        && EncodeField(CredentialList, fields["excludeCredentials"])
             == Success(Dual(packed["excludeCredentials"], unpacked["excludeCredentials"]))
    {
      if "excludeCredentials" in fields {
        ghost var before, beforeU := packed, unpacked;
        packed := packed["excludeCredentials" := Arr([])];
        unpacked := unpacked["excludeCredentials" := Arr([])];
        var list := Elements(fields["excludeCredentials"]);
        if list.Failure? {
          return Fail(list.error);
        }
        var duals := EncodeCredentials(list.value);
        if duals.Failure? {
          return Fail(duals.error);
        }
        packed := packed["excludeCredentials" := Arr(duals.value.packed)];
        unpacked := unpacked["excludeCredentials" := Arr(duals.value.unpacked)];
        assert packed == before["excludeCredentials" := Arr(duals.value.packed)];
        assert unpacked == beforeU["excludeCredentials" := Arr(duals.value.unpacked)];
      }
      return Pass;
    }
  }
}
