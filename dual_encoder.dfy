/**
 * The rules by which a ceremony constructor fills its two views from one
 * input: the single-field rule for a binary field (objects.js:45-58,
 * 93-112, 191-195), the same rule applied to the `id` of a cloned object
 * (objects.js:44-50, 67-76), the list rule (objects.js:62-80, 154-172), and
 * the plain copies (objects.js:27-41, 128-142). A ceremony is described by
 * a table that gives each of its field names one rule; `EncodeObject` is
 * the reference definition of what a constructor produces from that table.
 */
module DualEncoder {
  import opened Wrappers
  import opened JsValues
  import opened Codecs

  /** One field in its two renderings. */
  datatype Dual = Dual(packed: Value, unpacked: Value)

  /** The `packed` and `unpacked` objects of a ceremony wrapper. */
  datatype Views = Views(packed: map<string, Value>, unpacked: map<string, Value>)

  const NoViews := Views(map[], map[])

  /** `isPacked` (objects.js:9): whatever is not a `Uint8Array` is taken to be packed text. */
  predicate IsPacked(v: Value) {
    !v.Bytes?
  }

  /**
   * The single-field rule with the hex codec: the representation supplied
   * is kept on its own side and the other side is derived from it.
   */
  function HexDual(v: Value): (r: Result<Dual, Error>)
    ensures r.Success? && v.Bytes? ==> r.value.unpacked == v
    ensures r.Success? && !v.Bytes? ==> r.value.packed == v
    ensures r.Failure? <==> !v.Bytes? && UnpackByteArray(v).Failure?
    ensures r.Failure? ==> r.error == UnpackByteArray(v).error
    ensures r.Success? ==> r.value.packed.Str? && r.value.unpacked.Bytes?
  {
    if IsPacked(v) then
      var bytes :- UnpackByteArray(v);
      Success(Dual(v, Bytes(bytes)))
    else
      Success(Dual(Str(PackByteArray(v.bytes)), v))
  }

  /**
   * The two sides of a hex field describe one byte string: packing the
   * bytes gives the text (in lower case), and the text unpacks to the
   * bytes unless they are empty (whose packed form `''` does not unpack).
   */
  predicate HexAgree(d: Dual) {
    && d.packed.Str? && d.unpacked.Bytes?
    && PackByteArray(d.unpacked.bytes) == LowerCase(d.packed.s)
    && (d.unpacked.bytes != [] ==> UnpackByteArray(d.packed) == Success(d.unpacked.bytes))
  }

  lemma HexDualAgrees(v: Value)
    requires HexDual(v).Success?
    ensures HexAgree(HexDual(v).value)
  {
    var d := HexDual(v).value;
    if v.Bytes? {
      LowerCaseOfLowerHex(d.packed.s);
      if v.bytes != [] {
        PackThenUnpack(v.bytes);
      }
    } else {
      UnpackThenPack(v.s);
    }
  }

  /**
   * `isPacked` sorts the two renderings apart: the packed side is packed,
   * the unpacked side is not, and the value given is the rendering on the
   * side `isPacked` puts it. Rendering the unpacked side again gives the
   * same bytes and the packed text in lower case.
   */
  lemma IsPackedSides(v: Value)
    requires HexDual(v).Success?
    ensures var d := HexDual(v).value;
      && IsPacked(d.packed) && !IsPacked(d.unpacked)
      && (IsPacked(v) <==> v == d.packed)
      && HexDual(d.unpacked) == Success(Dual(Str(LowerCase(d.packed.s)), d.unpacked))
  {
    HexDualAgrees(v);
  }

  /** The single-field rule with the character-code codec (`clientDataJSON`). */
  function TextDual(v: Value): (r: Result<Dual, Error>)
    ensures r.Success? && v.Bytes? ==> r.value.unpacked == v
    ensures r.Success? && !v.Bytes? ==> r.value.packed == v
    ensures r.Failure? <==> !v.Bytes? && !v.Str?
    ensures r.Failure? ==> r.error == NotAString
    ensures r.Success? ==> r.value.packed.Str? && r.value.unpacked.Bytes?
  {
    if IsPacked(v) then
      var bytes :- UnpackString(v);
      Success(Dual(v, Bytes(bytes)))
    else
      Success(Dual(Str(PackString(v.bytes)), v))
  }

  /**
   * The two sides of a text field describe one byte string: the text
   * unpacks to the bytes, and the bytes pack to the text whenever every
   * character of the text has a code below 256.
   */
  predicate TextAgree(d: Dual) {
    && d.packed.Str? && d.unpacked.Bytes?
    && UnpackString(d.packed) == Success(d.unpacked.bytes)
    && (IsByteText(d.packed.s) ==> d.packed.s == PackString(d.unpacked.bytes))
  }

  lemma TextDualAgrees(v: Value)
    requires TextDual(v).Success?
    ensures TextAgree(TextDual(v).value)
  {
    if v.Bytes? {
      TextRoundTrip(v.bytes);
    } else {
      TextRoundTripBack(v.s);
    }
  }

  /**
   * The rule for an object with a binary `id`: both sides get a clone, and
   * when the object and its `id` are truthy the `id` of the clones is
   * replaced by the hex rule's two renderings of it.
   */
  function WithIdDual(v: Value): (r: Result<Dual, Error>)
    ensures r.Success? ==> r.value.packed.Obj? && r.value.unpacked.Obj?
    ensures r.Failure? <==> Truthy(v) && Truthy(Prop(v, "id")) && HexDual(Prop(v, "id")).Failure?
  {
    if Truthy(v) && Truthy(Prop(v, "id")) then
      var id :- HexDual(Prop(v, "id"));
      Success(Dual(SetProp(Clone(v), "id", id.packed), SetProp(Clone(v), "id", id.unpacked)))
    else
      Success(Dual(Clone(v), Clone(v)))
  }

  /**
   * What the id rule leaves: two objects with the keys of the clone, equal
   * to it off `id`; at `id`, the hex renderings of the input's `id` when it
   * is converted, and otherwise the clone itself on both sides (so a falsy
   * `id` such as `''` is copied unconverted).
   */
  lemma WithIdDualShape(v: Value)
    requires WithIdDual(v).Success?
    ensures var d := WithIdDual(v).value;
      && d.packed.fields.Keys == Clone(v).fields.Keys
      && d.unpacked.fields.Keys == Clone(v).fields.Keys
      && (forall k :: k in Clone(v).fields && k != "id" ==>
            d.packed.fields[k] == Clone(v).fields[k] && d.unpacked.fields[k] == Clone(v).fields[k])
      && (if Truthy(v) && Truthy(Prop(v, "id"))
          then HexDual(Prop(v, "id")) == Success(Dual(d.packed.fields["id"], d.unpacked.fields["id"]))
          else d.packed == Clone(v) && d.unpacked == Clone(v))
  {
    if Truthy(v) && Truthy(Prop(v, "id")) {
      assert "id" in Clone(v).fields;
    }
  }

  /**
   * One element of `excludeCredentials`/`allowCredentials`: reading `id`
   * on `null` or `undefined` throws; otherwise the id rule.
   */
  function CredentialDual(ex: Value): Result<Dual, Error> {
    if Nullish(ex) then Failure(NullCredential) else WithIdDual(ex)
  }

  /**
   * What one element becomes: it throws exactly when it is `null` or
   * `undefined`, or has a truthy `id` that does not unpack. Otherwise both
   * sides have the keys and the non-`id` fields of its clone; a truthy
   * `id` becomes two agreeing hex renderings, and with a falsy one both
   * sides are the clone.
   */
  lemma CredentialDualShape(ex: Value)
    ensures CredentialDual(ex).Failure? <==>
      Nullish(ex) || (Truthy(Prop(ex, "id")) && HexDual(Prop(ex, "id")).Failure?)
    ensures CredentialDual(ex).Success? ==> var d := CredentialDual(ex).value;
      && !Nullish(ex)
      && d.packed.Obj? && d.unpacked.Obj?
      && d.packed.fields.Keys == Clone(ex).fields.Keys
      && d.unpacked.fields.Keys == Clone(ex).fields.Keys
      && (forall k :: k in Clone(ex).fields && k != "id" ==>
            d.packed.fields[k] == Clone(ex).fields[k] && d.unpacked.fields[k] == Clone(ex).fields[k])
      && (if Truthy(Prop(ex, "id"))
          then && "id" in d.packed.fields && "id" in d.unpacked.fields
               && HexDual(Prop(ex, "id")) == Success(Dual(d.packed.fields["id"], d.unpacked.fields["id"]))
               && HexAgree(Dual(d.packed.fields["id"], d.unpacked.fields["id"]))
          else d == Dual(Clone(ex), Clone(ex)))
  {
    if !Nullish(ex) && WithIdDual(ex).Success? {
      WithIdDualShape(ex);
      if Truthy(Prop(ex, "id")) {
        HexDualAgrees(Prop(ex, "id"));
      }
    }
  }

  /** The two converted lists. */
  datatype DualList = DualList(packed: seq<Value>, unpacked: seq<Value>)

  /**
   * A credential list, element by element in order: both output lists
   * have the input's length, element `i` of each is the rendering of input
   * element `i`, and the first element that throws decides the error.
   */
  function CredentialListDual(list: seq<Value>): (r: Result<DualList, Error>)
    ensures r.Success? <==> forall i :: 0 <= i < |list| ==> CredentialDual(list[i]).Success?
    ensures r.Success? ==> |r.value.packed| == |list| && |r.value.unpacked| == |list|
    ensures r.Success? ==> forall i :: 0 <= i < |list| ==>
      CredentialDual(list[i]) == Success(Dual(r.value.packed[i], r.value.unpacked[i]))
    decreases |list|
  {
    if list == [] then Success(DualList([], []))
    else
      var init :- CredentialListDual(list[..|list| - 1]);
      var last :- CredentialDual(list[|list| - 1]);
      Success(DualList(init.packed + [last.packed], init.unpacked + [last.unpacked]))
  }

  /** An error in a prefix of the list is the error of the whole list. */
  lemma {:induction false} CredentialListPrefixFails(list: seq<Value>, n: nat)
    requires n <= |list|
    requires CredentialListDual(list[..n]).Failure?
    ensures CredentialListDual(list) == CredentialListDual(list[..n])
    decreases |list| - n
  {
    if n < |list| {
      assert list[..n + 1][..n] == list[..n];
      CredentialListPrefixFails(list, n + 1);
    } else {
      assert list[..n] == list;
    }
  }

  /**
   * The converted lists, element by element: two plain objects with the
   * properties of the element's clone, equal to the clone off `id`; a
   * falsy `id` leaves both equal to the clone, a truthy one is rendered
   * by the hex rule, its two sides describing one byte string.
   */
  lemma CredentialListShape(list: seq<Value>)
    requires CredentialListDual(list).Success?
    ensures var r := CredentialListDual(list).value;
      forall i :: 0 <= i < |list| ==>
        && r.packed[i].Obj? && r.unpacked[i].Obj?
        && r.packed[i].fields.Keys == Clone(list[i]).fields.Keys
        && r.unpacked[i].fields.Keys == Clone(list[i]).fields.Keys
        && (forall k :: k in Clone(list[i]).fields && k != "id" ==>
              r.packed[i].fields[k] == Clone(list[i]).fields[k] && r.unpacked[i].fields[k] == Clone(list[i]).fields[k])
        && (if Truthy(Prop(list[i], "id"))
            then HexDual(Prop(list[i], "id")) == Success(Dual(r.packed[i].fields["id"], r.unpacked[i].fields["id"]))
              && HexAgree(Dual(r.packed[i].fields["id"], r.unpacked[i].fields["id"]))
            else r.packed[i] == Clone(list[i]) && r.unpacked[i] == Clone(list[i]))
  {
    var r := CredentialListDual(list).value;
    forall i | 0 <= i < |list|
      ensures && r.packed[i].Obj? && r.unpacked[i].Obj?
        && r.packed[i].fields.Keys == Clone(list[i]).fields.Keys
        && r.unpacked[i].fields.Keys == Clone(list[i]).fields.Keys
        && (forall k :: k in Clone(list[i]).fields && k != "id" ==>
              r.packed[i].fields[k] == Clone(list[i]).fields[k] && r.unpacked[i].fields[k] == Clone(list[i]).fields[k])
        && (if Truthy(Prop(list[i], "id"))
            then HexDual(Prop(list[i], "id")) == Success(Dual(r.packed[i].fields["id"], r.unpacked[i].fields["id"]))
              && HexAgree(Dual(r.packed[i].fields["id"], r.unpacked[i].fields["id"]))
            else r.packed[i] == Clone(list[i]) && r.unpacked[i] == Clone(list[i]))
    {
      assert CredentialDual(list[i]).Success?;
      WithIdDualShape(list[i]);
      if Truthy(Prop(list[i], "id")) {
        HexDualAgrees(Prop(list[i], "id"));
      }
    }
  }

  /**
   * The credential list of the test suite: an `id` in hex, an `id` in
   * bytes and no `id`; each `id` appears in both forms, `name` is kept and
   * the third element comes out as it went in.
   */
  lemma CredentialListExample()
    ensures CredentialListDual([
        Obj(map["id" := Str("decafbad"), "name" := Str("decaf-bad")]),
        Obj(map["id" := Bytes([171, 173, 29, 234]), "name" := Str("a-bad-idea")]),
        Obj(map["name" := Str("no-id")])])
      == Success(DualList(
        [ Obj(map["id" := Str("decafbad"), "name" := Str("decaf-bad")]),
          Obj(map["id" := Str("abad1dea"), "name" := Str("a-bad-idea")]),
          Obj(map["name" := Str("no-id")])],
        [ Obj(map["id" := Bytes([222, 202, 251, 173]), "name" := Str("decaf-bad")]),
          Obj(map["id" := Bytes([171, 173, 29, 234]), "name" := Str("a-bad-idea")]),
          Obj(map["name" := Str("no-id")])]))
  {
    var list := [
      Obj(map["id" := Str("decafbad"), "name" := Str("decaf-bad")]),
      Obj(map["id" := Bytes([171, 173, 29, 234]), "name" := Str("a-bad-idea")]),
      Obj(map["name" := Str("no-id")])];
    var packed := [
      Obj(map["id" := Str("decafbad"), "name" := Str("decaf-bad")]),
      Obj(map["id" := Str("abad1dea"), "name" := Str("a-bad-idea")]),
      Obj(map["name" := Str("no-id")])];
    var unpacked := [
      Obj(map["id" := Bytes([222, 202, 251, 173]), "name" := Str("decaf-bad")]),
      Obj(map["id" := Bytes([171, 173, 29, 234]), "name" := Str("a-bad-idea")]),
      Obj(map["name" := Str("no-id")])];
    forall i | 0 <= i < 3
      ensures CredentialDual(list[i]) == Success(Dual(packed[i], unpacked[i]))
    {
      if i == 0 { HexIdExample(); } else if i == 1 { BytesIdExample(); }
    }
    CredentialListIs(list, packed, unpacked);
  }

  /** Conversely, lists whose elements are the renderings of the input's elements are its rendering. */
  lemma CredentialListIs(list: seq<Value>, packed: seq<Value>, unpacked: seq<Value>)
    requires |packed| == |list| && |unpacked| == |list|
    requires forall i :: 0 <= i < |list| ==> CredentialDual(list[i]) == Success(Dual(packed[i], unpacked[i]))
    ensures CredentialListDual(list) == Success(DualList(packed, unpacked))
  {
    var r := CredentialListDual(list).value;
    assert r.packed == packed;
    assert r.unpacked == unpacked;
  }

  lemma HexIdExample()
    ensures CredentialDual(Obj(map["id" := Str("decafbad"), "name" := Str("decaf-bad")]))
      == Success(Dual(Obj(map["id" := Str("decafbad"), "name" := Str("decaf-bad")]),
                      Obj(map["id" := Bytes([222, 202, 251, 173]), "name" := Str("decaf-bad")])))
  {
    var m := map["id" := Str("decafbad"), "name" := Str("decaf-bad")];
    DecafBad();
    assert HexDual(Str("decafbad")) == Success(Dual(Str("decafbad"), Bytes([222, 202, 251, 173])));
    assert Prop(Obj(m), "id") == Str("decafbad");
    assert m["id" := Str("decafbad")] == m;
    assert m["id" := Bytes([222, 202, 251, 173])] == map["id" := Bytes([222, 202, 251, 173]), "name" := Str("decaf-bad")];
  }

  lemma BytesIdExample()
    ensures CredentialDual(Obj(map["id" := Bytes([171, 173, 29, 234]), "name" := Str("a-bad-idea")]))
      == Success(Dual(Obj(map["id" := Str("abad1dea"), "name" := Str("a-bad-idea")]),
                      Obj(map["id" := Bytes([171, 173, 29, 234]), "name" := Str("a-bad-idea")])))
  {
    var m := map["id" := Bytes([171, 173, 29, 234]), "name" := Str("a-bad-idea")];
    ABadIdea();
    assert HexDual(Bytes([171, 173, 29, 234])) == Success(Dual(Str("abad1dea"), Bytes([171, 173, 29, 234])));
    assert Prop(Obj(m), "id") == Bytes([171, 173, 29, 234]);
    assert m["id" := Bytes([171, 173, 29, 234])] == m;
    assert m["id" := Str("abad1dea")] == map["id" := Str("abad1dea"), "name" := Str("a-bad-idea")];
  }

  /** The rendering of one more element extends the rendered prefix. */
  lemma CredentialListStep(list: seq<Value>, i: nat, packed: seq<Value>, unpacked: seq<Value>, p: Value, u: Value)
    requires i < |list|
    requires CredentialListDual(list[..i]) == Success(DualList(packed, unpacked))
    requires CredentialDual(list[i]) == Success(Dual(p, u))
    ensures CredentialListDual(list[..i + 1]) == Success(DualList(packed + [p], unpacked + [u]))
  {
    assert list[..i + 1][..i] == list[..i];
  }

  /** An element that throws makes the whole list throw its error. */
  lemma CredentialListStepFails(list: seq<Value>, i: nat)
    requires i < |list|
    requires CredentialListDual(list[..i]).Success?
    requires CredentialDual(list[i]).Failure?
    ensures CredentialListDual(list) == Failure(CredentialDual(list[i]).error)
  {
    assert list[..i + 1][..i] == list[..i];
    CredentialListPrefixFails(list, i + 1);
  }

  /**
   * The `forEach` loop of objects.js:66-79 and 158-171: each element is
   * cloned twice, the `id` of the clones converted when it is truthy, and
   * the two clones pushed onto the two output lists.
   */
  method EncodeCredentials(list: seq<Value>) returns (r: Result<DualList, Error>)
    ensures r == CredentialListDual(list)
  {
    var packed: seq<Value>, unpacked: seq<Value> := [], [];
    var i := 0;
    while i < |list|
      invariant 0 <= i <= |list|
      invariant CredentialListDual(list[..i]) == Success(DualList(packed, unpacked))
    {
      var ex := list[i];
      if Nullish(ex) {
        CredentialListStepFails(list, i);
        return Failure(NullCredential);
      }
      var p, u := Clone(ex), Clone(ex);
      var id := Prop(ex, "id");
      if Truthy(id) {
        if IsPacked(id) {
          var bytes := UnpackByteArray(id);
          if bytes.Failure? {
            CredentialListStepFails(list, i);
            return Failure(bytes.error);
          }
          u := SetProp(u, "id", Bytes(bytes.value));
        } else {
          p := SetProp(p, "id", Str(PackByteArray(id.bytes)));
        }
        assert ex.fields["id" := id] == ex.fields;
      }
      assert CredentialDual(ex) == Success(Dual(p, u));
      CredentialListStep(list, i, packed, unpacked, p, u);
      packed, unpacked := packed + [p], unpacked + [u];
      i := i + 1;
    }
    assert list[..|list|] == list;
    return Success(DualList(packed, unpacked));
  }

  /** `forEach` over an array, or over the numbers of a typed array. */
  function Elements(v: Value): Result<seq<Value>, Error> {
    match v
    case Arr(es) => Success(es)
    case Bytes(b) => Success(seq(|b|, i requires 0 <= i < |b| => Num(b[i])))
    case _ => Failure(NotIterable)
  }

  /** The two maps have the same keys and agree off `name`. */
  ghost predicate SameOff(m: map<string, Value>, m': map<string, Value>, name: string) {
    m'.Keys == m.Keys && forall n :: n in m && n != name ==> m'[n] == m[n]
  }

  /** How a ceremony treats one of its field names. */
  datatype Rule =
    | Cloned          // copied into both views as a shallow clone
    | Shared          // copied into both views as is
    | ClonedWithId    // cloned, then its `id` dual-encoded (`user`)
    | HexBinary       // dual-encoded with the hex codec
    | TextBinary      // dual-encoded with the character-code codec
    | CredentialList  // a list whose elements' `id`s are dual-encoded

  /** The two renderings of a present field under its rule. */
  function EncodeField(rule: Rule, v: Value): (r: Result<Dual, Error>)
    ensures rule.Cloned? ==> r == Success(Dual(Clone(v), Clone(v)))
    ensures rule.Shared? ==> r == Success(Dual(v, v))
    ensures rule.ClonedWithId? ==> r == WithIdDual(v)
    ensures rule.HexBinary? ==> r == HexDual(v)
    ensures rule.TextBinary? ==> r == TextDual(v)
  {
    match rule
    case Cloned => Success(Dual(Clone(v), Clone(v)))
    case Shared => Success(Dual(v, v))
    case ClonedWithId => WithIdDual(v)
    case HexBinary => HexDual(v)
    case TextBinary => TextDual(v)
    case CredentialList =>
      var list :- Elements(v);
      var duals :- CredentialListDual(list);
      Success(Dual(Arr(duals.packed), Arr(duals.unpacked)))
  }

  /**
   * What each rule promises of the two renderings: a copy (cloned or not)
   * never throws and puts the same value on both sides; only the
   * converting rules throw; a converted binary field keeps the value given
   * on its own side and its two sides agree under its codec; a converted
   * list is a list on each side, one element per iterated element.
   */
  lemma EncodeFieldAgrees(rule: Rule, v: Value)
    ensures EncodeField(rule, v).Failure? ==>
      rule.ClonedWithId? || rule.HexBinary? || rule.TextBinary? || rule.CredentialList?
    ensures rule.Cloned? || rule.Shared? ==>
      EncodeField(rule, v).Success? && EncodeField(rule, v).value.packed == EncodeField(rule, v).value.unpacked
    ensures rule.Shared? ==> EncodeField(rule, v).value.packed == v
    ensures rule.Cloned? ==> EncodeField(rule, v).value.packed.Obj?
    ensures (rule.HexBinary? || rule.TextBinary?) && EncodeField(rule, v).Success? ==>
      var d := EncodeField(rule, v).value;
      && (if IsPacked(v) then d.packed == v else d.unpacked == v)
      && (rule.HexBinary? ==> HexAgree(d))
      && (rule.TextBinary? ==> TextAgree(d))
    ensures rule.CredentialList? && EncodeField(rule, v).Success? ==>
      var d := EncodeField(rule, v).value;
      && Elements(v).Success?
      && d.packed.Arr? && d.unpacked.Arr?
      && |d.packed.elems| == |d.unpacked.elems| == |Elements(v).value|
  {
    match rule
    case HexBinary =>
      if HexDual(v).Success? {
        HexDualAgrees(v);
      }
    case TextBinary =>
      if TextDual(v).Success? {
        TextDualAgrees(v);
      }
    case _ =>
  }

  datatype Entry = Entry(name: string, rule: Rule)

  function NameSet(table: seq<Entry>): set<string> {
    set e | e in table :: e.name
  }

  /** A table never lists one name twice. */
  predicate Consistent(table: seq<Entry>) {
    forall i, j :: 0 <= i < j < |table| ==> table[i].name != table[j].name
  }

  /**
   * The views a table produces from the fields of an input: each present
   * field of the table is rendered by its rule; the first entry, in table
   * order, whose rule throws decides the error.
   */
  function EncodeObject(table: seq<Entry>, fields: map<string, Value>): (r: Result<Views, Error>)
    ensures r.Success? ==> r.value.packed.Keys == r.value.unpacked.Keys
    ensures r.Success? ==> r.value.packed.Keys <= fields.Keys
    decreases |table|
  {
    if table == [] then Success(NoViews)
    else
      var e := table[0];
      if e.name in fields then
        var d :- EncodeField(e.rule, fields[e.name]);
        var rest :- EncodeObject(table[1..], fields);
        Success(Views(rest.packed[e.name := d.packed], rest.unpacked[e.name := d.unpacked]))
      else
        EncodeObject(table[1..], fields)
  }

  /** An input with no fields gives two empty views, whatever the table. */
  lemma {:induction false} EncodeObjectOfNothing(table: seq<Entry>)
    ensures EncodeObject(table, map[]) == Success(NoViews)
    decreases |table|
  {
    if table != [] {
      EncodeObjectOfNothing(table[1..]);
    }
  }

  /** The views are produced exactly when no present field's rule throws. */
  lemma {:induction false} EncodeObjectSucceeds(table: seq<Entry>, fields: map<string, Value>)
    ensures EncodeObject(table, fields).Success? <==>
      forall e :: e in table && e.name in fields ==> EncodeField(e.rule, fields[e.name]).Success?
    decreases |table|
  {
    if table != [] {
      EncodeObjectSucceeds(table[1..], fields);
      assert forall e :: e in table <==> e == table[0] || e in table[1..];
    }
  }

  /** Both views hold exactly the table's names that the input has. */
  lemma {:induction false} EncodeObjectKeys(table: seq<Entry>, fields: map<string, Value>)
    requires EncodeObject(table, fields).Success?
    ensures EncodeObject(table, fields).value.packed.Keys == fields.Keys * NameSet(table)
    ensures EncodeObject(table, fields).value.unpacked.Keys == fields.Keys * NameSet(table)
    decreases |table|
  {
    if table != [] {
      EncodeObjectKeys(table[1..], fields);
      assert NameSet(table) == {table[0].name} + NameSet(table[1..]);
    }
  }

  /** Each present field of the table holds its rule's renderings. */
  lemma {:induction false} EncodeObjectValues(table: seq<Entry>, fields: map<string, Value>)
    requires Consistent(table)
    requires EncodeObject(table, fields).Success?
    ensures var r := EncodeObject(table, fields).value;
      forall e :: e in table && e.name in fields ==>
        e.name in r.packed && e.name in r.unpacked
        && EncodeField(e.rule, fields[e.name]) == Success(Dual(r.packed[e.name], r.unpacked[e.name]))
    decreases |table|
  {
    if table != [] {
      assert forall e :: e in table <==> e == table[0] || e in table[1..];
      EncodeObjectValues(table[1..], fields);
    }
  }

  /**
   * When every present entry before `e` converts and `e` throws, the
   * whole table throws `e`'s error.
   */
  lemma {:induction false} EncodeObjectFailsAt(pre: seq<Entry>, e: Entry, post: seq<Entry>, fields: map<string, Value>)
    requires forall x :: x in pre && x.name in fields ==> EncodeField(x.rule, fields[x.name]).Success?
    requires e.name in fields && EncodeField(e.rule, fields[e.name]).Failure?
    ensures EncodeObject(pre + [e] + post, fields) == Failure(EncodeField(e.rule, fields[e.name]).error)
    decreases |pre|
  {
    var table := pre + [e] + post;
    if pre == [] {
      assert table[0] == e && table[1..] == post;
    } else {
      assert table[0] == pre[0] && table[1..] == pre[1..] + [e] + post;
      EncodeObjectFailsAt(pre[1..], e, post, fields);
    }
  }

  /**
   * The same by position: when every present entry before index `i`
   * converts and entry `i` throws, the whole table throws its error.
   */
  lemma {:induction false} EncodeObjectFailsAtIndex(table: seq<Entry>, i: nat, fields: map<string, Value>)
    requires i < |table|
    requires forall j :: 0 <= j < i && table[j].name in fields ==> EncodeField(table[j].rule, fields[table[j].name]).Success?
    requires table[i].name in fields && EncodeField(table[i].rule, fields[table[i].name]).Failure?
    ensures EncodeObject(table, fields) == Failure(EncodeField(table[i].rule, fields[table[i].name]).error)
    decreases i
  {
    if i > 0 {
      var rest := table[1..];
      forall j | 0 <= j < i - 1 && rest[j].name in fields
        ensures EncodeField(rest[j].rule, fields[rest[j].name]).Success?
      {
        assert rest[j] == table[j + 1];
      }
      assert rest[i - 1] == table[i];
      EncodeObjectFailsAtIndex(rest, i - 1, fields);
    }
  }

  /** An entry of a consistent table does not share its name with the entries before it. */
  lemma ConsistentPrefix(table: seq<Entry>, i: nat)
    requires Consistent(table) && i < |table|
    ensures table[i].name !in NameSet(table[..i])
  {
  }

  /**
   * Rendering one more entry, with a name not in the table yet, after the
   * table: the effect of one more round of a loop over the entries.
   */
  lemma {:induction false} EncodeObjectSnoc(table: seq<Entry>, e: Entry, fields: map<string, Value>)
    requires e.name !in NameSet(table)
    ensures e.name !in fields ==> EncodeObject(table + [e], fields) == EncodeObject(table, fields)
    ensures e.name in fields && EncodeObject(table, fields).Failure? ==>
      EncodeObject(table + [e], fields) == EncodeObject(table, fields)
    ensures e.name in fields && EncodeObject(table, fields).Success? && EncodeField(e.rule, fields[e.name]).Failure? ==>
      EncodeObject(table + [e], fields) == Failure(EncodeField(e.rule, fields[e.name]).error)
    ensures e.name in fields && EncodeObject(table, fields).Success? && EncodeField(e.rule, fields[e.name]).Success? ==>
      var v, d := EncodeObject(table, fields).value, EncodeField(e.rule, fields[e.name]).value;
      EncodeObject(table + [e], fields) == Success(Views(v.packed[e.name := d.packed], v.unpacked[e.name := d.unpacked]))
    decreases |table|
  {
    if table == [] {
      assert [e][1..] == [];
    } else {
      var t := table[0];
      assert (table + [e])[0] == t && (table + [e])[1..] == table[1..] + [e];
      assert NameSet(table) == {t.name} + NameSet(table[1..]);
      EncodeObjectSnoc(table[1..], e, fields);
      if && t.name in fields && EncodeField(t.rule, fields[t.name]).Success?
         && e.name in fields && EncodeField(e.rule, fields[e.name]).Success?
         && EncodeObject(table[1..], fields).Success?
      {
        var rest, d0, d := EncodeObject(table[1..], fields).value,
          EncodeField(t.rule, fields[t.name]).value, EncodeField(e.rule, fields[e.name]).value;
        assert rest.packed[e.name := d.packed][t.name := d0.packed]
            == rest.packed[t.name := d0.packed][e.name := d.packed];
        assert rest.unpacked[e.name := d.unpacked][t.name := d0.unpacked]
            == rest.unpacked[t.name := d0.unpacked][e.name := d.unpacked];
      }
    }
  }

  /** A present field holds its rule's renderings in both views. */
  predicate Rendered(e: Entry, fields: map<string, Value>, views: Views) {
    e.name in fields ==>
      && e.name in views.packed && e.name in views.unpacked
      && EncodeField(e.rule, fields[e.name]) == Success(Dual(views.packed[e.name], views.unpacked[e.name]))
  }

  /**
   * Conversely, views that have exactly the present names of the table,
   * each holding its rule's renderings, are the views the table produces.
   */
  lemma EncodeObjectIs(table: seq<Entry>, fields: map<string, Value>, views: Views)
    requires Consistent(table)
    requires views.packed.Keys == fields.Keys * NameSet(table)
    requires views.unpacked.Keys == fields.Keys * NameSet(table)
    requires forall e :: e in table ==> Rendered(e, fields, views)
    ensures EncodeObject(table, fields) == Success(views)
  {
    EncodeObjectSucceeds(table, fields);
    EncodeObjectKeys(table, fields);
    EncodeObjectValues(table, fields);
    var r := EncodeObject(table, fields).value;
    forall k | k in r.packed
      ensures r.packed[k] == views.packed[k] && r.unpacked[k] == views.unpacked[k]
    {
      var e :| e in table && e.name == k;
    }
    assert r.packed == views.packed;
    assert r.unpacked == views.unpacked;
  }

  /** The same, with the entries rendered given by position. */
  lemma EncodeObjectIsAt(table: seq<Entry>, fields: map<string, Value>, views: Views)
    requires Consistent(table)
    requires views.packed.Keys == fields.Keys * NameSet(table)
    requires views.unpacked.Keys == fields.Keys * NameSet(table)
    requires forall i :: 0 <= i < |table| ==> Rendered(table[i], fields, views)
    ensures EncodeObject(table, fields) == Success(views)
  {
    forall e | e in table
      ensures Rendered(e, fields, views)
    {
      var i :| 0 <= i < |table| && table[i] == e;
    }
    EncodeObjectIs(table, fields, views);
  }

  /**
   * A ceremony constructor: no input (or a falsy one) leaves both views
   * empty; otherwise the table is applied to the input's fields.
   */
  function Convert(table: seq<Entry>, input: Value): (r: Result<Views, Error>)
    ensures !Truthy(input) ==> r == Success(NoViews)
    ensures r.Success? ==> r.value.packed.Keys == r.value.unpacked.Keys
    ensures r.Success? ==> r.value.packed.Keys <= Own(input).Keys
  {
    if !Truthy(input) then Success(NoViews)
    else
      var fields :- FieldsOf(input);
      EncodeObject(table, fields)
  }

  /**
   * The own properties of an input are what the `in` tests see: the fields
   * a truthy input offers, when it offers any; a falsy input, or one on
   * which `in` throws, has none.
   */
  function Own(input: Value): (f: map<string, Value>)
    ensures Truthy(input) && FieldsOf(input).Success? ==> FieldsOf(input) == Success(f)
    ensures !Truthy(input) || FieldsOf(input).Failure? ==> f == map[]
  {
    if input.Obj? then input.fields else map[]
  }

  /**
   * A constructor throws exactly when its input is a truthy primitive or
   * one of the input's fields that the table names does not convert.
   */
  lemma ConvertSucceeds(table: seq<Entry>, input: Value)
    ensures Convert(table, input).Success? <==>
      || !Truthy(input)
      || (&& !input.Bool? && !input.Num? && !input.Str?
          && forall e :: e in table && e.name in Own(input) ==> EncodeField(e.rule, Own(input)[e.name]).Success?)
  {
    if Truthy(input) && !input.Bool? && !input.Num? && !input.Str? {
      assert FieldsOf(input) == Success(Own(input));
      EncodeObjectSucceeds(table, Own(input));
    }
  }

  /**
   * The same by position: a constructor throws exactly when its input is a
   * truthy primitive or the field of some entry of the table does not convert.
   */
  lemma ConvertFails(table: seq<Entry>, input: Value)
    ensures Convert(table, input).Failure? <==>
      && Truthy(input)
      && (|| input.Bool? || input.Num? || input.Str?
          || exists i :: 0 <= i < |table| && table[i].name in Own(input)
               && EncodeField(table[i].rule, Own(input)[table[i].name]).Failure?)
  {
    ConvertSucceeds(table, input);
    var f := Own(input);
    if exists e :: e in table && e.name in f && EncodeField(e.rule, f[e.name]).Failure? {
      var e :| e in table && e.name in f && EncodeField(e.rule, f[e.name]).Failure?;
      var i :| 0 <= i < |table| && table[i] == e;
      assert table[i].name in f && EncodeField(table[i].rule, f[table[i].name]).Failure?;
    }
    if exists i :: 0 <= i < |table| && table[i].name in f && EncodeField(table[i].rule, f[table[i].name]).Failure? {
      var i :| 0 <= i < |table| && table[i].name in f && EncodeField(table[i].rule, f[table[i].name]).Failure?;
      assert table[i] in table;
    }
  }

  /**
   * What a constructor that completes leaves: both views hold exactly the
   * table's names that the input has, each rendered by its rule.
   */
  lemma ConvertShape(table: seq<Entry>, input: Value)
    requires Consistent(table)
    requires Convert(table, input).Success?
    ensures Convert(table, input).value.packed.Keys == Own(input).Keys * NameSet(table)
    ensures Convert(table, input).value.unpacked.Keys == Own(input).Keys * NameSet(table)
    ensures forall e :: e in table ==> Rendered(e, Own(input), Convert(table, input).value)
  {
    if Truthy(input) {
      assert FieldsOf(input) == Success(Own(input));
      EncodeObjectKeys(table, Own(input));
      EncodeObjectValues(table, Own(input));
    }
  }

  /** After a construction, entry `i` of the table is rendered in both views. */
  lemma ConvertRenders(table: seq<Entry>, input: Value, i: nat)
    requires Consistent(table)
    requires Convert(table, input).Success?
    requires i < |table|
    ensures Rendered(table[i], Own(input), Convert(table, input).value)
  {
    ConvertShape(table, input);
    assert table[i] in table;
  }

  /** The plain copies of `names` that `source` has, cloned or as they are. */
  function Projection(source: map<string, Value>, names: seq<string>, cloned: bool): map<string, Value> {
    map f | f in source && f in names :: if cloned then Clone(source[f]) else source[f]
  }

  /** A projection holds the listed names the source has, with the source's values or their clones. */
  lemma ProjectionAt(source: map<string, Value>, names: seq<string>, cloned: bool)
    ensures Projection(source, names, cloned).Keys == source.Keys * (set f | f in names)
    ensures forall f :: f in source && f in names ==>
      Projection(source, names, cloned)[f] == if cloned then Clone(source[f]) else source[f]
  {
  }

  lemma ProjectionExtend(source: map<string, Value>, names: seq<string>, f: string, cloned: bool)
    ensures f in source ==>
      Projection(source, names + [f], cloned)
        == Projection(source, names, cloned)[f := if cloned then Clone(source[f]) else source[f]]
    ensures f !in source ==> Projection(source, names + [f], cloned) == Projection(source, names, cloned)
  {
    var l, r := Projection(source, names + [f], cloned), Projection(source, names, cloned);
    assert forall k :: k in names + [f] <==> k in names || k == f;
    if f in source {
      var r' := r[f := if cloned then Clone(source[f]) else source[f]];
      assert l.Keys == r'.Keys;
      assert forall k :: k in l ==> l[k] == r'[k];
    } else {
      assert l.Keys == r.Keys;
    }
  }

  /** One more name in the list adds at most that name to a projection laid over `base`. */
  lemma ProjectionOver(base: map<string, Value>, source: map<string, Value>, names: seq<string>, i: nat, cloned: bool)
    requires i < |names|
    ensures var f := names[i];
      base + Projection(source, names[..i + 1], cloned)
        == if f in source
           then (base + Projection(source, names[..i], cloned))[f := if cloned then Clone(source[f]) else source[f]]
           else base + Projection(source, names[..i], cloned)
  {
    assert names[..i + 1] == names[..i] + [names[i]];
    ProjectionExtend(source, names[..i], names[i], cloned);
  }

  /** Laying a map over no properties gives the map. */
  lemma NoneBefore(m: map<string, Value>)
    ensures map[] + m == m
  {
  }

  /**
   * The field projection of objects.js:27-41 and 128-142: each listed name
   * the source has is set, with the same value, in both views.
   */
  method CopyFields(source: map<string, Value>, names: seq<string>, cloned: bool,
                    packed: map<string, Value>, unpacked: map<string, Value>)
    returns (packed': map<string, Value>, unpacked': map<string, Value>)
    ensures packed' == packed + Projection(source, names, cloned)
    ensures unpacked' == unpacked + Projection(source, names, cloned)
  {
    packed', unpacked' := packed, unpacked;
    assert Projection(source, names[..0], cloned) == map[];
    for i := 0 to |names|
      invariant packed' == packed + Projection(source, names[..i], cloned)
      invariant unpacked' == unpacked + Projection(source, names[..i], cloned)
    {
      var f := names[i];
      ProjectionOver(packed, source, names, i, cloned);
      ProjectionOver(unpacked, source, names, i, cloned);
      if f in source {
        var v := if cloned then Clone(source[f]) else source[f];
        packed' := packed'[f := v];
        unpacked' := unpacked'[f := v];
      }
    }
    assert names[..|names|] == names;
  }
}
