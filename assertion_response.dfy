/**
 * `AuthenticatorAssertionResponse` (objects.js:176-199), the response of
 * an authenticator to `navigator.credentials.get()` (section 5.2.2 of W3C
 * Web Authentication Level 2). Its three fields are binary, one after the
 * other, with the hex codec.
 */
module AssertionResponse {
  import opened Wrappers
  import opened JsValues
  import opened Codecs
  import opened DualEncoder

  /** The fields of objects.js:185, in the order the loop visits them. */
  const Table: seq<Entry> := [
    Entry("authenticatorData", HexBinary),
    Entry("signature", HexBinary),
    Entry("userHandle", HexBinary)
  ]

  const Names: set<string> := {"authenticatorData", "signature", "userHandle"}

  lemma TableFacts()
    ensures Consistent(Table)
    ensures NameSet(Table) == Names
  {
  }

  /** The views a `new AuthenticatorAssertionResponse(input)` holds, or the error it throws. */
  function AssertionResponseOf(input: Value): (r: Result<Views, Error>)
    ensures !Truthy(input) ==> r == Success(NoViews)
    ensures r.Success? ==> r.value.packed.Keys == r.value.unpacked.Keys
    ensures r.Success? ==> r.value.packed.Keys <= Own(input).Keys
  {
    Convert(Table, input)
  }

  /** After a construction, entry `i` of the table is rendered in both views. */
  lemma Renders(input: Value, i: nat)
    requires Convert(Table, input).Success? && i < |Table|
    ensures Rendered(Table[i], Own(input), Convert(Table, input).value)
  {
    TableFacts();
    ConvertRenders(Table, input, i);
  }

  /** An empty object, `null` or no input at all leaves both views empty. */
  lemma AssertionResponseOfNothing()
    ensures AssertionResponseOf(Obj(map[])) == Success(NoViews)
    ensures AssertionResponseOf(Null) == Success(NoViews) && AssertionResponseOf(Undefined) == Success(NoViews)
  {
    EncodeObjectOfNothing(Table);
  }

  /** The fields a completed construction holds: the three names the input has, in both views. */
  lemma AssertionResponseKeys(input: Value)
    requires AssertionResponseOf(input).Success?
    ensures AssertionResponseOf(input).value.packed.Keys == Own(input).Keys * Names
    ensures AssertionResponseOf(input).value.unpacked.Keys == Own(input).Keys * Names
  {
    TableFacts();
    ConvertShape(Table, input);
  }

  /**
   * Each of the three fields keeps the side it was given on and holds its
   * encoding on the other side.
   */
  lemma AssertionResponseField(input: Value, n: string)
    requires AssertionResponseOf(input).Success?
    requires n in Own(input) && n in Names
    ensures var r, v := AssertionResponseOf(input).value, Own(input)[n];
      && n in r.packed && n in r.unpacked
      && (if v.Bytes? then r.unpacked[n] == v else r.packed[n] == v)
      && HexAgree(Dual(r.packed[n], r.unpacked[n]))
  {
    var i := if n == "authenticatorData" then 0 else if n == "signature" then 1 else 2;
    Renders(input, i);
    HexDualAgrees(Own(input)[n]);
  }

  /** The constructor throws exactly when the input is a truthy primitive or one of the fields does not unpack. */
  lemma AssertionResponseThrows(input: Value)
    ensures AssertionResponseOf(input).Failure? <==>
      && Truthy(input)
      && (|| input.Bool? || input.Num? || input.Str?
          || exists n :: n in Own(input) && n in Names && HexDual(Own(input)[n]).Failure?)
  {
    ConvertSucceeds(Table, input);
    var f := Own(input);
    if exists n :: n in f && n in Names && HexDual(f[n]).Failure? {
      var n :| n in f && n in Names && HexDual(f[n]).Failure?;
      assert Entry(n, HexBinary) in Table by {
        if n == "authenticatorData" { assert Table[0] == Entry(n, HexBinary); }
        else if n == "signature" { assert Table[1] == Entry(n, HexBinary); }
        else { assert Table[2] == Entry(n, HexBinary); }
      }
    }
  }

  /** A field that does not unpack, after fields that do, is the error of the table. */
  lemma FieldFails(fields: map<string, Value>, i: nat)
    requires i < |Table|
    requires EncodeObject(Table[..i], fields).Success?
    requires Table[i].name in fields && HexDual(fields[Table[i].name]).Failure?
    ensures EncodeObject(Table, fields) == Failure(HexDual(fields[Table[i].name]).error)
  {
    EncodeObjectSucceeds(Table[..i], fields);
    EncodeObjectFailsAt(Table[..i], Table[i], Table[i + 1..], fields);
    assert Table[..i] + [Table[i]] + Table[i + 1..] == Table;
  }

  /** A round of the loop over a field the input has: the prefix of the table grows by its renderings. */
  lemma FieldStep(fields: map<string, Value>, i: nat, packed: map<string, Value>, unpacked: map<string, Value>, p: Value, u: Value)
    requires i < |Table|
    requires EncodeObject(Table[..i], fields) == Success(Views(packed, unpacked))
    requires Table[i].name in fields && HexDual(fields[Table[i].name]) == Success(Dual(p, u))
    ensures EncodeObject(Table[..i + 1], fields) == Success(Views(packed[Table[i].name := p], unpacked[Table[i].name := u]))
  {
    TableFacts();
    ConsistentPrefix(Table, i);
    EncodeObjectSnoc(Table[..i], Table[i], fields);
    assert Table[..i + 1] == Table[..i] + [Table[i]];
  }

  /** A round of the loop over a field the input lacks leaves the views alone. */
  lemma FieldAbsent(fields: map<string, Value>, i: nat)
    requires i < |Table| && Table[i].name !in fields
    ensures EncodeObject(Table[..i + 1], fields) == EncodeObject(Table[..i], fields)
  {
    TableFacts();
    ConsistentPrefix(Table, i);
    EncodeObjectSnoc(Table[..i], Table[i], fields);
    assert Table[..i + 1] == Table[..i] + [Table[i]];
  }

  class AuthenticatorAssertionResponse {
    var packed: map<string, Value>
    var unpacked: map<string, Value>

    /** objects.js:178-179: both views start out empty. */
    constructor Empty()
      ensures packed == map[] && unpacked == map[]
    {
      packed := map[];
      unpacked := map[];
    }

    /** `new AuthenticatorAssertionResponse(input)`: the object, or the exception it throws. */
    static method New(input: Value) returns (r: Result<AuthenticatorAssertionResponse, Error>)
      ensures r.Success? <==> AssertionResponseOf(input).Success?
      ensures r.Success? ==> fresh(r.value)
      ensures r.Success? ==> AssertionResponseOf(input) == Success(Views(r.value.packed, r.value.unpacked))
      ensures r.Failure? ==> AssertionResponseOf(input) == Failure(r.error)
    {
      var o := new AuthenticatorAssertionResponse.Empty();
      var outcome := o.Initialize(input);
      if outcome.Fail? {
        return Failure(outcome.error);
      }
      return Success(o);
    }

    /**
     * The body of the constructor after the views are created
     * (objects.js:181-197): each field the input has is written to both
     * views and then replaced, on the side it was not given on, by its
     * encoding.
     */
    method Initialize(input: Value) returns (outcome: Outcome<Error>)
      requires packed == map[] && unpacked == map[]
      modifies this
      ensures outcome.Fail? ==> AssertionResponseOf(input) == Failure(outcome.error)
      ensures outcome.Pass? ==> AssertionResponseOf(input) == Success(Views(packed, unpacked))
    {
      if !Truthy(input) {
        return Pass;
      }
      var fieldsOr := FieldsOf(input);
      if fieldsOr.Failure? {
        return Fail(fieldsOr.error);
      }
      var fields := fieldsOr.value;
      assert Table[..0] == [];
      for i := 0 to |Table|
        invariant EncodeObject(Table[..i], fields) == Success(Views(packed, unpacked))
      {
        var f := Table[i].name;
        if f in fields {
          ghost var before := Views(packed, unpacked);
          packed := packed[f := fields[f]];
          unpacked := unpacked[f := fields[f]];
          if IsPacked(fields[f]) {
            var bytes := UnpackByteArray(fields[f]);
            if bytes.Failure? {
              FieldFails(fields, i);
              return Fail(bytes.error);
            }
            unpacked := unpacked[f := Bytes(bytes.value)];
            assert unpacked == before.unpacked[f := Bytes(bytes.value)];
          } else {
            packed := packed[f := Str(PackByteArray(fields[f].bytes))];
            assert packed == before.packed[f := Str(PackByteArray(fields[f].bytes))];
          }
          FieldStep(fields, i, before.packed, before.unpacked, packed[f], unpacked[f]);
        } else {
          FieldAbsent(fields, i);
        }
      }
      assert Table[..|Table|] == Table;
      return Pass;
    }
  }
}
