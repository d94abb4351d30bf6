/**
 * The JavaScript values the ceremony objects are made of, the exceptions
 * their conversion can throw, and the three operations on values that the
 * conversion relies on: truthiness, property reads and the shallow clone
 * `Object.assign({}, o)` (objects.js:7).
 */
module JsValues {
  import opened Wrappers

  /** An element of a `Uint8Array`. */
  type byte = b: int | 0 <= b < 256

  /**
   * A JavaScript value. `Bytes` is a `Uint8Array`; `Obj` is a plain object,
   * its map holding its own enumerable properties. A string is a sequence
   * of `char`s, each one Unicode scalar value; strings holding surrogate
   * code units are not modelled.
   */
  datatype Value =
    | Undefined
    | Null
    | Bool(truth: bool)
    | Num(n: int)
    | Str(s: string)
    | Bytes(bytes: seq<byte>)
    | Arr(elems: seq<Value>)
    | Obj(fields: map<string, Value>)

  /** The exceptions the conversion can raise. */
  datatype Error =
    | NotAnObject     // `f in input` applied to a string, number or boolean
    | NotAString      // `match`/`split` called on a value that is not a string
    | NoHexGroups     // `''.match(/.{1,2}/g)` is null, so `.map` throws
    | MalformedHex    // text that is not a whole number of hex-digit pairs
    | NotIterable     // `forEach` called on a value that has none
    | NullCredential  // `ex.id` read on a null or undefined list element
    | SyntaxError     // `JSON.parse` rejected the text

  predicate Nullish(v: Value) {
    v.Undefined? || v.Null?
  }

  /** JavaScript truthiness: `if (v)`. */
  predicate Truthy(v: Value) {
    match v
    case Undefined => false
    case Null => false
    case Bool(b) => b
    case Num(n) => n != 0
    case Str(s) => s != ""
    case _ => true
  }

  /**
   * The falsy values are exactly those of the language that the model has
   * (it has no `NaN`, `-0` or `BigInt`); every array, typed array and
   * object is truthy, even an empty one.
   */
  lemma FalsyValues(v: Value)
    ensures !Truthy(v) <==>
      v == Undefined || v == Null || v == Bool(false) || v == Num(0) || v == Str("")
  {
  }

  /**
   * The property read `v.name` for the names the conversion reads. Only a
   * plain object carries them; on strings, numbers, booleans, arrays and
   * typed arrays the read gives `undefined`. Reading on `null` or
   * `undefined` throws, so callers test for that first.
   */
  function Prop(v: Value, name: string): (r: Value)
    requires !Nullish(v)
    ensures !r.Undefined? ==> v.Obj? && name in v.fields && r == v.fields[name]
    ensures v.Obj? && name in v.fields ==> r == v.fields[name]
  {
    if v.Obj? && name in v.fields then v.fields[name] else Undefined
  }

  /** The assignment `o.name = x` on a plain object. */
  function SetProp(o: Value, name: string, x: Value): (r: Value)
    requires o.Obj?
    ensures r.Obj? && r.fields.Keys == o.fields.Keys + {name} && r.fields[name] == x
    ensures forall k :: k in o.fields && k != name ==> r.fields[k] == o.fields[k]
  {
    Obj(o.fields[name := x])
  }

  /** `input[name]` on a property map, `undefined` when absent. */
  function Get(fields: map<string, Value>, name: string): (r: Value)
    ensures name !in fields ==> r == Undefined
    ensures name in fields ==> r == fields[name]
  {
    if name in fields then fields[name] else Undefined
  }

  /**
   * The properties a truthy input offers to the `in` tests and property
   * reads of the constructors. `in` throws on a primitive; an array or
   * typed array has none of the ceremony names; a plain object has its own.
   */
  function FieldsOf(input: Value): (r: Result<map<string, Value>, Error>)
    requires Truthy(input)
    ensures r.Failure? <==> input.Bool? || input.Num? || input.Str?
    ensures r.Failure? ==> r.error == NotAnObject
    ensures input.Obj? ==> r == Success(input.fields)
  {
    match input
    case Obj(m) => Success(m)
    case Arr(_) => Success(map[])
    case Bytes(_) => Success(map[])
    case _ => Failure(NotAnObject)
  }

  /** A decimal digit. */
  function DecimalDigit(d: nat): (c: char)
    requires d < 10
    ensures '0' <= c <= '9' && c as int - '0' as int == d
  {
    ('0' as int + d) as char
  }

  /** The property name of array index `n`: its decimal numeral. */
  function IndexKey(n: nat): (k: string)
    ensures |k| >= 1
    ensures n >= 10 ==> |k| >= 2
    decreases n
  {
    if n < 10 then [DecimalDigit(n)] else IndexKey(n / 10) + [DecimalDigit(n % 10)]
  }

  lemma {:induction false} IndexKeyInjectiveAt(a: nat, b: nat)
    requires IndexKey(a) == IndexKey(b)
    ensures a == b
    decreases a
  {
    var ka, kb := IndexKey(a), IndexKey(b);
    if a < 10 && b < 10 {
      assert ka[0] == kb[0];
    } else if a < 10 || b < 10 {
      assert false;
    } else {
      assert ka[|ka| - 1] == kb[|kb| - 1];
      assert a % 10 == b % 10;
      assert ka[..|ka| - 1] == IndexKey(a / 10);
      assert kb[..|kb| - 1] == IndexKey(b / 10);
      IndexKeyInjectiveAt(a / 10, b / 10);
    }
  }

  /** Distinct indices have distinct property names. */
  lemma IndexKeyInjective()
    ensures forall a: nat, b: nat :: IndexKey(a) == IndexKey(b) ==> a == b
  {
    forall a: nat, b: nat | IndexKey(a) == IndexKey(b)
      ensures a == b
    {
      IndexKeyInjectiveAt(a, b);
    }
  }

  /** The plain object whose property `IndexKey(i)` is `elems[i]`. */
  function IndexedObject(elems: seq<Value>): (r: Value)
    ensures r.Obj?
    ensures forall i :: 0 <= i < |elems| ==> IndexKey(i) in r.fields && r.fields[IndexKey(i)] == elems[i]
  {
    IndexKeyInjective();
    Obj(map i | 0 <= i < |elems| :: IndexKey(i) := elems[i])
  }

  /** An indexed object has no property besides its index names. */
  lemma IndexedObjectKeys(elems: seq<Value>, k: string)
    requires k in IndexedObject(elems).fields
    ensures exists i :: 0 <= i < |elems| && k == IndexKey(i)
  {
  }

  /**
   * `Object.assign({}, o)`: a fresh plain object holding the own enumerable
   * properties of `o`. A plain object is copied as is; a string, an array
   * and a typed array become objects keyed by index; every other value
   * becomes `{}`.
   */
  function Clone(v: Value): (r: Value)
    ensures r.Obj?
    ensures v.Obj? ==> r == v
  {
    match v
    case Obj(_) => v
    case Str(s) => IndexedObject(seq(|s|, i requires 0 <= i < |s| => Str([s[i]])))
    case Arr(es) => IndexedObject(es)
    case Bytes(b) => IndexedObject(seq(|b|, i requires 0 <= i < |b| => Num(b[i])))
    case _ => Obj(map[])
  }

  /**
   * Cloning a string does not give a string back: each character becomes a
   * property of its own, so a cloned `"none"` is `{0: "n", 1: "o", ...}`.
   */
  lemma CloneSpellsOutText(s: string, i: nat)
    requires i < |s|
    ensures !Clone(Str(s)).Str?
    ensures IndexKey(i) in Clone(Str(s)).fields && Clone(Str(s)).fields[IndexKey(i)] == Str([s[i]])
  {
  }

  /** Cloning an array keeps its elements under their index names. */
  lemma CloneSpellsOutArray(es: seq<Value>, i: nat)
    requires i < |es|
    ensures !Clone(Arr(es)).Arr?
    ensures IndexKey(i) in Clone(Arr(es)).fields && Clone(Arr(es)).fields[IndexKey(i)] == es[i]
  {
  }
}
