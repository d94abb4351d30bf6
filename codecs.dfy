/**
 * The two codecs of objects.js: bytes as lowercase hexadecimal text
 * (`packByteArray`/`unpackByteArray`, objects.js:11-12; Base 16 of
 * section 8 of RFC 4648, in lower case) and bytes as character codes
 * (`packString`/`unpackString`, objects.js:14-15).
 */
module Codecs {
  import opened Wrappers
  import opened JsValues

  predicate IsLowerHexDigit(c: char) {
    '0' <= c <= '9' || 'a' <= c <= 'f'
  }

  /** The digits `parseInt(·, 16)` accepts: either case. */
  predicate IsHexDigit(c: char) {
    IsLowerHexDigit(c) || 'A' <= c <= 'F'
  }

  predicate IsLowerHex(s: string) {
    forall i :: 0 <= i < |s| ==> IsLowerHexDigit(s[i])
  }

  predicate IsHex(s: string) {
    forall i :: 0 <= i < |s| ==> IsHexDigit(s[i])
  }

  function DigitValue(c: char): (d: nat)
    requires IsHexDigit(c)
    ensures d < 16
  {
    if '0' <= c <= '9' then c as int - '0' as int
    else if 'a' <= c <= 'f' then c as int - 'a' as int + 10
    else c as int - 'A' as int + 10
  }

  /** The lowercase digit of `d`, as `Number.prototype.toString(16)` writes it. */
  function HexDigit(d: nat): (c: char)
    requires d < 16
    ensures IsLowerHexDigit(c) && DigitValue(c) == d
  {
    if d < 10 then ('0' as int + d) as char else ('a' as int + d - 10) as char
  }

  /** A hex digit in lower case; every other character unchanged. */
  function LowerDigit(c: char): (r: char)
    ensures IsHexDigit(c) ==> IsLowerHexDigit(r) && DigitValue(r) == DigitValue(c)
    ensures IsLowerHexDigit(c) ==> r == c
  {
    if 'A' <= c <= 'F' then (c as int - 'A' as int + 'a' as int) as char else c
  }

  function LowerCase(s: string): (r: string)
    ensures |r| == |s| && forall i :: 0 <= i < |s| ==> r[i] == LowerDigit(s[i])
  {
    seq(|s|, i requires 0 <= i < |s| => LowerDigit(s[i]))
  }

  lemma LowerCaseOfLowerHex(s: string)
    requires IsLowerHex(s)
    ensures LowerCase(s) == s
  {
  }

  /** The digit written for a digit's value is that digit in lower case. */
  lemma HexDigitOfValue(c: char)
    requires IsHexDigit(c)
    ensures HexDigit(DigitValue(c)) == LowerDigit(c)
  {
  }

  /**
   * A byte in base 16, padded with a leading zero to two lowercase digits
   * that read back as the byte.
   */
  function ByteToHex(b: byte): (s: string)
    ensures |s| == 2 && IsLowerHexDigit(s[0]) && IsLowerHexDigit(s[1])
    ensures 16 * DigitValue(s[0]) + DigitValue(s[1]) == b
  {
    [HexDigit(b / 16), HexDigit(b % 16)]
  }

  /**
   * `packByteArray`: the two-digit groups of the bytes, concatenated in
   * order (the same string the left-to-right `reduce` builds).
   */
  function PackByteArray(a: seq<byte>): (s: string)
    ensures |s| == 2 * |a|
    ensures IsLowerHex(s)
  {
    if a == [] then "" else ByteToHex(a[0]) + PackByteArray(a[1..])
  }

  /** The value of a group of two hex digits, the high digit first, in either case. */
  function GroupValue(hi: char, lo: char): byte
    requires IsHexDigit(hi) && IsHexDigit(lo)
  {
    16 * DigitValue(hi) + DigitValue(lo)
  }

  /**
   * The bytes of a text split, left to right, into groups of two
   * characters, each read as a base-16 number. A text that is not a whole
   * number of hex-digit pairs is refused.
   */
  function HexGroups(s: string): (r: Result<seq<byte>, Error>)
    ensures r.Success? <==> |s| % 2 == 0 && IsHex(s)
    ensures r.Success? ==> 2 * |r.value| == |s|
    ensures r.Failure? ==> r.error == MalformedHex
    decreases |s|
  {
    if |s| == 0 then Success([])
    else if |s| == 1 || !IsHexDigit(s[0]) || !IsHexDigit(s[1]) then Failure(MalformedHex)
    else
      var rest :- HexGroups(s[2..]);
      Success([GroupValue(s[0], s[1])] + rest)
  }

  /**
   * `unpackByteArray`: `''` throws because the match is null, and a value
   * that is not a string has no `match` to call.
   */
  function UnpackByteArray(v: Value): (r: Result<seq<byte>, Error>)
    ensures r.Success? <==> v.Str? && v.s != "" && |v.s| % 2 == 0 && IsHex(v.s)
    ensures r.Success? ==> r.value != [] && 2 * |r.value| == |v.s|
    ensures !v.Str? ==> r == Failure(NotAString)
    ensures v == Str("") ==> r == Failure(NoHexGroups)
  {
    match v
    case Str(s) => if s == "" then Failure(NoHexGroups) else HexGroups(s)
    case _ => Failure(NotAString)
  }

  lemma {:induction false} HexGroupsOfPacked(a: seq<byte>)
    ensures HexGroups(PackByteArray(a)) == Success(a)
  {
    if a != [] {
      var s := PackByteArray(a);
      assert s == ByteToHex(a[0]) + PackByteArray(a[1..]);
      assert s[2..] == PackByteArray(a[1..]);
      HexGroupsOfPacked(a[1..]);
      assert GroupValue(s[0], s[1]) == a[0];
      assert a == [a[0]] + a[1..];
    }
  }

  /** Unpacking the packed form of a non-empty byte sequence gives it back. */
  lemma PackThenUnpack(a: seq<byte>)
    requires a != []
    ensures UnpackByteArray(Str(PackByteArray(a))) == Success(a)
  {
    HexGroupsOfPacked(a);
  }

  /** The empty byte sequence packs to `''`, which does not unpack. */
  lemma EmptyDoesNotRoundTrip()
    ensures PackByteArray([]) == ""
    ensures UnpackByteArray(Str(PackByteArray([]))) == Failure(NoHexGroups)
  {
  }

  lemma {:induction false} PackedHexGroups(s: string)
    requires |s| % 2 == 0 && IsHex(s)
    ensures PackByteArray(HexGroups(s).value) == LowerCase(s)
    decreases |s|
  {
    if s != [] {
      var rest := HexGroups(s[2..]).value;
      assert HexGroups(s).value == [GroupValue(s[0], s[1])] + rest;
      var b := GroupValue(s[0], s[1]);
      assert b / 16 == DigitValue(s[0]) && b % 16 == DigitValue(s[1]);
      HexDigitOfValue(s[0]);
      HexDigitOfValue(s[1]);
      assert ByteToHex(b) == [LowerDigit(s[0]), LowerDigit(s[1])];
      assert ([GroupValue(s[0], s[1])] + rest)[1..] == rest;
      PackedHexGroups(s[2..]);
      assert LowerCase(s) == [LowerDigit(s[0]), LowerDigit(s[1])] + LowerCase(s[2..]);
    }
  }

  /**
   * Packing the bytes of a valid hex text gives the text back in lower
   * case: the text itself when it was lowercase already.
   */
  lemma UnpackThenPack(s: string)
    requires s != "" && |s| % 2 == 0 && IsHex(s)
    ensures UnpackByteArray(Str(s)).Success?
    ensures PackByteArray(UnpackByteArray(Str(s)).value) == LowerCase(s)
    ensures IsLowerHex(s) ==> PackByteArray(UnpackByteArray(Str(s)).value) == s
  {
    PackedHexGroups(s);
  }

  /** Upper- and lowercase digits read as the same bytes. */
  lemma {:induction false} CaseInsensitiveUnpack(s: string)
    ensures HexGroups(LowerCase(s)) == HexGroups(s)
    decreases |s|
  {
    if |s| >= 2 {
      assert LowerCase(s)[2..] == LowerCase(s[2..]);
      CaseInsensitiveUnpack(s[2..]);
    }
  }

  lemma HexOfExampleBytes()
    ensures ByteToHex(222) == "de" && ByteToHex(202) == "ca"
    ensures ByteToHex(251) == "fb" && ByteToHex(173) == "ad"
  {
  }

  /** The second id of the test suite's credential list: `[171, 173, 29, 234]` is `"abad1dea"`. */
  lemma ABadIdea()
    ensures PackByteArray([171, 173, 29, 234]) == "abad1dea"
  {
    var a: seq<byte> := [171, 173, 29, 234];
    assert ByteToHex(171) == "ab" && ByteToHex(173) == "ad";
    assert ByteToHex(29) == "1d" && ByteToHex(234) == "ea";
    assert a[1..] == [173, 29, 234];
    assert a[1..][1..] == [29, 234];
    assert a[1..][1..][1..] == [234];
  }

  /** The example of the test suite: `[222, 202, 251, 173]` is `"decafbad"`. */
  lemma DecafBad()
    ensures PackByteArray([222, 202, 251, 173]) == "decafbad"
    ensures UnpackByteArray(Str("decafbad")) == Success([222, 202, 251, 173])
  {
    var a: seq<byte> := [222, 202, 251, 173];
    HexOfExampleBytes();
    assert a[1..] == [202, 251, 173];
    assert a[1..][1..] == [251, 173];
    assert a[1..][1..][1..] == [173];
    assert PackByteArray(a) == "decafbad";
    PackThenUnpack(a);
  }

  lemma UpperDecafBad()
    ensures LowerCase("DECAFBAD") == "decafbad"
  {
    var l := LowerCase("DECAFBAD");
    assert l[0] == 'd' && l[1] == 'e' && l[2] == 'c' && l[3] == 'a';
    assert l[4] == 'f' && l[5] == 'b' && l[6] == 'a' && l[7] == 'd';
  }

  /** Uppercase digits are read too: `"DECAFBAD"` unpacks like `"decafbad"`. */
  lemma DecafBadUpper()
    ensures UnpackByteArray(Str("DECAFBAD")) == Success([222, 202, 251, 173])
  {
    DecafBad();
    UpperDecafBad();
    CaseInsensitiveUnpack("DECAFBAD");
  }

  /**
   * The character code of `c` as a `Uint8Array` element holds it: a code
   * below 256 is kept, a larger one keeps only its low eight bits.
   */
  function CharCode(c: char): (b: byte)
    ensures c as int < 256 <==> b as int == c as int
    ensures (c as int - b as int) % 256 == 0
  {
    (c as int) % 256
  }

  /** Bytes as text: one character per byte, whose code is the byte's value. */
  function PackString(a: seq<byte>): (s: string)
    ensures |s| == |a|
    ensures forall i :: 0 <= i < |a| ==> s[i] as int == a[i]
  {
    seq(|a|, i requires 0 <= i < |a| => a[i] as char)
  }

  /**
   * Text as bytes: one byte per character, the character's code held
   * modulo 256. Anything but a string throws, having no `split`.
   */
  function UnpackString(v: Value): (r: Result<seq<byte>, Error>)
    ensures r.Success? <==> v.Str?
    ensures r.Failure? ==> r.error == NotAString
    ensures r.Success? ==> |r.value| == |v.s| && forall i :: 0 <= i < |v.s| ==> r.value[i] == CharCode(v.s[i])
  {
    match v
    case Str(s) => Success(seq(|s|, i requires 0 <= i < |s| => CharCode(s[i])))
    case _ => Failure(NotAString)
  }

  /** Text whose every character code fits in a byte. */
  predicate IsByteText(s: string) {
    forall i :: 0 <= i < |s| ==> s[i] as int < 256
  }

  /** Bytes survive being turned into text and back. */
  lemma TextRoundTrip(a: seq<byte>)
    ensures UnpackString(Str(PackString(a))) == Success(a)
  {
    assert UnpackString(Str(PackString(a))).value == a;
  }

  /** Text survives being turned into bytes and back exactly when every code is below 256. */
  lemma TextRoundTripBack(s: string)
    ensures UnpackString(Str(s)).Success?
    ensures PackString(UnpackString(Str(s)).value) == s <==> IsByteText(s)
  {
    var back := PackString(UnpackString(Str(s)).value);
    if IsByteText(s) {
      assert back == s;
    }
    if back == s {
      forall i | 0 <= i < |s| ensures s[i] as int < 256 {
        assert back[i] as int < 256;
      }
    }
  }

  /** The client data of the test suite: the bytes of `{"idea":"bad"}`, one per character. */
  lemma IdeaBad()
    ensures PackString([123, 34, 105, 100, 101, 97, 34, 58, 34, 98, 97, 100, 34, 125]) == "{\"idea\":\"bad\"}"
    ensures UnpackString(Str("{\"idea\":\"bad\"}")) == Success([123, 34, 105, 100, 101, 97, 34, 58, 34, 98, 97, 100, 34, 125])
  {
    var a: seq<byte> := [123, 34, 105, 100, 101, 97, 34, 58, 34, 98, 97, 100, 34, 125];
    var s := "{\"idea\":\"bad\"}";
    assert PackString(a) == s;
    TextRoundTrip(a);
  }
}
