/**
 JavaScript strings as code points, and their UTF-8 form as TextEncoder writes it and
 TextDecoder reads it (the WHATWG Encoding standard).
 */
module Unicode {
  import opened Prelude

  predicate IsHigh(u: int) {
    0xD800 <= u <= 0xDBFF
  }

  predicate IsLow(u: int) {
    0xDC00 <= u <= 0xDFFF
  }

  predicate IsSurrogate(u: int) {
    0xD800 <= u <= 0xDFFF
  }

  type CodePoint = c: int | 0 <= c < 0x11_0000
  type Scalar = c: int | 0 <= c < 0x11_0000 && !IsSurrogate(c)

  const REPLACEMENT: Scalar := 0xFFFD
  const BOM: CodeUnit := 0xFEFF

  predicate StartsWithPair(t: Text) {
    2 <= |t| && IsHigh(t[0]) && IsLow(t[1])
  }

  function Combine(high: CodeUnit, low: CodeUnit): CodePoint
    requires IsHigh(high) && IsLow(low)
  {
    0x1_0000 + (high - 0xD800) * 0x400 + (low - 0xDC00)
  }

  /** `[...t]`: surrogate pairs are joined, lone surrogates stand alone. */
  function CodePoints(t: Text): (cs: seq<CodePoint>)
    ensures |cs| <= |t|
  {
    if t == [] then []
    else if StartsWithPair(t) then [Combine(t[0], t[1])] + CodePoints(t[2..])
    else [t[0]] + CodePoints(t[1..])
  }

  /** Every surrogate is part of a pair. */
  predicate WellFormed(t: Text) {
    t == [] || (if StartsWithPair(t) then WellFormed(t[2..]) else !IsSurrogate(t[0]) && WellFormed(t[1..]))
  }

  // ---------------------------------------------------------------- UTF-16

  function ToScalar(c: CodePoint): Scalar {
    if IsSurrogate(c) then REPLACEMENT else c
  }

  /** What TextEncoder sees: lone surrogates become U+FFFD. */
  function Scalars(t: Text): seq<Scalar> {
    if t == [] then []
    else if StartsWithPair(t) then [Combine(t[0], t[1])] + Scalars(t[2..])
    else [ToScalar(t[0])] + Scalars(t[1..])
  }

  function Units(c: Scalar): Text {
    if c < 0x1_0000 then [c] else [0xD800 + (c - 0x1_0000) / 0x400, 0xDC00 + (c - 0x1_0000) % 0x400]
  }

  function FromScalars(cs: seq<Scalar>): Text {
    if cs == [] then [] else Units(cs[0]) + FromScalars(cs[1..])
  }

  /** The text with U+FFFD in place of every lone surrogate. */
  function Scrubbed(t: Text): Text {
    if t == [] then []
    else if StartsWithPair(t) then [t[0], t[1]] + Scrubbed(t[2..])
    else [ToScalar(t[0])] + Scrubbed(t[1..])
  }

  lemma UnitsOfPair(high: CodeUnit, low: CodeUnit)
    requires IsHigh(high) && IsLow(low)
    ensures Units(Combine(high, low)) == [high, low]
  {
  }

  lemma {:induction false} ScalarsScrub(t: Text)
    ensures FromScalars(Scalars(t)) == Scrubbed(t)
  {
    if t != [] {
      if StartsWithPair(t) {
        UnitsOfPair(t[0], t[1]);
        ScalarsScrub(t[2..]);
      } else {
        ScalarsScrub(t[1..]);
      }
    }
  }

  /** Scrubbing changes a text exactly when it has a lone surrogate. */
  lemma {:induction false} ScrubbedExactlyWhen(t: Text)
    ensures |Scrubbed(t)| == |t|
    ensures Scrubbed(t) == t <==> WellFormed(t)
  {
    if t != [] {
      if StartsWithPair(t) {
        ScrubbedExactlyWhen(t[2..]);
        assert t == [t[0], t[1]] + t[2..];
        assert Scrubbed(t)[2..] == Scrubbed(t[2..]);
      } else {
        ScrubbedExactlyWhen(t[1..]);
        assert t == [t[0]] + t[1..];
        assert Scrubbed(t)[1..] == Scrubbed(t[1..]);
      }
    }
  }

  // ---------------------------------------------------------------- UTF-8

  function B2(c: Scalar): Bytes requires 0x80 <= c < 0x800 { [0xC0 + c / 0x40, 0x80 + c % 0x40] }
  function B3(c: Scalar): Bytes requires 0x800 <= c < 0x1_0000 { [0xE0 + c / 0x1000, 0x80 + c / 0x40 % 0x40, 0x80 + c % 0x40] }
  function B4(c: Scalar): Bytes requires 0x1_0000 <= c {
    [0xF0 + c / 0x4_0000, 0x80 + c / 0x1000 % 0x40, 0x80 + c / 0x40 % 0x40, 0x80 + c % 0x40]
  }

  function EncodeScalar(c: Scalar): (b: Bytes)
    ensures 1 <= |b| <= 4
  {
    if c < 0x80 then [c] else if c < 0x800 then B2(c) else if c < 0x1_0000 then B3(c) else B4(c)
  }

  function EncodeScalars(cs: seq<Scalar>): Bytes {
    if cs == [] then [] else EncodeScalar(cs[0]) + EncodeScalars(cs[1..])
  }

  /** `new TextEncoder().encode(t)` */
  function StringToBytes(t: Text): Bytes {
    EncodeScalars(Scalars(t))
  }

  predicate IsContinuation(b: Byte) {
    0x80 <= b <= 0xBF
  }

  /** The range the second byte must be in, given the first. */
  predicate GoodSecond(lead: Byte, b: Byte) {
    (if lead == 0xE0 then 0xA0 else if lead == 0xF0 then 0x90 else 0x80) <= b
    <= (if lead == 0xED then 0x9F else if lead == 0xF4 then 0x8F else 0xBF)
  }

  /** How many bytes a sequence with this first byte has; 0 for a byte that starts none. */
  function SequenceLength(lead: Byte): (n: nat)
    ensures n <= 4
  {
    if lead < 0x80 then 1
    else if 0xC2 <= lead <= 0xDF then 2
    else if 0xE0 <= lead <= 0xEF then 3
    else if 0xF0 <= lead <= 0xF4 then 4
    else 0
  }

  /** How many bytes at the front belong together: a whole sequence, or the part of one that is not broken. */
  function GoodPrefix(b: Bytes): (n: nat)
    requires b != []
    ensures 1 <= n <= |b| && n <= 4
  {
    var need := SequenceLength(b[0]);
    if need <= 1 || |b| == 1 || !GoodSecond(b[0], b[1]) then 1
    else if need == 2 || |b| == 2 || !IsContinuation(b[2]) then 2
    else if need == 3 || |b| == 3 || !IsContinuation(b[3]) then 3
    else 4
  }

  function DecodeSequence(b: Bytes, need: nat): int
    requires 1 <= need <= |b| && need <= 4
  {
    if need == 1 then b[0]
    else if need == 2 then (b[0] as int - 0xC0) * 0x40 + (b[1] as int - 0x80)
    else if need == 3 then (b[0] as int - 0xE0) * 0x1000 + (b[1] as int - 0x80) * 0x40 + (b[2] as int - 0x80)
    else (b[0] as int - 0xF0) * 0x4_0000 + (b[1] as int - 0x80) * 0x1000 + (b[2] as int - 0x80) * 0x40 + (b[3] as int - 0x80)
  }

  function FirstScalar(b: Bytes): Scalar
    requires b != []
  {
    var need := SequenceLength(b[0]);
    if need != 0 && GoodPrefix(b) == need then DecodeSequence(b, need) else REPLACEMENT
  }

  /** The UTF-8 decoder: each maximal broken part of a sequence becomes one U+FFFD. */
  function DecodeScalars(b: Bytes): seq<Scalar>
    decreases |b|
  {
    if b == [] then [] else [FirstScalar(b)] + DecodeScalars(b[GoodPrefix(b)..])
  }

  const BOM_BYTES: Bytes := [0xEF, 0xBB, 0xBF]

  /** `new TextDecoder().decode(b)`: one leading byte order mark is dropped. */
  function BytesToString(b: Bytes): Text {
    FromScalars(DecodeScalars(if BOM_BYTES <= b then b[3..] else b))
  }

  // ---------------------------------------------------------------- round trip

  lemma DecodeTwo(c: Scalar, b: Bytes)
    requires 0x80 <= c < 0x800 && B2(c) <= b
    ensures GoodPrefix(b) == 2 && FirstScalar(b) == c
  {
  }

  lemma DecodeThree(c: Scalar, b: Bytes)
    requires 0x800 <= c < 0x1_0000 && B3(c) <= b
    ensures GoodPrefix(b) == 3 && FirstScalar(b) == c
  {
    var x, y, z := c / 0x1000, c / 0x40 % 0x40, c % 0x40;
    assert c == x * 0x1000 + y * 0x40 + z && x < 0x10;
    assert b[0] == 0xE0 + x && b[1] == 0x80 + y && b[2] == 0x80 + z;
    assert x == 0 ==> y >= 0x20;
    assert !IsSurrogate(c);
    assert x == 0xD ==> y < 0x20;
  }

  lemma SplitFour(c: Scalar) returns (w: int, x: int, y: int, z: int)
    requires 0x1_0000 <= c
    ensures w == c / 0x4_0000 && x == c / 0x1000 % 0x40 && y == c / 0x40 % 0x40 && z == c % 0x40
    ensures c == w * 0x4_0000 + x * 0x1000 + y * 0x40 + z
    ensures 0 <= w <= 4 && 0 <= x < 0x40 && 0 <= y < 0x40 && 0 <= z < 0x40
    ensures (w == 0 ==> x >= 0x10) && (w == 4 ==> x < 0x10)
  {
    w, x, y, z := c / 0x4_0000, c / 0x1000 % 0x40, c / 0x40 % 0x40, c % 0x40;
  }

  lemma DecodeFour(c: Scalar, b: Bytes)
    requires 0x1_0000 <= c && B4(c) <= b
    ensures GoodPrefix(b) == 4 && FirstScalar(b) == c
  {
    var w, x, y, z := SplitFour(c);
    assert b[0] == 0xF0 + w && b[1] == 0x80 + x && b[2] == 0x80 + y && b[3] == 0x80 + z;
  }

  lemma DecodeFirst(c: Scalar, rest: Bytes)
    ensures GoodPrefix(EncodeScalar(c) + rest) == |EncodeScalar(c)|
    ensures FirstScalar(EncodeScalar(c) + rest) == c
  {
    var b := EncodeScalar(c) + rest;
    assert EncodeScalar(c) <= b;
    if c < 0x80 {
    } else if c < 0x800 {
      DecodeTwo(c, b);
    } else if c < 0x1_0000 {
      DecodeThree(c, b);
    } else {
      DecodeFour(c, b);
    }
  }

  lemma {:induction false} DecodeUndoesEncode(cs: seq<Scalar>)
    ensures DecodeScalars(EncodeScalars(cs)) == cs
  {
    if cs != [] {
      DecodeFirst(cs[0], EncodeScalars(cs[1..]));
      DecodeUndoesEncode(cs[1..]);
      assert EncodeScalars(cs)[|EncodeScalar(cs[0])|..] == EncodeScalars(cs[1..]);
    }
  }

  predicate HasBom(t: Text) {
    t != [] && t[0] == BOM
  }

  lemma BomBytes(c: Scalar)
    ensures EncodeScalar(c) == BOM_BYTES <==> c == BOM
  {
  }

  lemma {:induction false} LeadingBytes(c: Scalar, rest: Bytes)
    ensures BOM_BYTES <= EncodeScalar(c) + rest <==> c == BOM
  {
    var b := EncodeScalar(c) + rest;
    BomBytes(c);
    DecodeFirst(c, rest);
    if BOM_BYTES <= b {
      assert b[0] == 0xEF && b[1] == 0xBB && b[2] == 0xBF;
      assert GoodPrefix(b) == 3 && FirstScalar(b) == 0xFEFF;
    }
  }

  /** Reading back what was written gives the scrubbed text, less one leading byte order mark. */
  lemma DecodeGivesScrubbed(t: Text)
    ensures BytesToString(StringToBytes(t)) == if HasBom(t) then Scrubbed(t)[1..] else Scrubbed(t)
  {
    var cs := Scalars(t);
    var b := StringToBytes(t);
    ScalarsScrub(t);
    DecodeUndoesEncode(cs);
    if t != [] {
      LeadingBytes(cs[0], EncodeScalars(cs[1..]));
      assert HasBom(t) <==> cs[0] == BOM;
      if HasBom(t) {
        BomBytes(cs[0]);
        assert b[3..] == EncodeScalars(cs[1..]);
        DecodeUndoesEncode(cs[1..]);
        assert FromScalars(cs)[1..] == FromScalars(cs[1..]);
      }
    }
  }

  /** The text survives exactly when it has no lone surrogate and no leading byte order mark. */
  lemma TextSurvivesExactlyWhen(t: Text)
    ensures BytesToString(StringToBytes(t)) == t <==> WellFormed(t) && !HasBom(t)
  {
    DecodeGivesScrubbed(t);
    ScrubbedExactlyWhen(t);
  }

  lemma EncodingIsInjective(s: Text, t: Text)
    requires WellFormed(s) && WellFormed(t) && StringToBytes(s) == StringToBytes(t)
    ensures s == t
  {
    DecodeUndoesEncode(Scalars(s));
    DecodeUndoesEncode(Scalars(t));
    ScalarsScrub(s);
    ScalarsScrub(t);
    ScrubbedExactlyWhen(s);
    ScrubbedExactlyWhen(t);
  }

  lemma {:induction false} WellFormedConcat(s: Text, t: Text)
    requires WellFormed(s) && WellFormed(t)
    ensures WellFormed(s + t)
  {
    if s == [] {
      assert s + t == t;
    } else if StartsWithPair(s) {
      assert (s + t)[2..] == s[2..] + t;
      WellFormedConcat(s[2..], t);
    } else {
      assert (s + t)[1..] == s[1..] + t;
      WellFormedConcat(s[1..], t);
    }
  }

  // ---------------------------------------------------------------- the bytes themselves

  /** One scalar of each length, and the first and last of each (section 3 of RFC 3629). */
  lemma EncodingsAre()
    ensures EncodeScalar(0x24) == [0x24] && EncodeScalar(0x7F) == [0x7F]
    ensures EncodeScalar(0x80) == [0xC2, 0x80] && EncodeScalar(0x3A9) == [0xCE, 0xA9] && EncodeScalar(0x7FF) == [0xDF, 0xBF]
    ensures EncodeScalar(0x800) == [0xE0, 0xA0, 0x80] && EncodeScalar(0x20AC) == [0xE2, 0x82, 0xAC] && EncodeScalar(0xFFFF) == [0xEF, 0xBF, 0xBF]
    ensures EncodeScalar(0x1_0000) == [0xF0, 0x90, 0x80, 0x80] && EncodeScalar(0x2_33B4) == [0xF0, 0xA3, 0x8E, 0xB4]
    ensures EncodeScalar(0x10_FFFF) == [0xF4, 0x8F, 0xBF, 0xBF]
  {
  }
}
