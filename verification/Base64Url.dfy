/**
 Base64url without padding (section 5 of RFC 4648), built as the repository builds it: the
 platform's btoa and atob between character replacements (src/crypto/encoding.ts).
 */
module Base64Url {
  import opened Prelude

  type Sextet = d: int | 0 <= d < 64

  const PLUS: CodeUnit := 0x2B
  const SLASH: CodeUnit := 0x2F
  const DASH: CodeUnit := 0x2D
  const UNDERSCORE: CodeUnit := 0x5F
  const PAD: CodeUnit := 0x3D

  // ---------------------------------------------------------------- the platform: btoa and atob

  /** The standard alphabet (section 4 of RFC 4648). */
  function Symbol(d: Sextet): CodeUnit {
    if d < 26 then 0x41 + d
    else if d < 52 then 0x61 + d - 26
    else if d < 62 then 0x30 + d - 52
    else if d == 62 then PLUS else SLASH
  }

  function SextetOf(u: CodeUnit): Option<Sextet> {
    if 0x41 <= u <= 0x5A then Some(u - 0x41)
    else if 0x61 <= u <= 0x7A then Some(u - 0x61 + 26)
    else if 0x30 <= u <= 0x39 then Some(u - 0x30 + 52)
    else if u == PLUS then Some(62)
    else if u == SLASH then Some(63)
    else None
  }

  function Symbols(ds: seq<Sextet>): (t: Text)
    ensures |t| == |ds|
  {
    seq(|ds|, i requires 0 <= i < |ds| => Symbol(ds[i]))
  }

  /** The four sextets of three bytes, and back. */
  function S1(b0: Byte): Sextet { b0 / 4 }
  function S2(b0: Byte, b1: Byte): Sextet { b0 % 4 * 16 + b1 / 16 }
  function S3(b1: Byte, b2: Byte): Sextet { b1 % 16 * 4 + b2 / 64 }
  function S4(b2: Byte): Sextet { b2 % 64 }
  function O1(d0: Sextet, d1: Sextet): Byte { d0 as int * 4 + d1 / 16 }
  function O2(d1: Sextet, d2: Sextet): Byte { d1 as int % 16 * 16 + d2 / 4 }
  function O3(d2: Sextet, d3: Sextet): Byte { d2 as int % 4 * 64 + d3 }

  /** Three bytes become four sextets; a last group of one or two is filled up with zero bits. */
  function Sextets(b: Bytes): (ds: seq<Sextet>)
    decreases |b|
  {
    if |b| == 0 then []
    else if |b| == 1 then [S1(b[0]), S2(b[0], 0)]
    else if |b| == 2 then [S1(b[0]), S2(b[0], b[1]), S3(b[1], 0)]
    else [S1(b[0]), S2(b[0], b[1]), S3(b[1], b[2]), S4(b[2])] + Sextets(b[3..])
  }

  /** Four sextets become three bytes; the spare bits of a last group are dropped. */
  function Octets(ds: seq<Sextet>): (b: Bytes)
    decreases |ds|
  {
    if |ds| < 2 then []
    else if |ds| == 2 then [O1(ds[0], ds[1])]
    else if |ds| == 3 then [O1(ds[0], ds[1]), O2(ds[1], ds[2])]
    else [O1(ds[0], ds[1]), O2(ds[1], ds[2]), O3(ds[2], ds[3])] + Octets(ds[4..])
  }

  function Padding(n: nat): Text {
    if n % 3 == 0 then [] else if n % 3 == 1 then [PAD, PAD] else [PAD]
  }

  function Btoa(b: Bytes): Text {
    Symbols(Sextets(b)) + Padding(|b|)
  }

  predicate IsAsciiWhitespace(u: CodeUnit) {
    u == 0x9 || u == 0xA || u == 0xC || u == 0xD || u == 0x20
  }

  function WithoutWhitespace(t: Text): Text {
    if t == [] then []
    else if IsAsciiWhitespace(t[0]) then WithoutWhitespace(t[1..])
    else [t[0]] + WithoutWhitespace(t[1..])
  }

  function WithoutPadding(t: Text): Text {
    if |t| % 4 != 0 || t == [] || t[|t| - 1] != PAD then t
    else if t[|t| - 2] != PAD then t[..|t| - 1]
    else t[..|t| - 2]
  }

  function Digits(t: Text): (r: Option<seq<Sextet>>)
    ensures r.Some? ==> |r.value| == |t|
    ensures r.Some? <==> forall i :: 0 <= i < |t| ==> SextetOf(t[i]).Some?
    ensures r.Some? ==> forall i :: 0 <= i < |t| ==> Some(r.value[i]) == SextetOf(t[i])
  {
    if t == [] then Some([])
    else
      var d, rest := SextetOf(t[0]), Digits(t[1..]);
      assert forall i :: 0 < i < |t| ==> t[i] == t[1..][i - 1];
      if d.None? then assert SextetOf(t[0]).None?; None
      else if rest.None? then
        assert exists i :: 0 <= i < |t[1..]| && SextetOf(t[1..][i]).None?;
        None
      else Some([d.value] + rest.value)
  }

  /** The forgiving-base64 decode of the WHATWG Infra standard. */
  function Atob(t: Text): Option<Bytes> {
    var s := WithoutPadding(WithoutWhitespace(t));
    if |s| % 4 == 1 then None
    else
      var ds := Digits(s);
      if ds.None? then None else Some(Octets(ds.value))
  }

  // ---------------------------------------------------------------- the code

  function Replace(t: Text, from: CodeUnit, to: CodeUnit): (r: Text)
    ensures |r| == |t|
  {
    seq(|t|, i requires 0 <= i < |t| => if t[i] == from then to else t[i])
  }

  /** `replace(/=+$/, "")` */
  function StripPads(t: Text): Text {
    if t != [] && t[|t| - 1] == PAD then StripPads(t[..|t| - 1]) else t
  }

  function BytesToBase64Url(b: Bytes): Text {
    StripPads(Replace(Replace(Btoa(b), PLUS, DASH), SLASH, UNDERSCORE))
  }

  function Repeat(u: CodeUnit, n: nat): (t: Text)
    ensures |t| == n
  {
    seq(n, _ => u)
  }

  function FromUrl(t: Text): (r: Text)
    ensures |r| == |t|
  {
    Replace(Replace(t, DASH, PLUS), UNDERSCORE, SLASH)
  }

  function PadLength(n: nat): nat {
    (4 - n % 4) % 4
  }

  function Base64UrlToBytes(t: Text): Option<Bytes> {
    var base64 := FromUrl(t);
    Atob(base64 + Repeat(PAD, PadLength(|base64|)))
  }

  function MaxEncodedLength(maxBytes: nat): nat {
    (maxBytes + 2) / 3 * 4
  }

  datatype SizeError = EncodedTooLong | Invalid | DecodedTooLong

  method DecodeBoundedBase64Url(input: Text, maxBytes: nat) returns (r: Result<Bytes, SizeError>)
    ensures r == DecodeBounded(input, maxBytes)
  {
    if |input| > MaxEncodedLength(maxBytes) {
      return Err(EncodedTooLong);
    }
    var bytes := Base64UrlToBytes(input);
    if bytes.None? {
      return Err(Invalid);
    }
    if |bytes.value| > maxBytes {
      return Err(DecodedTooLong);
    }
    return Ok(bytes.value);
  }

  function DecodeBounded(input: Text, maxBytes: nat): Result<Bytes, SizeError> {
    var bytes := Base64UrlToBytes(input);
    if |input| > MaxEncodedLength(maxBytes) then Err(EncodedTooLong)
    else if bytes.None? then Err(Invalid)
    else if |bytes.value| > maxBytes then Err(DecodedTooLong)
    else Ok(bytes.value)
  }

  /** bytesToBase64Url: the binary string is built byte by byte. */
  method EncodeBytes(bytes: Bytes) returns (t: Text)
    ensures t == BytesToBase64Url(bytes)
  {
    var binary: Bytes := [];
    for i := 0 to |bytes|
      invariant binary == bytes[..i]
    {
      binary := binary + [bytes[i]];
    }
    assert bytes[..|bytes|] == bytes;
    t := StripPads(Replace(Replace(Btoa(binary), PLUS, DASH), SLASH, UNDERSCORE));
  }

  /** base64UrlToBytes: the result array is filled from the binary string. */
  method DecodeText(t: Text) returns (ok: bool, bytes: array<Byte>)
    ensures fresh(bytes)
    ensures ok <==> Base64UrlToBytes(t).Some?
    ensures ok ==> bytes[..] == Base64UrlToBytes(t).value
  {
    var binary := Base64UrlToBytes(t);
    if binary.None? {
      bytes := new Byte[0];
      return false, bytes;
    }
    ok, bytes := true, new Byte[|binary.value|];
    for i := 0 to |binary.value|
      invariant bytes[..i] == binary.value[..i]
    {
      bytes[i] := binary.value[i];
    }
  }

  // ---------------------------------------------------------------- what the pipeline computes

  /** The URL-safe alphabet. */
  function UrlSymbol(d: Sextet): CodeUnit {
    if d == 62 then DASH else if d == 63 then UNDERSCORE else Symbol(d)
  }

  function UrlSymbols(ds: seq<Sextet>): (t: Text)
    ensures |t| == |ds|
  {
    seq(|ds|, i requires 0 <= i < |ds| => UrlSymbol(ds[i]))
  }

  /** What a count of bytes leaves over decides what the count of sextets leaves over. */
  lemma {:induction false} SextetCount(b: Bytes)
    ensures 3 * |Sextets(b)| == 4 * |b| + (if |b| % 3 == 0 then 0 else 3 - |b| % 3)
    ensures |Sextets(b)| % 4 == (if |b| % 3 == 0 then 0 else |b| % 3 + 1)
    decreases |b|
  {
    if |b| >= 3 {
      SextetCount(b[3..]);
      assert |Sextets(b)| == 4 + |Sextets(b[3..])|;
      DropGroup(|b|, 3);
      DropGroup(|Sextets(b)|, 4);
    }
  }

  lemma DropGroup(n: int, g: int)
    requires g == 3 || g == 4
    ensures (n - g) % g == n % g
  {
  }

  lemma GroupThereAndBack(b0: Byte, b1: Byte, b2: Byte)
    ensures O1(S1(b0), S2(b0, b1)) == b0 && O2(S2(b0, b1), S3(b1, b2)) == b1 && O3(S3(b1, b2), S4(b2)) == b2
  {
  }

  lemma GroupBackAndForth(d0: Sextet, d1: Sextet, d2: Sextet, d3: Sextet)
    ensures S1(O1(d0, d1)) == d0 && S2(O1(d0, d1), O2(d1, d2)) == d1 && S3(O2(d1, d2), O3(d2, d3)) == d2 && S4(O3(d2, d3)) == d3
  {
  }

  lemma OneThereAndBack(b0: Byte, zero: Byte)
    requires zero == 0
    ensures O1(S1(b0), S2(b0, zero)) == b0
  {
  }

  lemma TwoThereAndBack(b0: Byte, b1: Byte, zero: Byte)
    requires zero == 0
    ensures O1(S1(b0), S2(b0, b1)) == b0 && O2(S2(b0, b1), S3(b1, zero)) == b1
  {
  }

  lemma LastOctets(ds: seq<Sextet>)
    ensures |ds| == 2 ==> Octets(ds) == [O1(ds[0], ds[1])]
    ensures |ds| == 3 ==> Octets(ds) == [O1(ds[0], ds[1]), O2(ds[1], ds[2])]
  {
  }

  lemma LastSextets(b: Bytes, zero: Byte)
    requires zero == 0
    ensures |b| == 1 ==> Sextets(b) == [S1(b[0]), S2(b[0], zero)]
    ensures |b| == 2 ==> Sextets(b) == [S1(b[0]), S2(b[0], b[1]), S3(b[1], zero)]
  {
  }

  lemma LastByteThereAndBack(b: Bytes, zero: Byte)
    requires |b| == 1 && zero == 0
    ensures Octets(Sextets(b)) == b
  {
    LastSextets(b, zero);
    LastOctets(Sextets(b));
    OneThereAndBack(b[0], zero);
    assert b == [b[0]];
  }

  lemma LastTwoThereAndBack(b: Bytes, zero: Byte)
    requires |b| == 2 && zero == 0
    ensures Octets(Sextets(b)) == b
  {
    LastSextets(b, zero);
    LastOctets(Sextets(b));
    TwoThereAndBack(b[0], b[1], zero);
    assert b == [b[0], b[1]];
  }

  lemma {:induction false} OctetsOfSextets(b: Bytes)
    ensures Octets(Sextets(b)) == b
    decreases |b|
  {
    if |b| >= 3 {
      OctetsOfSextets(b[3..]);
      FirstOctets(Sextets(b), Sextets(b[3..]));
      GroupThereAndBack(b[0], b[1], b[2]);
      assert b == [b[0], b[1], b[2]] + b[3..];
    } else if |b| == 2 {
      LastTwoThereAndBack(b, 0);
    } else if |b| == 1 {
      LastByteThereAndBack(b, 0);
    }
  }

  lemma FirstOctets(ds: seq<Sextet>, rest: seq<Sextet>)
    requires 4 <= |ds| && ds[4..] == rest
    ensures Octets(ds) == [O1(ds[0], ds[1]), O2(ds[1], ds[2]), O3(ds[2], ds[3])] + Octets(rest)
  {
  }

  lemma {:induction false} StripPadsAfter(t: Text, n: nat)
    requires t == [] || t[|t| - 1] != PAD
    ensures StripPads(t + Repeat(PAD, n)) == t
    decreases n
  {
    var p := t + Repeat(PAD, n);
    if n > 0 {
      assert p[|p| - 1] == PAD && p[..|p| - 1] == t + Repeat(PAD, n - 1);
      StripPadsAfter(t, n - 1);
    } else {
      assert p == t;
    }
  }

  /** The encoder writes the URL-safe symbol of every sextet and nothing else. */
  lemma EncodeIsSymbols(b: Bytes)
    ensures BytesToBase64Url(b) == UrlSymbols(Sextets(b))
  {
    var ds := Sextets(b);
    var n := |Padding(|b|)|;
    assert Replace(Replace(Btoa(b), PLUS, DASH), SLASH, UNDERSCORE) == UrlSymbols(ds) + Repeat(PAD, n);
    StripPadsAfter(UrlSymbols(ds), n);
  }

  lemma {:induction false} NothingToRemove(t: Text)
    requires forall i :: 0 <= i < |t| ==> !IsAsciiWhitespace(t[i])
    ensures WithoutWhitespace(t) == t
  {
    if t != [] {
      NothingToRemove(t[1..]);
    }
  }

  lemma PaddingRemoved(t: Text, n: nat)
    requires forall i :: 0 <= i < |t| ==> t[i] != PAD
    requires n <= 2 && (|t| + n) % 4 == 0
    ensures WithoutPadding(t + Repeat(PAD, n)) == t
  {
    var p := t + Repeat(PAD, n);
    if n == 1 {
      assert p[|p| - 2] == t[|t| - 1];
    }
    assert p[..|t|] == t;
  }

  lemma DigitsOfUrl(t: Text, ds: seq<Sextet>)
    requires |t| == |ds| && forall i :: 0 <= i < |t| ==> t[i] == UrlSymbol(ds[i])
    ensures var u := FromUrl(t);
            && u == Symbols(ds) && Digits(u) == Some(ds)
            && (forall i :: 0 <= i < |u| ==> !IsAsciiWhitespace(u[i]) && u[i] != PAD)
  {
    var u := FromUrl(t);
    assert forall i :: 0 <= i < |u| ==> u[i] == Symbol(ds[i]) && SextetOf(u[i]) == Some(ds[i]);
    assert Digits(u).value == ds;
  }

  /** Three padding characters are one more than the platform takes off, and the rest is no symbol. */
  lemma OverpaddedFails(u: Text)
    requires |u| % 4 == 1 && forall i :: 0 <= i < |u| ==> u[i] != PAD && !IsAsciiWhitespace(u[i])
    ensures Atob(u + Repeat(PAD, 3)) == None
  {
    var padded := u + Repeat(PAD, 3);
    NothingToRemove(padded);
    assert |padded| % 4 == 0 && padded[|padded| - 1] == PAD && padded[|padded| - 2] == PAD;
    var s := padded[..|padded| - 2];
    assert WithoutPadding(padded) == s;
    assert s[|s| - 1] == PAD && SextetOf(PAD).None?;
  }

  lemma PaddedDecodes(u: Text, ds: seq<Sextet>, n: nat)
    requires Decodable(u, ds, n)
    ensures Atob(u + Repeat(PAD, n)) == Some(Octets(ds))
  {
    NothingToRemove(u + Repeat(PAD, n));
    PaddingRemoved(u, n);
  }

  lemma PadCount(n: nat)
    ensures n % 4 == 1 ==> PadLength(n) == 3
    ensures n % 4 != 1 ==> PadLength(n) <= 2 && (n + PadLength(n)) % 4 == 0
  {
  }

  /** One symbol left over is an error. */
  lemma DecodeOverlong(ds: seq<Sextet>)
    requires |ds| % 4 == 1
    ensures Base64UrlToBytes(UrlSymbols(ds)) == None
  {
    var u := FromUrl(UrlSymbols(ds));
    DigitsOfUrl(UrlSymbols(ds), ds);
    PadCount(|u|);
    OverpaddedFails(u);
  }

  ghost predicate Decodable(u: Text, ds: seq<Sextet>, n: nat) {
    && Digits(u) == Some(ds) && |u| % 4 != 1 && n <= 2 && (|u| + n) % 4 == 0
    && forall i :: 0 <= i < |u| ==> u[i] != PAD && !IsAsciiWhitespace(u[i])
  }

  lemma UrlIsDecodable(ds: seq<Sextet>)
    requires |ds| % 4 != 1
    ensures Decodable(FromUrl(UrlSymbols(ds)), ds, PadLength(|ds|))
  {
    DigitsOfUrl(UrlSymbols(ds), ds);
    PadCount(|ds|);
  }

  /** Otherwise decoding URL-safe symbols gives the octets of their sextets. */
  lemma DecodeSymbols(ds: seq<Sextet>)
    requires |ds| % 4 != 1
    ensures Base64UrlToBytes(UrlSymbols(ds)) == Some(Octets(ds))
  {
    UrlIsDecodable(ds);
    PaddedDecodes(FromUrl(UrlSymbols(ds)), ds, PadLength(|ds|));
  }

  // ---------------------------------------------------------------- round trips

  /** Decoding undoes encoding, for every byte string. */
  lemma RoundTrip(b: Bytes)
    ensures Base64UrlToBytes(BytesToBase64Url(b)) == Some(b)
  {
    EncodeIsSymbols(b);
    var ds := Sextets(b);
    SextetCount(b);
    OctetsOfSextets(b);
    assert |ds| % 4 != 1;
    DecodeSymbols(ds);
  }

  /** Four symbols for three bytes, rounded up. */
  lemma EncodedLength(b: Bytes)
    ensures |BytesToBase64Url(b)| == (4 * |b| + 2) / 3
  {
    EncodeIsSymbols(b);
    SextetCount(b);
  }

  lemma EncoderIsInjective(a: Bytes, b: Bytes)
    requires BytesToBase64Url(a) == BytesToBase64Url(b)
    ensures a == b
  {
    RoundTrip(a);
    RoundTrip(b);
  }

  /** The bits a last, incomplete group does not use. */
  predicate SpareBitsZero(ds: seq<Sextet>) {
    && (|ds| % 4 == 2 ==> ds[|ds| - 1] % 16 == 0)
    && (|ds| % 4 == 3 ==> ds[|ds| - 1] % 4 == 0)
  }

  lemma FirstSextets(b: Bytes, rest: Bytes)
    requires 3 <= |b| && b[3..] == rest
    ensures Sextets(b) == [S1(b[0]), S2(b[0], b[1]), S3(b[1], b[2]), S4(b[2])] + Sextets(rest)
  {
  }

  lemma SextetsOfGroup(ds: seq<Sextet>)
    requires 4 <= |ds|
    ensures Sextets(Octets(ds)) == ds[..4] + Sextets(Octets(ds[4..]))
  {
    FirstOctets(ds, ds[4..]);
    var b := Octets(ds);
    assert b[3..] == Octets(ds[4..]);
    FirstSextets(b, Octets(ds[4..]));
    GroupBackAndForth(ds[0], ds[1], ds[2], ds[3]);
    assert ds[..4] == [ds[0], ds[1], ds[2], ds[3]];
  }

  lemma SpareTwo(d0: Sextet, d1: Sextet, zero: Byte)
    requires zero == 0
    ensures S1(O1(d0, d1)) == d0 && (S2(O1(d0, d1), zero) == d1 <==> d1 % 16 == 0)
  {
  }

  lemma SpareThree(d0: Sextet, d1: Sextet, d2: Sextet, zero: Byte)
    requires zero == 0
    ensures S1(O1(d0, d1)) == d0 && S2(O1(d0, d1), O2(d1, d2)) == d1 && (S3(O2(d1, d2), zero) == d2 <==> d2 % 4 == 0)
  {
  }

  lemma LastGroupBackAndForth(ds: seq<Sextet>, zero: Byte)
    requires |ds| < 4 && |ds| != 1 && zero == 0
    ensures Sextets(Octets(ds)) == ds <==> SpareBitsZero(ds)
  {
    LastOctets(ds);
    LastSextets(Octets(ds), zero);
    if |ds| == 2 {
      SpareTwo(ds[0], ds[1], zero);
    } else if |ds| == 3 {
      SpareThree(ds[0], ds[1], ds[2], zero);
    }
  }

  lemma {:induction false} SextetsOfOctets(ds: seq<Sextet>)
    requires |ds| % 4 != 1
    ensures Sextets(Octets(ds)) == ds <==> SpareBitsZero(ds)
    decreases |ds|
  {
    if |ds| >= 4 {
      SextetsOfGroup(ds);
      DropGroup(|ds|, 4);
      SextetsOfOctets(ds[4..]);
      assert ds == ds[..4] + ds[4..];
      SameTail(ds[..4], Sextets(Octets(ds[4..])), ds[4..]);
      assert SpareBitsZero(ds[4..]) <==> SpareBitsZero(ds) by {
        if |ds| > 4 {
          assert ds[4..][|ds| - 5] == ds[|ds| - 1];
        }
      }
    } else {
      LastGroupBackAndForth(ds, 0);
    }
  }

  lemma SameTail(head: seq<Sextet>, xs: seq<Sextet>, ys: seq<Sextet>)
    ensures head + xs == head + ys <==> xs == ys
  {
    assert (head + xs)[|head|..] == xs && (head + ys)[|head|..] == ys;
  }

  lemma UrlSymbolsInjective(ds: seq<Sextet>, es: seq<Sextet>)
    requires UrlSymbols(ds) == UrlSymbols(es)
    ensures ds == es
  {
    forall i | 0 <= i < |ds|
      ensures ds[i] == es[i]
    {
      assert UrlSymbols(ds)[i] == UrlSymbol(ds[i]) && UrlSymbols(es)[i] == UrlSymbol(es[i]);
    }
  }

  lemma SymbolsReencodeExactlyWhen(ds: seq<Sextet>)
    requires |ds| % 4 != 1
    ensures Base64UrlToBytes(UrlSymbols(ds)).Some?
    ensures BytesToBase64Url(Base64UrlToBytes(UrlSymbols(ds)).value) == UrlSymbols(ds) <==> SpareBitsZero(ds)
  {
    DecodeSymbols(ds);
    EncodeIsSymbols(Octets(ds));
    SextetsOfOctets(ds);
    if UrlSymbols(Sextets(Octets(ds))) == UrlSymbols(ds) {
      UrlSymbolsInjective(Sextets(Octets(ds)), ds);
    }
  }

  /** The text has the URL-safe alphabet alone, and zero bits where the last group has spare ones. */
  ghost predicate IsCanonical(t: Text) {
    exists ds :: IsSpelling(t, ds)
  }

  predicate IsSpelling(t: Text, ds: seq<Sextet>) {
    t == UrlSymbols(ds) && |ds| % 4 != 1 && SpareBitsZero(ds)
  }

  lemma EncodingIsCanonical(b: Bytes)
    ensures IsSpelling(BytesToBase64Url(b), Sextets(b))
  {
    EncodeIsSymbols(b);
    SextetCount(b);
    OctetsOfSextets(b);
    SextetsOfOctets(Sextets(b));
  }

  /**
   Encoding undoes decoding exactly for the canonical texts. The decoder also takes others, with
   spare bits, padding, white space or the standard alphabet, so several texts can stand for the
   same bytes.
   */
  lemma ReencodesExactlyWhen(t: Text)
    ensures Base64UrlToBytes(t).Some? && BytesToBase64Url(Base64UrlToBytes(t).value) == t <==> IsCanonical(t)
  {
    if Base64UrlToBytes(t).Some? && BytesToBase64Url(Base64UrlToBytes(t).value) == t {
      EncodingIsCanonical(Base64UrlToBytes(t).value);
    }
    if IsCanonical(t) {
      var ds :| IsSpelling(t, ds);
      SymbolsReencodeExactlyWhen(ds);
    }
  }

  /** It happens: "QQ==" decodes, like "QQ", to the letter A. */
  lemma PaddedTextDecodes(t: Text)
    requires t == [0x51, 0x51, PAD, PAD]
    ensures Base64UrlToBytes(t) == Some([0x41]) && !IsCanonical(t)
  {
    var u := [0x51, 0x51];
    var ds: seq<Sextet> := [16, 16];
    assert u == UrlSymbols(ds);
    assert FromUrl(t) == t && FromUrl(u) == u;
    UrlIsDecodable(ds);
    PaddedDecodes(u, ds, 2);
    assert t == u + Repeat(PAD, 2) && t + Repeat(PAD, PadLength(4)) == t;
    assert u + Repeat(PAD, PadLength(2)) == t;
    assert Octets(ds) == [0x41];
    forall es
      ensures !IsSpelling(t, es)
    {
      PadIsNoSymbol(t, es, 2);
    }
  }

  lemma PadIsNoSymbol(t: Text, ds: seq<Sextet>, i: nat)
    requires i < |t| && t[i] == PAD
    ensures t != UrlSymbols(ds)
  {
    if i < |ds| {
      assert UrlSymbols(ds)[i] == UrlSymbol(ds[i]);
    }
  }

  // ---------------------------------------------------------------- the bounded decoder

  /** Never more than was asked for. */
  lemma BoundedNeverExceeds(input: Text, maxBytes: nat)
    ensures DecodeBounded(input, maxBytes).Ok? ==> |DecodeBounded(input, maxBytes).value| <= maxBytes
  {
  }

  /** An encoding is accepted exactly when its bytes fit, and then decodes to them. */
  lemma BoundedAcceptsExactly(b: Bytes, maxBytes: nat)
    ensures DecodeBounded(BytesToBase64Url(b), maxBytes).Ok? <==> |b| <= maxBytes
    ensures |b| <= maxBytes ==> DecodeBounded(BytesToBase64Url(b), maxBytes) == Ok(b)
  {
    RoundTrip(b);
    EncodedLength(b);
  }

  // ---------------------------------------------------------------- white space

  lemma {:induction false} WithoutWhitespaceConcat(s: Text, t: Text)
    ensures WithoutWhitespace(s + t) == WithoutWhitespace(s) + WithoutWhitespace(t)
  {
    if s == [] {
      assert s + t == t;
    } else {
      assert (s + t)[0] == s[0] && (s + t)[1..] == s[1..] + t;
      WithoutWhitespaceConcat(s[1..], t);
    }
  }

  /** Tab, line feed, form feed, carriage return and space. */
  predicate IsBlank(t: Text) {
    forall u <- t :: u in [0x9, 0xA, 0xC, 0xD, 0x20]
  }

  lemma {:induction false} BlankVanishes(t: Text)
    requires IsBlank(t)
    ensures WithoutWhitespace(t) == []
  {
    if t != [] {
      assert t[0] in t && forall u <- t[1..] :: u in t;
      BlankVanishes(t[1..]);
    }
  }

  lemma BlankIsSkipped(s: Text, blank: Text, t: Text)
    requires IsBlank(blank)
    ensures WithoutWhitespace(s + blank + t) == WithoutWhitespace(s + t)
  {
    assert s + blank + t == s + (blank + t);
    WithoutWhitespaceConcat(s, blank + t);
    WithoutWhitespaceConcat(blank, t);
    WithoutWhitespaceConcat(s, t);
    BlankVanishes(blank);
  }

  lemma BlankIsItself(s: Text, blank: Text, t: Text)
    requires IsBlank(blank)
    ensures FromUrl(s + blank + t) == FromUrl(s) + blank + FromUrl(t) && FromUrl(s + t) == FromUrl(s) + FromUrl(t)
  {
    assert forall i :: 0 <= i < |blank| ==> blank[i] in blank;
  }

  lemma SameWithoutWhitespace(s: Text, t: Text)
    requires WithoutWhitespace(s) == WithoutWhitespace(t)
    ensures Atob(s) == Atob(t)
  {
  }

  /** White space is skipped wherever it stands, but counts when padding is added: four of them change nothing. */
  lemma FourBlanksAreSkipped(s: Text, blank: Text, t: Text)
    requires IsBlank(blank) && |blank| == 4
    ensures Base64UrlToBytes(s + blank + t) == Base64UrlToBytes(s + t)
  {
    var u, v, pads := FromUrl(s), FromUrl(t), Repeat(PAD, PadLength(|s + t|));
    BlankIsItself(s, blank, t);
    assert PadLength(|s + blank + t|) == PadLength(|s + t|);
    assert u + blank + v + pads == u + blank + (v + pads) && u + v + pads == u + (v + pads);
    BlankIsSkipped(u, blank, v + pads);
    SameWithoutWhitespace(u + blank + v + pads, u + v + pads);
  }

  // ---------------------------------------------------------------- the text itself

  lemma OneByte(b: Bytes)
    requires |b| == 1
    ensures BytesToBase64Url(b) == [UrlSymbol(S1(b[0])), UrlSymbol(S2(b[0], 0))]
  {
    EncodeIsSymbols(b);
  }

  lemma TwoBytes(b: Bytes)
    requires |b| == 2
    ensures BytesToBase64Url(b) == [UrlSymbol(S1(b[0])), UrlSymbol(S2(b[0], b[1])), UrlSymbol(S3(b[1], 0))]
  {
    EncodeIsSymbols(b);
  }

  lemma ThreeBytes(b: Bytes)
    requires |b| == 3
    ensures BytesToBase64Url(b) == [UrlSymbol(S1(b[0])), UrlSymbol(S2(b[0], b[1])), UrlSymbol(S3(b[1], b[2])), UrlSymbol(S4(b[2]))]
  {
    EncodeIsSymbols(b);
    assert Sextets(b[3..]) == [];
  }

  /** Examples from section 10 of RFC 4648, and the two symbols of the URL-safe alphabet. */
  lemma EncodingsAre(f: Bytes, fo: Bytes, foo: Bytes, high: Bytes)
    requires f == [0x66] && fo == [0x66, 0x6F] && foo == [0x66, 0x6F, 0x6F] && high == [0xFB, 0xFF]
    ensures Spells(BytesToBase64Url(f), "Zg") && Spells(BytesToBase64Url(fo), "Zm8") && Spells(BytesToBase64Url(foo), "Zm9v")
    ensures Spells(BytesToBase64Url(high), "-_8")
  {
    OneByte(f);
    TwoBytes(fo);
    ThreeBytes(foo);
    TwoBytes(high);
  }
}
