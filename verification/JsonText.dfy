/**
 How JSON.stringify writes flat objects of strings and nulls (section 25.5.2 of ECMA-262), and
 why no two of them are written the same way.
 */
module JsonText {
  import opened Prelude
  import opened Unicode

  const QUOTE: CodeUnit := 0x22
  const BACKSLASH: CodeUnit := 0x5C
  const COLON: CodeUnit := 0x3A
  const COMMA: CodeUnit := 0x2C
  const OPEN_BRACE: CodeUnit := 0x7B
  const CLOSE_BRACE: CodeUnit := 0x7D
  const LOWER_U: CodeUnit := 0x75

  // ---------------------------------------------------------------- quoting

  /** The letter of a two-character escape: \\b \\t \\n \\f \\r \\" \\\\. */
  function ShortEscape(u: CodeUnit): Option<CodeUnit> {
    if u == 0x8 then Some(0x62)
    else if u == 0x9 then Some(0x74)
    else if u == 0xA then Some(0x6E)
    else if u == 0xC then Some(0x66)
    else if u == 0xD then Some(0x72)
    else if u == QUOTE then Some(QUOTE)
    else if u == BACKSLASH then Some(BACKSLASH)
    else None
  }

  function HexDigit(d: int): CodeUnit
    requires 0 <= d < 16
  {
    if d < 10 then 0x30 + d else 0x61 + d - 10
  }

  function UnicodeEscape(u: CodeUnit): Text {
    [BACKSLASH, LOWER_U, HexDigit(u / 0x1000), HexDigit(u / 0x100 % 0x10), HexDigit(u / 0x10 % 0x10), HexDigit(u % 0x10)]
  }

  /** A code unit that is not part of a surrogate pair. */
  function EscapeUnit(u: CodeUnit): Text {
    if ShortEscape(u).Some? then [BACKSLASH, ShortEscape(u).value]
    else if u < 0x20 || IsSurrogate(u) then UnicodeEscape(u)
    else [u]
  }

  function Escape(t: Text): Text {
    if t == [] then []
    else if StartsWithPair(t) then [t[0], t[1]] + Escape(t[2..])
    else EscapeUnit(t[0]) + Escape(t[1..])
  }

  function Quoted(t: Text): Text {
    [QUOTE] + Escape(t) + [QUOTE]
  }

  // ---------------------------------------------------------------- a quoted string ends where it says

  /** What escaping takes off the front of a text, and what it writes for that. */
  function Front(t: Text): Text
    requires t != []
  {
    if StartsWithPair(t) then [t[0], t[1]] else [t[0]]
  }

  function EscapedFront(t: Text): (e: Text)
    requires t != []
  {
    if StartsWithPair(t) then [t[0], t[1]] else EscapeUnit(t[0])
  }

  function AfterFront(t: Text): Text
    requires t != []
  {
    t[|Front(t)|..]
  }

  lemma EscapeFront(t: Text)
    requires t != []
    ensures t == Front(t) + AfterFront(t)
    ensures Escape(t) == EscapedFront(t) + Escape(AfterFront(t))
  {
  }

  lemma EscapedUnitHead(u: CodeUnit)
    ensures EscapeUnit(u) != [] && EscapeUnit(u)[0] != QUOTE && !IsSurrogate(EscapeUnit(u)[0])
  {
  }

  lemma HexDigitInjective(a: int, b: int)
    requires 0 <= a < 16 && 0 <= b < 16 && HexDigit(a) == HexDigit(b)
    ensures a == b
  {
  }

  lemma HexDigitsAddUp(u: CodeUnit)
    ensures u / 0x1000 * 0x1000 + u / 0x100 % 0x10 * 0x100 + u / 0x10 % 0x10 * 0x10 + u % 0x10 == u
    ensures 0 <= u / 0x1000 < 16
  {
    assert u / 0x10 == u / 0x100 * 0x10 + u / 0x10 % 0x10;
    assert u / 0x100 == u / 0x1000 * 0x10 + u / 0x100 % 0x10;
  }

  lemma UnicodeEscapeInjective(u: CodeUnit, v: CodeUnit)
    requires UnicodeEscape(u) == UnicodeEscape(v)
    ensures u == v
  {
    var a, b := UnicodeEscape(u), UnicodeEscape(v);
    assert a[2] == b[2] && a[3] == b[3] && a[4] == b[4] && a[5] == b[5];
    HexDigitsAddUp(u);
    HexDigitsAddUp(v);
    HexDigitInjective(u / 0x1000, v / 0x1000);
    HexDigitInjective(u / 0x100 % 0x10, v / 0x100 % 0x10);
    HexDigitInjective(u / 0x10 % 0x10, v / 0x10 % 0x10);
    HexDigitInjective(u % 0x10, v % 0x10);
  }

  predicate IsLong(u: CodeUnit) {
    ShortEscape(u).None? && (u < 0x20 || IsSurrogate(u))
  }

  /** The first two characters of an escape decide its length. */
  lemma EscapeLengths(u: CodeUnit, v: CodeUnit, x: Text, y: Text)
    requires EscapeUnit(u) + x == EscapeUnit(v) + y
    ensures |EscapeUnit(u)| == |EscapeUnit(v)|
  {
    var a, b := EscapeUnit(u) + x, EscapeUnit(v) + y;
    assert a[0] == EscapeUnit(u)[0] && b[0] == EscapeUnit(v)[0];
    if |EscapeUnit(u)| > 1 && |EscapeUnit(v)| > 1 {
      assert a[1] == EscapeUnit(u)[1] && b[1] == EscapeUnit(v)[1];
    }
  }

  lemma SplitSame(a: Text, x: Text, b: Text, y: Text)
    requires a + x == b + y && |a| == |b|
    ensures a == b && x == y
  {
    assert a == (a + x)[..|a|] && b == (b + y)[..|b|];
    assert x == (a + x)[|a|..] && y == (b + y)[|b|..];
  }

  lemma Assoc(a: Text, b: Text, c: Text)
    ensures a + b + c == a + (b + c)
  {
  }

  lemma AssocFour(a: Text, b: Text, c: Text, d: Text)
    ensures a + b + c + d == a + (b + (c + d))
  {
  }

  lemma UnitsPrefixFree(u: CodeUnit, v: CodeUnit, x: Text, y: Text)
    requires EscapeUnit(u) + x == EscapeUnit(v) + y
    ensures u == v && x == y
  {
    EscapeLengths(u, v, x, y);
    SplitSame(EscapeUnit(u), x, EscapeUnit(v), y);
    if IsLong(u) {
      UnicodeEscapeInjective(u, v);
    }
  }

  lemma FrontsPrefixFree(s: Text, t: Text, x: Text, y: Text)
    requires s != [] && t != [] && EscapedFront(s) + x == EscapedFront(t) + y
    ensures Front(s) == Front(t) && x == y
  {
    EscapedUnitHead(s[0]);
    EscapedUnitHead(t[0]);
    assert (EscapedFront(s) + x)[0] == EscapedFront(s)[0] && (EscapedFront(t) + y)[0] == EscapedFront(t)[0];
    if StartsWithPair(s) {
      SplitSame(EscapedFront(s), x, EscapedFront(t), y);
    } else {
      UnitsPrefixFree(s[0], t[0], x, y);
    }
  }

  lemma EscapeNeverStartsWithQuote(t: Text, x: Text)
    requires t != []
    ensures (Escape(t) + x)[0] != QUOTE
  {
    EscapeFront(t);
    EscapedUnitHead(t[0]);
    assert (Escape(t) + x)[0] == EscapedFront(t)[0];
  }

  /** Whatever follows the closing quotes, equal texts were escaped from equal strings. */
  lemma {:induction false} EscapesPrefixFree(s: Text, t: Text, x: Text, y: Text)
    requires x != [] && y != [] && x[0] == y[0] == QUOTE
    requires Escape(s) + x == Escape(t) + y
    ensures s == t && x == y
    decreases |s|
  {
    if s == [] || t == [] {
      if s != [] {
        EscapeNeverStartsWithQuote(s, x);
      }
      if t != [] {
        EscapeNeverStartsWithQuote(t, y);
      }
      assert Escape(s) + x == x && Escape(t) + y == y;
    } else {
      EscapeFront(s);
      EscapeFront(t);
      var u, v := Escape(AfterFront(s)) + x, Escape(AfterFront(t)) + y;
      Assoc(EscapedFront(s), Escape(AfterFront(s)), x);
      Assoc(EscapedFront(t), Escape(AfterFront(t)), y);
      FrontsPrefixFree(s, t, u, v);
      EscapesPrefixFree(AfterFront(s), AfterFront(t), x, y);
    }
  }

  lemma QuotedPrefixFree(s: Text, t: Text, x: Text, y: Text)
    requires Quoted(s) + x == Quoted(t) + y
    ensures s == t && x == y
  {
    AssocFour([QUOTE], Escape(s), [QUOTE], x);
    AssocFour([QUOTE], Escape(t), [QUOTE], y);
    SplitSame([QUOTE], Escape(s) + ([QUOTE] + x), [QUOTE], Escape(t) + ([QUOTE] + y));
    EscapesPrefixFree(s, t, [QUOTE] + x, [QUOTE] + y);
    SplitSame([QUOTE], x, [QUOTE], y);
  }

  // ---------------------------------------------------------------- flat objects

  datatype Scalar = Null | String(text: Text)

  datatype Member = Member(name: Text, value: Scalar)

  const NULL_TEXT: Text := [0x6E, 0x75, 0x6C, 0x6C]

  function RenderScalar(v: Scalar): Text {
    if v.Null? then NULL_TEXT else Quoted(v.text)
  }

  function RenderMember(m: Member): Text {
    Quoted(m.name) + [COLON] + RenderScalar(m.value)
  }

  function RenderMembers(ms: seq<Member>): Text {
    if ms == [] then []
    else if |ms| == 1 then RenderMember(ms[0])
    else RenderMember(ms[0]) + [COMMA] + RenderMembers(ms[1..])
  }

  function RenderObject(ms: seq<Member>): Text {
    [OPEN_BRACE] + RenderMembers(ms) + [CLOSE_BRACE]
  }

  lemma ScalarsPrefixFree(v: Scalar, w: Scalar, x: Text, y: Text)
    requires RenderScalar(v) + x == RenderScalar(w) + y
    ensures v == w && x == y
  {
    assert (RenderScalar(v) + x)[0] == RenderScalar(v)[0] && (RenderScalar(w) + y)[0] == RenderScalar(w)[0];
    if v.Null? {
      SplitSame(NULL_TEXT, x, NULL_TEXT, y);
    } else {
      QuotedPrefixFree(v.text, w.text, x, y);
    }
  }

  lemma MembersPrefixFree(m: Member, n: Member, x: Text, y: Text)
    requires RenderMember(m) + x == RenderMember(n) + y
    ensures m == n && x == y
  {
    var u, v := RenderScalar(m.value) + x, RenderScalar(n.value) + y;
    AssocFour(Quoted(m.name), [COLON], RenderScalar(m.value), x);
    AssocFour(Quoted(n.name), [COLON], RenderScalar(n.value), y);
    QuotedPrefixFree(m.name, n.name, [COLON] + u, [COLON] + v);
    SplitSame([COLON], u, [COLON], v);
    ScalarsPrefixFree(m.value, n.value, x, y);
  }

  /** A member list, then the closing brace: what is left after the first member. */
  function AfterFirst(ms: seq<Member>): Text
    requires ms != []
  {
    if |ms| == 1 then [CLOSE_BRACE] else [COMMA] + (RenderMembers(ms[1..]) + [CLOSE_BRACE])
  }

  lemma FirstMember(ms: seq<Member>)
    requires ms != []
    ensures RenderMembers(ms) + [CLOSE_BRACE] == RenderMember(ms[0]) + AfterFirst(ms)
  {
    if |ms| > 1 {
      AssocFour(RenderMember(ms[0]), [COMMA], RenderMembers(ms[1..]), [CLOSE_BRACE]);
    }
  }

  /** The character after a member says whether there are more. */
  lemma SameEnding(ms: seq<Member>, ns: seq<Member>)
    requires ms != [] && ns != [] && AfterFirst(ms) == AfterFirst(ns)
    ensures |ms| == 1 <==> |ns| == 1
    ensures |ms| > 1 ==> RenderMembers(ms[1..]) + [CLOSE_BRACE] == RenderMembers(ns[1..]) + [CLOSE_BRACE]
  {
    assert AfterFirst(ms)[0] == AfterFirst(ns)[0];
    if |ms| > 1 {
      SplitSame([COMMA], RenderMembers(ms[1..]) + [CLOSE_BRACE], [COMMA], RenderMembers(ns[1..]) + [CLOSE_BRACE]);
    }
  }

  lemma FirstsAgree(ms: seq<Member>, ns: seq<Member>)
    requires ms != [] && ns != [] && RenderMembers(ms) + [CLOSE_BRACE] == RenderMembers(ns) + [CLOSE_BRACE]
    ensures ms[0] == ns[0]
    ensures |ms| == 1 <==> |ns| == 1
    ensures |ms| > 1 ==> RenderMembers(ms[1..]) + [CLOSE_BRACE] == RenderMembers(ns[1..]) + [CLOSE_BRACE]
  {
    FirstMember(ms);
    FirstMember(ns);
    MembersPrefixFree(ms[0], ns[0], AfterFirst(ms), AfterFirst(ns));
    SameEnding(ms, ns);
  }

  lemma SameFirstAndRest(ms: seq<Member>, ns: seq<Member>)
    requires ms != [] && ns != [] && ms[0] == ns[0] && ms[1..] == ns[1..]
    ensures ms == ns
  {
    assert ms == [ms[0]] + ms[1..] && ns == [ns[0]] + ns[1..];
  }

  lemma {:induction false} ListsInjective(ms: seq<Member>, ns: seq<Member>)
    requires ms != [] && ns != [] && RenderMembers(ms) + [CLOSE_BRACE] == RenderMembers(ns) + [CLOSE_BRACE]
    ensures ms == ns
    decreases |ms|
  {
    FirstsAgree(ms, ns);
    if |ms| > 1 {
      ListsInjective(ms[1..], ns[1..]);
    }
    SameFirstAndRest(ms, ns);
  }

  /** No two member lists are written the same way. */
  lemma RenderingIsInjective(ms: seq<Member>, ns: seq<Member>)
    requires ms != [] && ns != [] && RenderObject(ms) == RenderObject(ns)
    ensures ms == ns
  {
    Assoc([OPEN_BRACE], RenderMembers(ms), [CLOSE_BRACE]);
    Assoc([OPEN_BRACE], RenderMembers(ns), [CLOSE_BRACE]);
    SplitSame([OPEN_BRACE], RenderMembers(ms) + [CLOSE_BRACE], [OPEN_BRACE], RenderMembers(ns) + [CLOSE_BRACE]);
    ListsInjective(ms, ns);
  }

  // ---------------------------------------------------------------- the text has no lone surrogate

  lemma EscapedUnitIsWellFormed(u: CodeUnit)
    ensures WellFormed(EscapeUnit(u))
  {
    if ShortEscape(u).Some? {
      PlainIsWellFormed([BACKSLASH, ShortEscape(u).value]);
    } else if u < 0x20 || IsSurrogate(u) {
      PlainIsWellFormed(UnicodeEscape(u));
    } else {
      PlainIsWellFormed([u]);
    }
  }

  lemma {:induction false} PlainIsWellFormed(t: Text)
    requires forall i :: 0 <= i < |t| ==> !IsSurrogate(t[i])
    ensures WellFormed(t)
  {
    if t != [] {
      PlainIsWellFormed(t[1..]);
    }
  }

  lemma {:induction false} EscapeIsWellFormed(t: Text)
    ensures WellFormed(Escape(t))
    decreases |t|
  {
    if t != [] {
      if StartsWithPair(t) {
        EscapeIsWellFormed(t[2..]);
        assert Escape(t)[2..] == Escape(t[2..]);
      } else {
        EscapedUnitIsWellFormed(t[0]);
        EscapeIsWellFormed(t[1..]);
        WellFormedConcat(EscapeUnit(t[0]), Escape(t[1..]));
      }
    }
  }

  lemma QuotedIsWellFormed(t: Text)
    ensures WellFormed(Quoted(t))
  {
    EscapeIsWellFormed(t);
    PlainIsWellFormed([QUOTE]);
    WellFormedConcat([QUOTE], Escape(t));
    WellFormedConcat([QUOTE] + Escape(t), [QUOTE]);
  }

  lemma MemberIsWellFormed(m: Member)
    ensures WellFormed(RenderMember(m))
  {
    QuotedIsWellFormed(m.name);
    PlainIsWellFormed([COLON]);
    PlainIsWellFormed(NULL_TEXT);
    if m.value.String? {
      QuotedIsWellFormed(m.value.text);
    }
    WellFormedConcat(Quoted(m.name), [COLON]);
    WellFormedConcat(Quoted(m.name) + [COLON], RenderScalar(m.value));
  }

  lemma {:induction false} MembersAreWellFormed(ms: seq<Member>)
    ensures WellFormed(RenderMembers(ms))
    decreases |ms|
  {
    if ms != [] {
      MemberIsWellFormed(ms[0]);
      if |ms| > 1 {
        MembersAreWellFormed(ms[1..]);
        PlainIsWellFormed([COMMA]);
        WellFormedConcat(RenderMember(ms[0]), [COMMA]);
        WellFormedConcat(RenderMember(ms[0]) + [COMMA], RenderMembers(ms[1..]));
      }
    }
  }

  lemma ObjectIsWellFormed(ms: seq<Member>)
    ensures WellFormed(RenderObject(ms))
  {
    MembersAreWellFormed(ms);
    PlainIsWellFormed([OPEN_BRACE]);
    PlainIsWellFormed([CLOSE_BRACE]);
    WellFormedConcat([OPEN_BRACE], RenderMembers(ms));
    WellFormedConcat([OPEN_BRACE] + RenderMembers(ms), [CLOSE_BRACE]);
  }

  /** So no two member lists have the same UTF-8 bytes. */
  lemma BytesAreInjective(ms: seq<Member>, ns: seq<Member>)
    requires ms != [] && ns != [] && StringToBytes(RenderObject(ms)) == StringToBytes(RenderObject(ns))
    ensures ms == ns
  {
    ObjectIsWellFormed(ms);
    ObjectIsWellFormed(ns);
    EncodingIsInjective(RenderObject(ms), RenderObject(ns));
    RenderingIsInjective(ms, ns);
  }

  // ---------------------------------------------------------------- the text itself

  /** Neither a control character, nor a quote or backslash, nor a surrogate. */
  predicate IsPlain(t: Text) {
    forall u <- t :: u >= 0x20 && u != QUOTE && u != BACKSLASH && !IsSurrogate(u)
  }

  function InQuotes(t: Text): Text {
    [0x22] + t + [0x22]
  }

  lemma PlainFront(t: Text)
    requires IsPlain(t) && t != []
    ensures !IsSurrogate(t[0]) && EscapeUnit(t[0]) == [t[0]] && IsPlain(t[1..])
  {
    assert t[0] in t && forall u <- t[1..] :: u in t;
  }

  lemma {:induction false} PlainEscapesToItself(t: Text)
    requires IsPlain(t)
    ensures Escape(t) == t
  {
    if t != [] {
      PlainFront(t);
      PlainEscapesToItself(t[1..]);
    }
  }

  lemma PlainMember(name: Text, value: Text)
    requires IsPlain(name) && IsPlain(value)
    ensures RenderMember(Member(name, String(value))) == InQuotes(name) + [COLON] + InQuotes(value)
  {
    PlainEscapesToItself(name);
    PlainEscapesToItself(value);
  }

  lemma FourRendered(a: Member, b: Member, c: Member, d: Member)
    ensures RenderObject([a, b, c, d]) ==
            [OPEN_BRACE] + (RenderMember(a) + [COMMA] + (RenderMember(b) + [COMMA] + (RenderMember(c) + [COMMA] + RenderMember(d)))) + [CLOSE_BRACE]
  {
    assert [a, b, c, d][1..] == [b, c, d] && [b, c, d][1..] == [c, d] && [c, d][1..] == [d];
    assert RenderMembers([c, d]) == RenderMember(c) + [COMMA] + RenderMember(d);
    assert RenderMembers([b, c, d]) == RenderMember(b) + [COMMA] + RenderMembers([c, d]);
    assert RenderMembers([a, b, c, d]) == RenderMember(a) + [COMMA] + RenderMembers([b, c, d]);
  }

  lemma ShortEscapesAre()
    ensures Spells(EscapeUnit(0x8), "\\b") && Spells(EscapeUnit(0x9), "\\t") && Spells(EscapeUnit(0xA), "\\n")
    ensures Spells(EscapeUnit(0xC), "\\f") && Spells(EscapeUnit(0xD), "\\r")
    ensures Spells(EscapeUnit(0x22), "\\\"") && Spells(EscapeUnit(0x5C), "\\\\")
  {
  }

  lemma LongEscapesAre()
    ensures Spells(EscapeUnit(0x0), "\\u0000") && Spells(EscapeUnit(0xB), "\\u000b") && Spells(EscapeUnit(0x1F), "\\u001f")
    ensures Spells(EscapeUnit(0xD8AB), "\\ud8ab") && Spells(EscapeUnit(0xDFFF), "\\udfff")
  {
  }

  lemma PunctuationIs()
    ensures Spells([OPEN_BRACE, COLON, COMMA, CLOSE_BRACE], "{:,}") && Spells(NULL_TEXT, "null")
  {
  }

  /** Only control characters, quotes, backslashes and lone surrogates are escaped. */
  lemma EscapedExactlyWhen(u: CodeUnit)
    ensures EscapeUnit(u) == [u] <==> u >= 0x20 && u != 0x22 && u != 0x5C && !(0xD800 <= u <= 0xDFFF)
  {
  }
}
