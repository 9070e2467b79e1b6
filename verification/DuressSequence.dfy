/**
 Whether a typed password contains the duress sequence, in work that depends on lengths alone
 (src/emergency/contains-duress-sequence.ts).
 */
module DuressSequence {
  import opened Prelude
  import opened Unicode

  const MAX_DURESS_PASSWORD_LENGTH := 256

  predicate OccursAt(password: seq<CodePoint>, sequence: seq<CodePoint>, start: nat) {
    start + |sequence| <= |password| && password[start..start + |sequence|] == sequence
  }

  predicate Contains(password: seq<CodePoint>, sequence: seq<CodePoint>) {
    exists start :: 0 <= start <= |password| && OccursAt(password, sequence, start)
  }

  /** The accumulators are zeros and ones, combined by `&=` and `|=`. */
  method CompareAt(password: seq<CodePoint>, sequence: seq<CodePoint>, start: nat) returns (matchAtStart: bv1, ghost comparisons: nat)
    requires start + |sequence| <= |password|
    ensures matchAtStart == 1 <==> OccursAt(password, sequence, start)
    ensures comparisons == |sequence|
  {
    matchAtStart, comparisons := 1, 0;
    for offset := 0 to |sequence|
      invariant matchAtStart == 1 <==> password[start..start + offset] == sequence[..offset]
      invariant comparisons == offset
    {
      var equal: bv1 := if password[start + offset] == sequence[offset] then 1 else 0;
      assert password[start..start + offset + 1] == password[start..start + offset] + [password[start + offset]];
      assert sequence[..offset + 1] == sequence[..offset] + [sequence[offset]];
      matchAtStart := matchAtStart & equal;
      comparisons := comparisons + 1;
    }
    assert sequence[..|sequence|] == sequence;
  }

  method SearchAll(password: seq<CodePoint>, sequence: seq<CodePoint>) returns (found: bool, ghost comparisons: nat)
    ensures found <==> Contains(password, sequence)
    ensures comparisons == Work(|password|, |sequence|)
  {
    var maxStart := |password| - |sequence|;
    var hit: bv1 := 0;
    comparisons := 0;
    var start := 0;
    while start <= maxStart
      invariant 0 <= start && (maxStart >= 0 ==> start <= maxStart + 1) && (maxStart < 0 ==> start == 0)
      invariant hit == 1 <==> exists s :: 0 <= s < start && OccursAt(password, sequence, s)
      invariant comparisons == start * |sequence|
    {
      var matchAtStart;
      ghost var done;
      matchAtStart, done := CompareAt(password, sequence, start);
      hit := hit | matchAtStart;
      comparisons := comparisons + done;
      start := start + 1;
    }
    found := hit == 1;
  }

  /** One comparison for every start and every offset. */
  function Work(passwordLength: nat, sequenceLength: nat): nat {
    if passwordLength < sequenceLength then 0 else (passwordLength - sequenceLength + 1) * sequenceLength
  }

  predicate IsDuress(password: Text, sequence: Text) {
    && sequence != [] && |password| <= MAX_DURESS_PASSWORD_LENGTH && |sequence| <= MAX_DURESS_PASSWORD_LENGTH
    && Contains(CodePoints(password), CodePoints(sequence))
  }

  /**
   It answers whether the sequence is a non-empty contiguous run of the password's code points, for
   inputs within the cap, and compares no fewer and no more characters on a hit than on a miss.
   */
  method ContainsDuressSequence(password: Text, sequence: Text) returns (r: bool, ghost comparisons: nat)
    ensures r <==> IsDuress(password, sequence)
    ensures comparisons ==
            if 0 < |sequence| <= |password| <= MAX_DURESS_PASSWORD_LENGTH then Work(|CodePoints(password)|, |CodePoints(sequence)|) else 0
  {
    if sequence == [] || |password| > MAX_DURESS_PASSWORD_LENGTH || |sequence| > MAX_DURESS_PASSWORD_LENGTH {
      return false, 0;
    }
    if |sequence| > |password| {
      LongerNeverOccurs(password, sequence);
      return false, 0;
    }
    r, comparisons := SearchAll(CodePoints(password), CodePoints(sequence));
  }

  lemma OccurrenceSplits(p: seq<CodePoint>, s: seq<CodePoint>, start: nat)
    requires OccursAt(p, s, start)
    ensures p == p[..start] + s + p[start + |s|..]
  {
  }

  lemma SplitOccurs(before: seq<CodePoint>, s: seq<CodePoint>, after: seq<CodePoint>)
    ensures Contains(before + s + after, s)
  {
    assert OccursAt(before + s + after, s, |before|);
  }

  /** The password is something, the sequence, and something again. */
  lemma ContainsExactlyWhen(p: seq<CodePoint>, s: seq<CodePoint>)
    ensures Contains(p, s) <==> exists before, after :: p == before + s + after
  {
    if Contains(p, s) {
      var start :| 0 <= start <= |p| && OccursAt(p, s, start);
      OccurrenceSplits(p, s, start);
    }
    forall before, after | p == before + s + after
      ensures Contains(p, s)
    {
      SplitOccurs(before, s, after);
    }
  }

  /** The cap is 256 units for each, and the sequence must not be empty. */
  lemma DuressExactlyWhen(password: Text, sequence: Text)
    ensures IsDuress(password, sequence) <==> 0 < |sequence| <= 256 && |password| <= 256 && Contains(CodePoints(password), CodePoints(sequence))
  {
  }

  // ---------------------------------------------------------------- the length test is harmless

  /** Code units that code points take. */
  function UnitCount(cs: seq<CodePoint>): nat {
    if cs == [] then 0 else (if cs[0] < 0x1_0000 then 1 else 2) + UnitCount(cs[1..])
  }

  lemma {:induction false} TextLength(t: Text)
    ensures UnitCount(CodePoints(t)) == |t|
  {
    if t != [] {
      if StartsWithPair(t) {
        TextLength(t[2..]);
      } else {
        TextLength(t[1..]);
      }
    }
  }

  lemma {:induction false} UnitCountSplits(a: seq<CodePoint>, b: seq<CodePoint>)
    ensures UnitCount(a + b) == UnitCount(a) + UnitCount(b)
  {
    if a == [] {
      assert a + b == b;
    } else {
      UnitCountSplits(a[1..], b);
      assert (a + b)[1..] == a[1..] + b;
    }
  }

  lemma OccurrenceFits(p: seq<CodePoint>, s: seq<CodePoint>, start: nat)
    requires OccursAt(p, s, start)
    ensures UnitCount(s) <= UnitCount(p)
  {
    UnitCountSplits(p[..start], s);
    UnitCountSplits(p[..start] + s, p[start + |s|..]);
    assert p == p[..start] + s + p[start + |s|..];
  }

  /** A sequence with more code units than the password never occurs in it, so refusing it early changes nothing. */
  lemma LongerNeverOccurs(password: Text, sequence: Text)
    requires |sequence| > |password|
    ensures !Contains(CodePoints(password), CodePoints(sequence))
  {
    TextLength(password);
    TextLength(sequence);
    forall start | 0 <= start <= |CodePoints(password)|
      ensures !OccursAt(CodePoints(password), CodePoints(sequence), start)
    {
      if OccursAt(CodePoints(password), CodePoints(sequence), start) {
        OccurrenceFits(CodePoints(password), CodePoints(sequence), start);
      }
    }
  }

  // ---------------------------------------------------------------- code points

  /** A text without surrogates is its own code points; a pair is one, and what follows is read on its own. */
  lemma {:induction false} CodePointsAre(t: Text, high: CodeUnit, low: CodeUnit)
    requires IsHigh(high) && IsLow(low)
    ensures (forall u <- t :: !IsSurrogate(u)) ==> CodePoints(t) == t
    ensures CodePoints([high, low] + t) == [0x1_0000 + (high - 0xD800) * 0x400 + (low - 0xDC00)] + CodePoints(t)
  {
    assert ([high, low] + t)[2..] == t;
    if t != [] && forall u <- t :: !IsSurrogate(u) {
      assert t[0] in t && forall u <- t[1..] :: u in t;
      CodePointsAre(t[1..], high, low);
      assert t == [t[0]] + t[1..];
    }
  }
}
