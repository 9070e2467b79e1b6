/** What each field of a decision tells a client, exactly (src/rate-limit/fixed-window.ts). */
module FixedWindowDecisions {
  import opened Prelude
  import opened FixedWindowSpec
  import opened FixedWindowTheorems

  /** What a check answers now. */
  function Asked(m: Buckets, c: Config, now: int, key: Key): Decision {
    Simple(m, c, now, Check(key)).decision.value
  }

  /** A key without a bucket, never used or reset, has the whole allowance, for a window from now. */
  lemma NewClientHasMax(m: Buckets, c: Config, now: int, key: Key)
    requires 1 <= c.max && 0 < c.windowMs && 1 <= c.maxBuckets
    ensures key !in m ==> Asked(m, c, now, key) == Decision(true, c.max, now + c.windowMs, 0, false)
    ensures key !in Simple(m, c, now, Reset(key)).buckets
  {
  }

  /**
   A check takes nothing: every later check of any client answers the same but for the end of the
   window, which comes sooner exactly where the check opened a window that a later one would open then.
   */
  lemma ChecksTakeNothing(m: Buckets, c: Config, now: int, key: Key, other: Key, t: int)
    requires 1 <= c.max && 0 < c.windowMs && 1 <= c.maxBuckets && BucketsOk(m, c, now) && now <= t
    ensures var before, after := Asked(m, c, t, other), Asked(Simple(m, c, now, Check(key)).buckets, c, t, other);
            && after.allowed == before.allowed && after.remaining == before.remaining && after.lockedOut == before.lockedOut
            && after.resetAtMs <= before.resetAtMs
            && (after.resetAtMs < before.resetAtMs <==>
                other == key && now < t < now + c.windowMs && View(m, key, c, now) == Fresh(now) && View(m, key, c, t) == Fresh(t))
  {
    ViewOk(m, key, c, now, now);
    ViewOk(m, other, c, now, t);
  }

  // ---------------------------------------------------------------- remaining

  /** `n` consumes at one instant. */
  function Burst(n: nat, now: int, key: Key): (rs: seq<Timed>)
    ensures |rs| == n
  {
    if n == 0 then [] else [Timed(now, Consume(key))] + Burst(n - 1, now, key)
  }

  lemma NothingExpiresAtOnce(m: Buckets, c: Config, now: int, key: Key)
    requires 1 <= c.max && 0 < c.windowMs && 1 <= c.maxBuckets && BucketsOk(m, c, now)
    ensures var after := Simple(m, c, now, Consume(key)).buckets;
            View(after, key, c, now) == Take(View(m, key, c, now), c, now, true).bucket
  {
    ViewOk(m, key, c, now, now);
  }

  /** Each consume leaves one less, and is allowed while any is left. */
  lemma ConsumeTakesOne(m: Buckets, c: Config, now: int, key: Key)
    requires 1 <= c.max && 0 < c.windowMs && 1 <= c.maxBuckets && BucketsOk(m, c, now)
    ensures var before, d := Asked(m, c, now, key), Simple(m, c, now, Consume(key)).decision.value;
            && 0 <= before.remaining <= c.max && (before.allowed <==> before.remaining > 0)
            && (d.allowed <==> before.allowed)
            && d.remaining == (if before.remaining > 0 then before.remaining - 1 else 0)
            && Asked(Simple(m, c, now, Consume(key)).buckets, c, now, key).remaining == d.remaining
  {
    ViewOk(m, key, c, now, now);
    NothingExpiresAtOnce(m, c, now, key);
  }

  lemma FirstOfBurst(m: Buckets, c: Config, now: int, key: Key, n: nat)
    requires n > 0
    ensures SimpleDecisions(m, c, Burst(n, now, key)) ==
            [Simple(m, c, now, Consume(key)).decision.value] + SimpleDecisions(Simple(m, c, now, Consume(key)).buckets, c, Burst(n - 1, now, key))
  {
    FirstDecision(m, c, Timed(now, Consume(key)), Burst(n - 1, now, key));
  }

  /** `remaining` is the number of consumes, at that instant, that are still allowed; each says how many are left after it. */
  lemma {:induction false} RemainingIsExact(m: Buckets, c: Config, now: int, key: Key, n: nat)
    requires 1 <= c.max && 0 < c.windowMs && 1 <= c.maxBuckets && BucketsOk(m, c, now)
    ensures var left, ds := Asked(m, c, now, key).remaining, SimpleDecisions(m, c, Burst(n, now, key));
            && |ds| == n
            && (forall i :: 0 <= i < n ==> (ds[i].allowed <==> i < left))
            && (forall i :: 0 <= i < n ==> ds[i].remaining == if i < left then left - 1 - i else 0)
    decreases n
  {
    if n > 0 {
      var m' := Simple(m, c, now, Consume(key)).buckets;
      FirstOfBurst(m, c, now, key, n);
      ConsumeTakesOne(m, c, now, key);
      SimpleKeepsBuckets(m, c, now, now, Consume(key));
      RemainingIsExact(m', c, now, key, n - 1);
    }
  }

  // ---------------------------------------------------------------- lockouts and the end of the window

  /** A refusal says it is a lockout exactly if lockouts are configured; what is allowed never says so to a check. */
  lemma LockedOutExactlyWhen(m: Buckets, c: Config, now: int, key: Key)
    requires 1 <= c.max && 0 < c.windowMs && 1 <= c.maxBuckets && BucketsOk(m, c, now)
    ensures Asked(m, c, now, key).lockedOut <==> c.lockoutMs.Some? && 0 < c.lockoutMs.value && !Asked(m, c, now, key).allowed
  {
    ViewOk(m, key, c, now, now);
  }

  /** The consume that takes the last one starts the lockout, of the configured length from then. */
  lemma LastOneLocks(m: Buckets, c: Config, now: int, key: Key)
    requires 1 <= c.max && 0 < c.windowMs && 1 <= c.maxBuckets && BucketsOk(m, c, now) && Asked(m, c, now, key).remaining == 1
    ensures var d := Simple(m, c, now, Consume(key)).decision.value;
            && d.allowed && d.remaining == 0 && (d.lockedOut <==> c.lockoutMs.Some? && 0 < c.lockoutMs.value)
            && d.resetAtMs == if d.lockedOut then now + c.lockoutMs.value else Asked(m, c, now, key).resetAtMs
  {
    ViewOk(m, key, c, now, now);
  }

  /**
   The window does not slide: what has been counted stays counted until the time that the check
   announced, and from then on the whole allowance is there again.
   */
  lemma CountStartsOverExactlyAt(m: Buckets, c: Config, now: int, key: Key, t: int)
    requires 1 <= c.max && 0 < c.windowMs && 1 <= c.maxBuckets && BucketsOk(m, c, now) && now <= t
    requires Asked(m, c, now, key).allowed
    ensures var d, after := Asked(m, c, now, key), Simple(m, c, now, Check(key)).buckets;
            && now < d.resetAtMs <= now + c.windowMs && d.retryAfterMs == 0
            && (t < d.resetAtMs ==> Asked(after, c, t, key) == d)
            && (t >= d.resetAtMs ==> Asked(after, c, t, key) == Decision(true, c.max, t + c.windowMs, 0, false))
  {
    ViewOk(m, key, c, now, now);
  }

  /** The real limiter answers a check with the plain one's decision on its own map. */
  lemma BoundedAsked(s: Store, c: Config, now: int, key: Key)
    requires s.Valid()
    ensures var a := Bounded(s, c, now, Check(key));
            a.evicted != Some(key) ==> a.decision == Some(Asked(s.buckets, c, now, key))
  {
    var a := Bounded(s, c, now, Check(key));
    StepAgrees(s, s.buckets, c, now, Check(key));
    assert View(Replayed(s.buckets, a.evicted), key, c, now) == View(s.buckets, key, c, now) || a.evicted == Some(key);
  }

  /** The default policy: five failures in 15 minutes, then 30 minutes announced; room for 10000 scopes and actions. */
  lemma DefaultPolicyIs(m: Buckets, c: Config, now: int, key: Key)
    requires c == DEFAULT_UNLOCK && BucketsOk(m, c, now)
    ensures c.maxBuckets == 10_000
    ensures key !in m ==> Asked(m, c, now, key) == Decision(true, 5, now + 15 * 60 * 1000, 0, false)
    ensures Asked(m, c, now, key).remaining == 1 ==>
              var d := Simple(m, c, now, Consume(key)).decision.value; d.allowed && d.lockedOut && d.resetAtMs == now + 30 * 60 * 1000
  {
    NewClientHasMax(m, c, now, key);
    if Asked(m, c, now, key).remaining == 1 {
      LastOneLocks(m, c, now, key);
    }
  }

  // ---------------------------------------------------------------- what is kept, and in which order

  /** A bucket is pruned when its window is over, nothing is counted in it, and it has no lockout, an ended one, or one that ends at zero. */
  lemma PrunedExactlyWhen(s: Store, c: Config, now: int, key: Key)
    requires s.Valid() && key in s.buckets
    ensures var b := s.buckets[key];
            key !in Pruned(s, c, now).buckets <==>
            && now - b.windowStartMs >= c.windowMs && b.count == 0
            && (b.lockedOutUntilMs.None? || b.lockedOutUntilMs.value == 0 || b.lockedOutUntilMs.value <= now)
    ensures key in Pruned(s, c, now).buckets ==> Pruned(s, c, now).buckets[key] == s.buckets[key]
  {
  }

  /** Any two of those kept stand in the order they stood in. */
  ghost predicate KeepsOrder(order: seq<Key>, kept: seq<Key>) {
    forall i, j :: 0 <= i < j < |kept| ==> Before(order, kept[i], kept[j])
  }

  ghost predicate Before(order: seq<Key>, k: Key, l: Key) {
    exists i, j :: 0 <= i < j < |order| && order[i] == k && order[j] == l
  }

  lemma BeforeInTail(order: seq<Key>, k: Key, l: Key)
    requires order != [] && Before(order[1..], k, l)
    ensures Before(order, k, l)
  {
    var i, j :| 0 <= i < j < |order[1..]| && order[1..][i] == k && order[1..][j] == l;
    assert order[i + 1] == k && order[j + 1] == l;
  }

  lemma FirstIsBefore(order: seq<Key>, l: Key)
    requires order != [] && l in order[1..]
    ensures Before(order, order[0], l)
  {
    var j :| 0 <= j < |order[1..]| && order[1..][j] == l;
    assert order[j + 1] == l;
  }

  lemma KeepsOrderOfTail(order: seq<Key>, rest: seq<Key>, kept: seq<Key>)
    requires order != [] && KeepsOrder(order[1..], rest) && (forall k <- rest :: k in order[1..])
    requires kept == rest || kept == [order[0]] + rest
    ensures KeepsOrder(order, kept)
  {
    forall i, j | 0 <= i < j < |kept|
      ensures Before(order, kept[i], kept[j])
    {
      if kept == rest {
        BeforeInTail(order, rest[i], rest[j]);
      } else if i == 0 {
        FirstIsBefore(order, rest[j - 1]);
      } else {
        BeforeInTail(order, rest[i - 1], rest[j - 1]);
      }
    }
  }

  lemma {:induction false} FilterKeepsOrder(order: seq<Key>, m: Buckets, c: Config, now: int)
    requires forall k <- order :: k in m
    ensures KeepsOrder(order, Filter(order, m, c, now))
  {
    if order != [] {
      FilterKeepsOrder(order[1..], m, c, now);
      KeepsOrderOfTail(order, Filter(order[1..], m, c, now), Filter(order, m, c, now));
    }
  }

  lemma {:induction false} RemovalKeepsOrder(order: seq<Key>, key: Key)
    ensures KeepsOrder(order, RemoveKey(order, key))
  {
    if order != [] {
      RemovalKeepsOrder(order[1..], key);
      KeepsOrderOfTail(order, RemoveKey(order[1..], key), RemoveKey(order, key));
    }
  }

  /** A JavaScript map keeps insertion order: pruning and deleting reorder nothing, a known key stays where it is, a new one comes last. */
  lemma OrderIsInsertionOrder(s: Store, c: Config, now: int, key: Key)
    requires s.Valid()
    ensures KeepsOrder(s.order, Pruned(s, c, now).order) && KeepsOrder(s.order, Deleted(s, key).order)
    ensures var p, order := Pruned(s, c, now), Accessed(s, c, now, key).order;
            if key in p.buckets then order == p.order else order != [] && order[|order| - 1] == key && KeepsOrder(p.order, order[..|order| - 1])
  {
    FilterKeepsOrder(s.order, s.buckets, c, now);
    RemovalKeepsOrder(s.order, key);
    var p, victim := Pruned(s, c, now), Evicted(s, c, now, key);
    if key !in p.buckets {
      var q := if victim.Some? then Deleted(p, victim.value) else p;
      assert (q.order + [key])[..|q.order|] == q.order;
      if victim.Some? {
        RemovalKeepsOrder(p.order, victim.value);
      } else {
        SameOrder(p.order);
      }
    }
  }

  lemma SameOrder(order: seq<Key>)
    ensures KeepsOrder(order, order)
  {
    forall i, j | 0 <= i < j < |order|
      ensures Before(order, order[i], order[j])
    {
    }
  }
}
