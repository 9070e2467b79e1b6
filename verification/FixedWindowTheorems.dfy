/** What the rate limiter promises, over every ordered run of requests. */
module FixedWindowTheorems {
  import opened Prelude
  import opened FixedWindowSpec

  // ---------------------------------------------------------------- refinement

  predicate AgreeAt(m: Buckets, n: Buckets, c: Config, k: Key, t: int) {
    View(m, k, c, t) == View(n, k, c, t)
  }

  /** From `now` on, no request can tell the two maps apart. */
  ghost predicate SameView(m: Buckets, n: Buckets, c: Config, now: int) {
    forall k: Key, t: int :: now <= t ==> AgreeAt(m, n, c, k, t)
  }

  lemma PrunedBucketWasFresh(b: Bucket, c: Config, now: int, t: int)
    requires now <= t && Prunable(b, c, now)
    ensures Refreshed(b, c, t) == Fresh(t)
  {
  }

  lemma PruningIsInvisible(s: Store, c: Config, now: int)
    requires s.Valid()
    ensures SameView(Pruned(s, c, now).buckets, s.buckets, c, now)
  {
    var p := Pruned(s, c, now);
    forall k: Key, t: int | now <= t
      ensures AgreeAt(p.buckets, s.buckets, c, k, t)
    {
      if k in s.buckets && Prunable(s.buckets[k], c, now) {
        PrunedBucketWasFresh(s.buckets[k], c, now, t);
      }
    }
  }

  lemma DeletionAgrees(m: Buckets, n: Buckets, c: Config, now: int, key: Key)
    requires SameView(m, n, c, now)
    ensures SameView(m - {key}, n - {key}, c, now)
  {
    forall k: Key, t: int | now <= t
      ensures AgreeAt(m - {key}, n - {key}, c, k, t)
    {
      assert AgreeAt(m, n, c, k, t);
    }
  }

  lemma WriteAgrees(m: Buckets, n: Buckets, c: Config, now: int, key: Key, b: Bucket)
    requires SameView(m, n, c, now)
    ensures SameView(m[key := b], n[key := b], c, now)
  {
    var m', n' := m[key := b], n[key := b];
    forall k: Key, t: int | now <= t
      ensures AgreeAt(m', n', c, k, t)
    {
      assert AgreeAt(m, n, c, k, t);
    }
  }

  /** The plain limiter's map after the eviction, if any, has been replayed on it as a reset. */
  function Replayed(n: Buckets, evicted: Option<Key>): Buckets {
    if evicted.Some? then n - {evicted.value} else n
  }

  lemma AccessAgrees(s: Store, n: Buckets, c: Config, now: int, key: Key)
    requires s.Valid() && SameView(s.buckets, n, c, now)
    ensures var a := Accessed(s, c, now, key);
            var n' := Replayed(n, Evicted(s, c, now, key));
            && a.buckets[key] == View(n', key, c, now)
            && SameView(a.buckets, n'[key := View(n', key, c, now)], c, now)
  {
    var p := Pruned(s, c, now);
    PruningIsInvisible(s, c, now);
    forall k: Key, t: int | now <= t
      ensures AgreeAt(p.buckets, n, c, k, t)
    {
      assert AgreeAt(p.buckets, s.buckets, c, k, t) && AgreeAt(s.buckets, n, c, k, t);
    }
    var victim := Evicted(s, c, now, key);
    var q := if victim.Some? then Deleted(p, victim.value) else p;
    var n' := Replayed(n, victim);
    if victim.Some? {
      DeletionAgrees(p.buckets, n, c, now, victim.value);
    }
    assert SameView(q.buckets, n', c, now);
    assert AgreeAt(q.buckets, n', c, key, now);
    WriteAgrees(q.buckets, n', c, now, key, View(n', key, c, now));
  }

  lemma LaterAgrees(m: Buckets, n: Buckets, c: Config, now: int, later: int)
    requires SameView(m, n, c, now) && now <= later
    ensures SameView(m, n, c, later)
  {
  }

  lemma OverwriteAgrees(m: Buckets, n: Buckets, c: Config, now: int, key: Key, v: Bucket, b: Bucket)
    requires SameView(m, n[key := v], c, now)
    ensures SameView(m[key := b], n[key := b], c, now)
  {
    WriteAgrees(m, n[key := v], c, now, key, b);
    assert n[key := v][key := b] == n[key := b];
  }

  lemma TurnAgrees(s: Store, n: Buckets, c: Config, now: int, r: Request)
    requires s.Valid() && SameView(s.buckets, n, c, now) && !r.Reset?
    ensures var v := View(Replayed(n, Evicted(s, c, now, r.key)), r.key, c, now);
            var turn := Take(v, c, now, r.Consume?);
            && Bounded(s, c, now, r).decision == Some(turn.decision)
            && SameView(Bounded(s, c, now, r).store.buckets, Replayed(n, Evicted(s, c, now, r.key))[r.key := turn.bucket], c, now)
  {
    AccessAgrees(s, n, c, now, r.key);
    var n' := Replayed(n, Evicted(s, c, now, r.key));
    var v := View(n', r.key, c, now);
    OverwriteAgrees(Accessed(s, c, now, r.key).buckets, n', c, now, r.key, v, Take(v, c, now, r.Consume?).bucket);
  }

  /** One request: same answer, and maps that still cannot be told apart. */
  lemma StepAgrees(s: Store, n: Buckets, c: Config, now: int, r: Request)
    requires s.Valid() && SameView(s.buckets, n, c, now)
    ensures var a := Bounded(s, c, now, r);
            var simple := Simple(Replayed(n, a.evicted), c, now, r);
            a.decision == simple.decision && SameView(a.store.buckets, simple.buckets, c, now)
  {
    if r.Reset? {
      DeletionAgrees(s.buckets, n, c, now, r.key);
    } else {
      TurnAgrees(s, n, c, now, r);
    }
  }

  lemma FirstDecision(n: Buckets, c: Config, r: Timed, rest: seq<Timed>)
    ensures SimpleDecisions(n, c, [r] + rest) ==
            ToSeq(Simple(n, c, r.at, r.request).decision) + SimpleDecisions(Simple(n, c, r.at, r.request).buckets, c, rest)
  {
    assert ([r] + rest)[0] == r && ([r] + rest)[1..] == rest;
  }

  lemma EvictionDecidesNothing(n: Buckets, c: Config, at: int, evicted: Option<Key>, rest: seq<Timed>)
    ensures SimpleDecisions(n, c, (if evicted.Some? then [Timed(at, Reset(evicted.value))] else []) + rest)
            == SimpleDecisions(Replayed(n, evicted), c, rest)
  {
    if evicted.Some? {
      FirstDecision(n, c, Timed(at, Reset(evicted.value)), rest);
    } else {
      assert [] + rest == rest;
    }
  }

  lemma {:induction false} RunAgrees(s: Store, n: Buckets, c: Config, rs: seq<Timed>, now: int)
    requires s.Valid() && SameView(s.buckets, n, c, now) && Ordered(rs, now)
    ensures BoundedDecisions(s, c, rs) == SimpleDecisions(n, c, WithEvictions(s, c, rs))
    decreases |rs|
  {
    if rs != [] {
      var r := rs[0];
      LaterAgrees(s.buckets, n, c, now, r.at);
      StepAgrees(s, n, c, r.at, r.request);
      var a := Bounded(s, c, r.at, r.request);
      var n' := Replayed(n, a.evicted);
      RunAgrees(a.store, Simple(n', c, r.at, r.request).buckets, c, rs[1..], r.at);
      var rest := WithEvictions(a.store, c, rs[1..]);
      FirstDecision(n', c, r, rest);
      EvictionDecidesNothing(n, c, r.at, a.evicted, [r] + rest);
      assert WithEvictions(s, c, rs) ==
             (if a.evicted.Some? then [Timed(r.at, Reset(a.evicted.value))] else []) + ([r] + rest);
    }
  }

  /**
   The pruned, bounded limiter answers every ordered run exactly as the plain unbounded one
   does when each eviction is written out as a reset of the evicted key.
   */
  lemma BoundedRefinesSimple(c: Config, rs: seq<Timed>, from: int)
    requires Ordered(rs, from)
    ensures BoundedDecisions(EMPTY, c, rs) == SimpleDecisions(map[], c, WithEvictions(EMPTY, c, rs))
  {
    RunAgrees(EMPTY, map[], c, rs, from);
  }

  /** An eviction removes a key of minimal window start, only for a new key, only when the map is full. */
  lemma EvictionIsLeastRecent(s: Store, c: Config, now: int, key: Key)
    requires s.Valid() && Evicted(s, c, now, key).Some?
    ensures var p := Pruned(s, c, now);
            var k := Evicted(s, c, now, key).value;
            && k in p.buckets && key !in p.buckets && |p.order| >= c.maxBuckets
            && (forall other <- p.buckets :: p.buckets[k].windowStartMs <= p.buckets[other].windowStartMs)
            && k !in Accessed(s, c, now, key).buckets
  {
    var p := Pruned(s, c, now);
    var i := OldestOf(p, |p.order|);
    assert p.order[i] == Evicted(s, c, now, key).value;
    forall other <- p.buckets
      ensures p.buckets[p.order[i]].windowStartMs <= p.buckets[other].windowStartMs
    {
      assert other in p.order;
    }
  }

  // ---------------------------------------------------------------- capacity

  ghost predicate NoEmptyKey(rs: seq<Timed>) {
    forall r <- rs :: r.request.key != []
  }

  lemma AccessKeepsCapacity(s: Store, c: Config, now: int, key: Key)
    requires s.Valid() && c.Sensible() && |s.order| <= c.maxBuckets && [] !in s.buckets
    ensures |Accessed(s, c, now, key).order| <= c.maxBuckets
  {
    var p := Pruned(s, c, now);
    if key !in p.buckets && |p.order| >= c.maxBuckets {
      assert p.order[OldestOf(p, |p.order|)] in p.buckets;
    }
  }

  lemma {:induction false} RunKeepsCapacity(s: Store, c: Config, rs: seq<Timed>)
    requires s.Valid() && c.Sensible() && NoEmptyKey(rs) && |s.order| <= c.maxBuckets && [] !in s.buckets
    ensures |BoundedRun(s, c, rs).order| <= c.maxBuckets
    decreases |rs|
  {
    if rs != [] {
      var r := rs[0].request;
      assert r.key != [];
      var a := Bounded(s, c, rs[0].at, r);
      if !r.Reset? {
        AccessKeepsCapacity(s, c, rs[0].at, r.key);
      }
      RunKeepsCapacity(a.store, c, rs[1..]);
    }
  }

  /** Memory stays bounded in every run that names its clients. */
  lemma MapNeverExceedsCapacity(c: Config, rs: seq<Timed>)
    requires c.Sensible() && NoEmptyKey(rs)
    ensures |BoundedRun(EMPTY, c, rs).order| <= c.maxBuckets
  {
    RunKeepsCapacity(EMPTY, c, rs);
  }

  /** The map outgrows its capacity exactly when the bucket due for eviction has the empty key. */
  lemma CapacityExceededExactlyWhen(s: Store, c: Config, now: int, key: Key)
    requires s.Valid() && c.Sensible() && |s.order| <= c.maxBuckets
    ensures var p := Pruned(s, c, now);
            |Accessed(s, c, now, key).order| > c.maxBuckets <==>
            key !in p.buckets && |p.order| == c.maxBuckets && p.order[OldestOf(p, |p.order|)] == []
  {
  }

  lemma BoundedRunCons(s: Store, c: Config, q: Timed, rest: seq<Timed>)
    requires s.Valid()
    ensures BoundedRun(s, c, [q] + rest) == BoundedRun(Bounded(s, c, q.at, q.request).store, c, rest)
  {
    assert ([q] + rest)[0] == q && ([q] + rest)[1..] == rest;
  }

  lemma FirstBucket(c: Config, key: Key, now: int)
    requires c.Sensible()
    ensures Bounded(EMPTY, c, now, Check(key)).store == Store([key], map[key := Fresh(now)])
  {
    assert Pruned(EMPTY, c, now) == EMPTY;
    assert [] + [key] == [key];
  }

  lemma JoinsTheEmptyKey(s: Store, c: Config, key: Key, now: int)
    requires s == Store([[]], map[[] := Fresh(now)]) && s.Valid() && c.Sensible() && key != []
    ensures Bounded(s, c, now, Check(key)).store.order == [[], key]
  {
    NothingPruned(s, c, now);
    assert OldestOf(s, 1) == 0 && Victim(s).None?;
    assert [[]] + [key] == [[], key];
  }

  lemma NothingPruned(s: Store, c: Config, now: int)
    requires s.Valid() && |s.order| == 1 && c.Sensible() && s.order[0] in s.buckets && s.buckets.Keys == {s.order[0]}
    requires s.buckets[s.order[0]].windowStartMs == now
    ensures Pruned(s, c, now) == s
  {
    assert s.order == [s.order[0]] && s.order[1..] == [];
  }

  /** It happens: with room for one bucket, the empty key stays and the next key joins it. */
  lemma EmptyKeyOutgrowsCapacity(c: Config, key: Key)
    requires c.Sensible() && c.maxBuckets == 1 && key != []
    ensures BoundedRun(EMPTY, c, [Timed(0, Check([]))] + [Timed(0, Check(key))]).order == [[], key]
  {
    FirstBucket(c, [], 0);
    var s := Bounded(EMPTY, c, 0, Check([])).store;
    JoinsTheEmptyKey(s, c, key, 0);
    BoundedRunCons(EMPTY, c, Timed(0, Check([])), [Timed(0, Check(key))]);
    BoundedRunCons(s, c, Timed(0, Check(key)), []);
    assert [Timed(0, Check(key))] + [] == [Timed(0, Check(key))];
  }

  // ---------------------------------------------------------------- eviction drops lockouts

  /** Refusing now, in a window that has not ended. */
  predicate LiveLockout(s: Store, c: Config, key: Key, now: int) {
    key in s.buckets && LockedAt(s.buckets[key], now) && !WindowOver(s.buckets[key], c, now)
  }

  lemma EvictsExactlyWhen(s: Store, c: Config, now: int, asked: Key, key: Key)
    requires s.Valid() && c.Sensible()
    ensures var p := Pruned(s, c, now);
            Evicted(s, c, now, asked) == Some(key) <==>
            asked !in p.buckets && |p.order| >= c.maxBuckets && key != [] && p.order[OldestOf(p, |p.order|)] == key
  {
  }

  lemma AccessedElsewhere(s: Store, c: Config, now: int, asked: Key, key: Key)
    requires s.Valid() && asked != key && key in s.buckets && !Prunable(s.buckets[key], c, now)
    ensures var m := Accessed(s, c, now, asked).buckets;
            (key in m <==> Evicted(s, c, now, asked) != Some(key)) && (key in m ==> m[key] == s.buckets[key])
  {
  }

  lemma LockedIsLeftAlone(s: Store, c: Config, now: int, r: Request, key: Key)
    requires s.Valid() && !r.Reset? && r.key == key && LiveLockout(s, c, key, now)
    ensures LiveLockout(Bounded(s, c, now, r).store, c, key, now)
  {
    assert Accessed(s, c, now, key).buckets[key] == s.buckets[key];
  }

  /**
   A check or a consume drops a live lockout exactly when it asks for a key that has no bucket, the
   pruned map is full, and the locked bucket is the oldest in it and not that of the empty key.
   */
  lemma LockoutDroppedExactlyWhen(s: Store, c: Config, now: int, r: Request, key: Key)
    requires s.Valid() && c.Sensible() && !r.Reset? && LiveLockout(s, c, key, now)
    ensures var p := Pruned(s, c, now);
            !LiveLockout(Bounded(s, c, now, r).store, c, key, now) <==>
            && r.key !in p.buckets && |p.order| >= c.maxBuckets
            && key != [] && p.order[OldestOf(p, |p.order|)] == key
  {
    EvictsExactlyWhen(s, c, now, r.key, key);
    if r.key == key {
      LockedIsLeftAlone(s, c, now, r, key);
      assert key in Pruned(s, c, now).buckets;
    } else {
      AccessedElsewhere(s, c, now, r.key, key);
    }
  }

  // ---------------------------------------------------------------- few clients

  function KeysOf(rs: seq<Timed>): set<Key> {
    set r | r in rs :: r.request.key
  }

  lemma {:induction false} DistinctFit(order: seq<Key>, keys: set<Key>)
    requires Distinct(order) && forall k <- order :: k in keys
    ensures |order| <= |keys|
  {
    if order != [] {
      assert Distinct(order[1..]);
      assert forall k <- order[1..] :: k in keys - {order[0]};
      DistinctFit(order[1..], keys - {order[0]});
    }
  }

  lemma NoEvictionAmongFew(s: Store, c: Config, now: int, r: Request, keys: set<Key>)
    requires s.Valid() && |keys| <= c.maxBuckets && s.buckets.Keys <= keys && r.key in keys
    ensures Bounded(s, c, now, r).evicted.None? && Bounded(s, c, now, r).store.buckets.Keys <= keys
  {
    var p := Pruned(s, c, now);
    if !r.Reset? && r.key !in p.buckets {
      assert Distinct(p.order) && forall k <- p.order :: k in keys - {r.key};
      DistinctFit(p.order, keys - {r.key});
    }
  }

  /** The key is not evicted in the run. */
  predicate NeverEvicted(s: Store, c: Config, rs: seq<Timed>, key: Key)
    requires s.Valid()
    decreases |rs|
  {
    rs == [] ||
    (var a := Bounded(s, c, rs[0].at, rs[0].request);
     a.evicted != Some(key) && NeverEvicted(a.store, c, rs[1..], key))
  }

  /** Nothing is ever evicted in a run that names no more keys than there is room for. */
  lemma {:induction false} FewClientsAreNeverEvicted(s: Store, c: Config, rs: seq<Timed>, keys: set<Key>, key: Key)
    requires s.Valid() && |keys| <= c.maxBuckets && s.buckets.Keys <= keys && KeysOf(rs) <= keys
    ensures NeverEvicted(s, c, rs, key)
    decreases |rs|
  {
    if rs != [] {
      assert rs[0].request.key in KeysOf(rs) && KeysOf(rs[1..]) <= KeysOf(rs);
      NoEvictionAmongFew(s, c, rs[0].at, rs[0].request, keys);
      FewClientsAreNeverEvicted(Bounded(s, c, rs[0].at, rs[0].request).store, c, rs[1..], keys, key);
    }
  }

  // ---------------------------------------------------------------- the sliding-window bound

  /** What every bucket of a run satisfies: the count stays within max, and a lockout means it is reached. */
  ghost predicate BucketOk(b: Bucket, c: Config, now: int) {
    && 0 <= b.count <= c.max
    && b.windowStartMs <= now
    && (b.lockedOutUntilMs.Some? ==> c.HasLockout() && b.count == c.max && b.windowStartMs + c.lockoutMs.value <= b.lockedOutUntilMs.value)
    && (c.HasLockout() && b.count == c.max ==> b.lockedOutUntilMs.Some?)
  }

  ghost predicate BucketsOk(m: Buckets, c: Config, now: int) {
    forall k <- m :: BucketOk(m[k], c, now)
  }

  lemma ViewOk(m: Buckets, key: Key, c: Config, now: int, at: int)
    requires c.Sensible() && BucketsOk(m, c, now) && now <= at
    ensures BucketOk(View(m, key, c, at), c, at)
    ensures BuildDecision(View(m, key, c, at), c, at).allowed ==> BucketOk(Charged(View(m, key, c, at), c, at), c, at)
  {
  }

  lemma SimpleKeepsBuckets(m: Buckets, c: Config, now: int, at: int, r: Request)
    requires c.Sensible() && BucketsOk(m, c, now) && now <= at
    ensures BucketsOk(Simple(m, c, at, r).buckets, c, at)
  {
    if !r.Reset? {
      ViewOk(m, r.key, c, now, at);
    }
  }

  /** Count and lockout stay consistent over every run. */
  lemma {:induction false} CountNeverExceedsMax(m: Buckets, c: Config, rs: seq<Timed>, now: int)
    requires c.Sensible() && BucketsOk(m, c, now) && Ordered(rs, now)
    ensures BucketsOk(SimpleRun(m, c, rs), c, LastAt(rs, now))
    decreases |rs|
  {
    if rs != [] {
      SimpleKeepsBuckets(m, c, now, rs[0].at, rs[0].request);
      CountNeverExceedsMax(Simple(m, c, rs[0].at, rs[0].request).buckets, c, rs[1..], rs[0].at);
    }
  }

  lemma PruningKeepsBuckets(s: Store, c: Config, now: int, at: int)
    requires s.Valid() && BucketsOk(s.buckets, c, now) && now <= at
    ensures BucketsOk(Pruned(s, c, at).buckets, c, at)
  {
  }

  lemma BoundedKeepsBuckets(s: Store, c: Config, now: int, at: int, r: Request)
    requires s.Valid() && c.Sensible() && BucketsOk(s.buckets, c, now) && now <= at
    ensures BucketsOk(Bounded(s, c, at, r).store.buckets, c, at)
  {
    if !r.Reset? {
      var p := Pruned(s, c, at);
      PruningKeepsBuckets(s, c, now, at);
      ViewOk(p.buckets, r.key, c, at, at);
      assert Accessed(s, c, at, r.key).buckets[r.key] == View(p.buckets, r.key, c, at);
    }
  }

  /** The same over every run of the real limiter. */
  lemma {:induction false} BoundedCountNeverExceedsMax(s: Store, c: Config, rs: seq<Timed>, now: int)
    requires s.Valid() && c.Sensible() && BucketsOk(s.buckets, c, now) && Ordered(rs, now)
    ensures BucketsOk(BoundedRun(s, c, rs).buckets, c, LastAt(rs, now))
    decreases |rs|
  {
    if rs != [] {
      BoundedKeepsBuckets(s, c, now, rs[0].at, rs[0].request);
      BoundedCountNeverExceedsMax(Bounded(s, c, rs[0].at, rs[0].request).store, c, rs[1..], rs[0].at);
    }
  }

  function SimpleRun(m: Buckets, c: Config, rs: seq<Timed>): Buckets
    decreases |rs|
  {
    if rs == [] then m else SimpleRun(Simple(m, c, rs[0].at, rs[0].request).buckets, c, rs[1..])
  }

  function LastAt(rs: seq<Timed>, now: int): int
    decreases |rs|
  {
    if rs == [] then now else LastAt(rs[1..], rs[0].at)
  }

  /** Consumes of `key` that were allowed at a time in [a, b). */
  function AllowedIn(m: Buckets, c: Config, rs: seq<Timed>, key: Key, a: int, b: int): (n: nat)
    decreases |rs|
  {
    if rs == [] then 0
    else
      var r := rs[0];
      var answer := Simple(m, c, r.at, r.request);
      (if r.request == Consume(key) && answer.decision.value.allowed && a <= r.at < b then 1 else 0)
      + AllowedIn(answer.buckets, c, rs[1..], key, a, b)
  }

  predicate NeverReset(rs: seq<Timed>, key: Key) {
    forall r <- rs :: r.request != Reset(key)
  }

  /** ceil(x / m), and 0 for x below 0: the least q with x <= q * m. */
  function CeilDiv(x: int, m: int): (q: nat)
    requires 0 < m
    ensures x <= q * m && (0 < x ==> (q - 1) * m < x) && (x <= 0 ==> q == 0)
    decreases if x <= 0 then 0 else x
  {
    if x <= 0 then 0
    else
      var rest := CeilDiv(x - m, m);
      assert (rest + 1) * m == rest * m + m && (x > m ==> rest * m == (rest - 1) * m + m);
      rest + 1
  }

  lemma CeilDivMonotone(x: int, y: int, m: int)
    requires 0 < m && x <= y
    ensures CeilDiv(x, m) <= CeilDiv(y, m)
    decreases if y <= 0 then 0 else y
  {
    if 0 < x {
      CeilDivMonotone(x - m, y - m, m);
    }
  }

  lemma ScaleMonotone(k: int, x: int, y: int)
    requires 0 <= k && x <= y
    ensures k * x <= k * y
  {
  }

  /** How many more consumes a bucket can allow before `b`: its own rest, then whole windows. */
  function Budget(m: Buckets, c: Config, key: Key, now: int, b: int): int
    requires c.Sensible()
  {
    if key in m then
      var bucket := m[key];
      var next := bucket.windowStartMs + c.MinWindow();
      c.max - bucket.count + c.max * CeilDiv(b - (if now < next then next else now), c.MinWindow())
    else c.max * CeilDiv(b - now, c.MinWindow())
  }

  lemma BudgetWaits(m: Buckets, c: Config, key: Key, now: int, later: int, b: int)
    requires c.Sensible() && now <= later
    ensures Budget(m, c, key, later, b) <= Budget(m, c, key, now, b)
  {
    var w := c.MinWindow();
    if key in m {
      var next := m[key].windowStartMs + w;
      var x, y := b - (if later < next then next else later), b - (if now < next then next else now);
      CeilDivMonotone(x, y, w);
      ScaleMonotone(c.max, CeilDiv(x, w), CeilDiv(y, w));
    } else {
      CeilDivMonotone(b - later, b - now, w);
      ScaleMonotone(c.max, CeilDiv(b - later, w), CeilDiv(b - now, w));
    }
  }

  /** Starting a new window at `at` never raises the budget. */
  lemma BudgetRestarts(m: Buckets, c: Config, key: Key, at: int, b: int)
    requires c.Sensible() && BucketsOk(m, c, at) && at < b
    ensures Budget(m[key := View(m, key, c, at)], c, key, at, b) <= Budget(m, c, key, at, b)
  {
    var w := c.MinWindow();
    var v := View(m, key, c, at);
    if key !in m || v != m[key] {
      assert v == Fresh(at);
      assert c.max + c.max * CeilDiv(b - at - w, w) == c.max * CeilDiv(b - at, w);
      if key in m {
        assert BucketOk(m[key], c, at);
        assert m[key].windowStartMs + w <= at;
      }
    }
  }

  lemma NothingAllowedLate(m: Buckets, c: Config, rs: seq<Timed>, key: Key, a: int, b: int)
    requires Ordered(rs, b)
    ensures AllowedIn(m, c, rs, key, a, b) == 0
    decreases |rs|
  {
    if rs != [] {
      LaterOrdered(rs[1..], rs[0].at, b);
      NothingAllowedLate(Simple(m, c, rs[0].at, rs[0].request).buckets, c, rs[1..], key, a, b);
    }
  }

  lemma LaterOrdered(rs: seq<Timed>, later: int, now: int)
    requires Ordered(rs, later) && now <= later
    ensures Ordered(rs, now)
  {
  }

  lemma BudgetNotNegative(m: Buckets, c: Config, key: Key, now: int, b: int)
    requires c.Sensible() && BucketsOk(m, c, now)
    ensures 0 <= Budget(m, c, key, now, b)
  {
    if key in m {
      assert BucketOk(m[key], c, now);
      var next := m[key].windowStartMs + c.MinWindow();
      ScaleMonotone(c.max, 0, CeilDiv(b - (if now < next then next else now), c.MinWindow()));
    } else {
      ScaleMonotone(c.max, 0, CeilDiv(b - now, c.MinWindow()));
    }
  }

  /** One request pays for itself out of the budget. */
  lemma BudgetPays(m: Buckets, c: Config, key: Key, at: int, b: int, r: Request)
    requires c.Sensible() && BucketsOk(m, c, at) && at < b && r != Reset(key)
    ensures var answer := Simple(m, c, at, r);
            (if r == Consume(key) && answer.decision.value.allowed then 1 else 0) + Budget(answer.buckets, c, key, at, b)
            <= Budget(m, c, key, at, b)
  {
    if r.key == key {
      BudgetRestarts(m, c, key, at, b);
    }
  }

  /** From any consistent state, the budget bounds what is allowed before `b`. */
  lemma {:induction false} BudgetBounds(m: Buckets, c: Config, rs: seq<Timed>, key: Key, now: int, a: int, b: int)
    requires c.Sensible() && BucketsOk(m, c, now) && Ordered(rs, now) && NeverReset(rs, key)
    ensures AllowedIn(m, c, rs, key, a, b) <= Budget(m, c, key, now, b)
    decreases |rs|
  {
    BudgetNotNegative(m, c, key, now, b);
    if rs != [] {
      var at, r := rs[0].at, rs[0].request;
      if b <= at {
        LaterOrdered(rs, at, at);
        OrderedFrom(rs, b);
        NothingAllowedLate(m, c, rs, key, a, b);
      } else {
        var answer := Simple(m, c, at, r);
        SimpleKeepsBuckets(m, c, now, at, r);
        assert BucketsOk(m, c, at);
        BudgetBounds(answer.buckets, c, rs[1..], key, at, a, b);
        assert r != Reset(key);
        BudgetPays(m, c, key, at, b, r);
        BudgetWaits(m, c, key, now, at, b);
      }
    }
  }

  lemma OrderedFrom(rs: seq<Timed>, b: int)
    requires rs != [] && b <= rs[0].at && Ordered(rs, rs[0].at)
    ensures Ordered(rs, b)
  {
  }

  /** Before `a` nothing is counted, and from there the budget is one bucket more than the whole windows. */
  lemma {:induction false} SlidingWindowFrom(m: Buckets, c: Config, rs: seq<Timed>, key: Key, now: int, a: int, b: int)
    requires c.Sensible() && BucketsOk(m, c, now) && Ordered(rs, now) && NeverReset(rs, key) && a <= b
    ensures AllowedIn(m, c, rs, key, a, b) <= c.max * (CeilDiv(b - a, c.MinWindow()) + 1)
    decreases |rs|
  {
    var w := c.MinWindow();
    if rs == [] || a <= rs[0].at {
      if rs != [] {
        assert BucketsOk(m, c, rs[0].at);
        LaterOrdered(rs, rs[0].at, rs[0].at);
      }
      var from := if rs == [] then (if now < a then a else now) else rs[0].at;
      if rs == [] || a <= from {
        BudgetBounds(m, c, rs, key, from, a, b);
        FullBudget(m, c, key, from, a, b);
      }
    } else {
      var at, r := rs[0].at, rs[0].request;
      SimpleKeepsBuckets(m, c, now, at, r);
      SlidingWindowFrom(Simple(m, c, at, r).buckets, c, rs[1..], key, at, a, b);
    }
  }

  lemma FullBudget(m: Buckets, c: Config, key: Key, from: int, a: int, b: int)
    requires c.Sensible() && BucketsOk(m, c, from) && a <= from
    ensures Budget(m, c, key, from, b) <= c.max * (CeilDiv(b - a, c.MinWindow()) + 1)
  {
    var w := c.MinWindow();
    var start := if key in m && from < m[key].windowStartMs + w then m[key].windowStartMs + w else from;
    CeilDivMonotone(b - start, b - a, w);
    ScaleMonotone(c.max, CeilDiv(b - start, w), CeilDiv(b - a, w));
    assert c.max * (CeilDiv(b - a, w) + 1) == c.max * CeilDiv(b - a, w) + c.max;
    if key in m {
      assert BucketOk(m[key], c, from);
    }
  }

  /**
   However consumes are timed, any half-open interval of length b - a holds at most
   max * (ceil((b - a) / m) + 1) allowed ones of a key that is not reset, where m is the
   shorter of window and lockout.
   */
  lemma SlidingWindowBound(c: Config, rs: seq<Timed>, key: Key, from: int, a: int, b: int)
    requires c.Sensible() && Ordered(rs, from) && NeverReset(rs, key) && a <= b
    ensures AllowedIn(map[], c, rs, key, a, b) <= c.max * (CeilDiv(b - a, c.MinWindow()) + 1)
  {
    SlidingWindowFrom(map[], c, rs, key, from, a, b);
  }

  // ---------------------------------------------------------------- the same for the bounded limiter

  function BoundedAllowedIn(s: Store, c: Config, rs: seq<Timed>, key: Key, a: int, b: int): (n: nat)
    requires s.Valid()
    decreases |rs|
  {
    if rs == [] then 0
    else
      var r := rs[0];
      var answer := Bounded(s, c, r.at, r.request);
      (if r.request == Consume(key) && answer.decision.value.allowed && a <= r.at < b then 1 else 0)
      + BoundedAllowedIn(answer.store, c, rs[1..], key, a, b)
  }

  lemma FirstAllowed(n: Buckets, c: Config, r: Timed, rest: seq<Timed>, key: Key, a: int, b: int)
    ensures var answer := Simple(n, c, r.at, r.request);
            AllowedIn(n, c, [r] + rest, key, a, b) ==
            (if r.request == Consume(key) && answer.decision.value.allowed && a <= r.at < b then 1 else 0)
            + AllowedIn(answer.buckets, c, rest, key, a, b)
  {
    assert ([r] + rest)[0] == r && ([r] + rest)[1..] == rest;
  }

  lemma EvictionAllowsNothing(n: Buckets, c: Config, at: int, evicted: Option<Key>, rest: seq<Timed>, key: Key, a: int, b: int)
    ensures AllowedIn(n, c, (if evicted.Some? then [Timed(at, Reset(evicted.value))] else []) + rest, key, a, b)
            == AllowedIn(Replayed(n, evicted), c, rest, key, a, b)
  {
    if evicted.Some? {
      FirstAllowed(n, c, Timed(at, Reset(evicted.value)), rest, key, a, b);
    } else {
      assert [] + rest == rest;
    }
  }

  lemma {:induction false} AllowedAgrees(s: Store, n: Buckets, c: Config, rs: seq<Timed>, now: int, key: Key, a: int, b: int)
    requires s.Valid() && SameView(s.buckets, n, c, now) && Ordered(rs, now)
    ensures BoundedAllowedIn(s, c, rs, key, a, b) == AllowedIn(n, c, WithEvictions(s, c, rs), key, a, b)
    decreases |rs|
  {
    if rs != [] {
      var r := rs[0];
      LaterAgrees(s.buckets, n, c, now, r.at);
      StepAgrees(s, n, c, r.at, r.request);
      var answer := Bounded(s, c, r.at, r.request);
      var n' := Replayed(n, answer.evicted);
      AllowedAgrees(answer.store, Simple(n', c, r.at, r.request).buckets, c, rs[1..], r.at, key, a, b);
      var rest := WithEvictions(answer.store, c, rs[1..]);
      FirstAllowed(n', c, r, rest, key, a, b);
      EvictionAllowsNothing(n, c, r.at, answer.evicted, [r] + rest, key, a, b);
      assert WithEvictions(s, c, rs) ==
             (if answer.evicted.Some? then [Timed(r.at, Reset(answer.evicted.value))] else []) + ([r] + rest);
    }
  }

  lemma OrderedCons(r: Timed, rest: seq<Timed>, now: int)
    requires now <= r.at && Ordered(rest, r.at)
    ensures Ordered([r] + rest, now)
  {
    assert ([r] + rest)[1..] == rest;
  }

  lemma EvictionKeepsOrder(evicted: Option<Key>, r: Timed, rest: seq<Timed>, now: int)
    requires now <= r.at && Ordered(rest, r.at)
    ensures Ordered((if evicted.Some? then [Timed(r.at, Reset(evicted.value))] else []) + ([r] + rest), now)
  {
    OrderedCons(r, rest, now);
    if evicted.Some? {
      OrderedCons(r, rest, r.at);
      OrderedCons(Timed(r.at, Reset(evicted.value)), [r] + rest, now);
    } else {
      assert [] + ([r] + rest) == [r] + rest;
    }
  }

  lemma FirstWithEvictions(s: Store, c: Config, rs: seq<Timed>)
    requires s.Valid() && rs != []
    ensures var a := Bounded(s, c, rs[0].at, rs[0].request);
            WithEvictions(s, c, rs) ==
            (if a.evicted.Some? then [Timed(rs[0].at, Reset(a.evicted.value))] else []) + ([rs[0]] + WithEvictions(a.store, c, rs[1..]))
  {
  }

  lemma {:induction false} EvictionsKeepOrder(s: Store, c: Config, rs: seq<Timed>, now: int)
    requires s.Valid() && Ordered(rs, now)
    ensures Ordered(WithEvictions(s, c, rs), now)
    decreases |rs|
  {
    if rs != [] {
      FirstWithEvictions(s, c, rs);
      var r, answer := rs[0], Bounded(s, c, rs[0].at, rs[0].request);
      assert Ordered(rs[1..], r.at);
      EvictionsKeepOrder(answer.store, c, rs[1..], r.at);
      EvictionKeepsOrder(answer.evicted, r, WithEvictions(answer.store, c, rs[1..]), now);
    }
  }

  lemma NeverResetCons(r: Timed, rest: seq<Timed>, key: Key)
    ensures NeverReset([r] + rest, key) <==> r.request != Reset(key) && NeverReset(rest, key)
  {
    assert forall q :: q in [r] + rest <==> q == r || q in rest;
  }

  lemma NeverResetFirst(evicted: Option<Key>, r: Timed, rest: seq<Timed>, key: Key)
    ensures NeverReset((if evicted.Some? then [Timed(r.at, Reset(evicted.value))] else []) + ([r] + rest), key) <==>
            evicted != Some(key) && r.request != Reset(key) && NeverReset(rest, key)
  {
    NeverResetCons(r, rest, key);
    if evicted.Some? {
      NeverResetCons(Timed(r.at, Reset(evicted.value)), [r] + rest, key);
    } else {
      assert [] + ([r] + rest) == [r] + rest;
    }
  }

  lemma {:induction false} NeitherResetNorEvicted(s: Store, c: Config, rs: seq<Timed>, key: Key)
    requires s.Valid()
    ensures NeverReset(WithEvictions(s, c, rs), key) <==> NeverReset(rs, key) && NeverEvicted(s, c, rs, key)
    decreases |rs|
  {
    if rs != [] {
      var a := Bounded(s, c, rs[0].at, rs[0].request);
      FirstWithEvictions(s, c, rs);
      NeitherResetNorEvicted(a.store, c, rs[1..], key);
      NeverResetFirst(a.evicted, rs[0], WithEvictions(a.store, c, rs[1..]), key);
      NeverResetCons(rs[0], rs[1..], key);
      assert rs == [rs[0]] + rs[1..];
    }
  }

  /** The bound holds of the real limiter for every key that is neither reset nor evicted. */
  lemma BoundedSlidingWindow(c: Config, rs: seq<Timed>, key: Key, from: int, a: int, b: int)
    requires c.Sensible() && Ordered(rs, from) && NeverReset(rs, key) && NeverEvicted(EMPTY, c, rs, key) && a <= b
    ensures BoundedAllowedIn(EMPTY, c, rs, key, a, b) <= c.max * (CeilDiv(b - a, c.MinWindow()) + 1)
  {
    AllowedAgrees(EMPTY, map[], c, rs, from, key, a, b);
    EvictionsKeepOrder(EMPTY, c, rs, from);
    NeitherResetNorEvicted(EMPTY, c, rs, key);
    SlidingWindowBound(c, WithEvictions(EMPTY, c, rs), key, from, a, b);
  }

  // ---------------------------------------------------------------- waiting is enough

  predicate AllowedAt(m: Buckets, key: Key, c: Config, t: int) {
    BuildDecision(View(m, key, c, t), c, t).allowed
  }

  ghost predicate AllowedFrom(m: Buckets, key: Key, c: Config, reset: int) {
    forall t :: reset <= t ==> AllowedAt(m, key, c, t)
  }

  predicate NoneAllowed(m: Buckets, c: Config, rs: seq<Timed>, key: Key)
    decreases |rs|
  {
    rs == [] ||
    (var answer := Simple(m, c, rs[0].at, rs[0].request);
     !(rs[0].request == Consume(key) && answer.decision.value.allowed) && NoneAllowed(answer.buckets, c, rs[1..], key))
  }

  lemma RefusalNamesItsEnd(m: Buckets, c: Config, now: int, r: Request)
    requires c.Sensible() && BucketsOk(m, c, now) && !r.Reset? && !Simple(m, c, now, r).decision.value.allowed
    ensures var d := Simple(m, c, now, r).decision.value;
            && 0 < d.retryAfterMs && d.resetAtMs == now + d.retryAfterMs
            && AllowedFrom(Simple(m, c, now, r).buckets, r.key, c, d.resetAtMs)
  {
    ViewOk(m, r.key, c, now, now);
    var m' := Simple(m, c, now, r).buckets;
    forall t | Simple(m, c, now, r).decision.value.resetAtMs <= t
      ensures AllowedAt(m', r.key, c, t)
    {
    }
  }

  lemma StepStaysAllowed(m: Buckets, c: Config, at: int, r: Request, key: Key, reset: int)
    requires c.Sensible() && AllowedFrom(m, key, c, reset)
    requires !(r == Consume(key) && Simple(m, c, at, r).decision.value.allowed)
    ensures forall t :: reset <= t && at <= t ==> AllowedAt(Simple(m, c, at, r).buckets, key, c, t)
  {
    var m' := Simple(m, c, at, r).buckets;
    forall t | reset <= t && at <= t
      ensures AllowedAt(m', key, c, t)
    {
      assert AllowedAt(m, key, c, t);
    }
  }

  lemma {:induction false} StaysAllowed(m: Buckets, c: Config, rs: seq<Timed>, now: int, key: Key, reset: int, t: int)
    requires c.Sensible() && AllowedFrom(m, key, c, reset) && Ordered(rs, now) && NoneAllowed(m, c, rs, key)
    requires reset <= t && LastAt(rs, now) <= t
    ensures AllowedAt(SimpleRun(m, c, rs), key, c, t)
    decreases |rs|
  {
    if rs == [] {
      assert AllowedAt(m, key, c, t);
    } else {
      var at := rs[0].at;
      StepStaysAllowed(m, c, at, rs[0].request, key, reset);
      var next := if reset < at then at else reset;
      LastIsLatest(rs[1..], at);
      StaysAllowed(Simple(m, c, at, rs[0].request).buckets, c, rs[1..], at, key, next, t);
    }
  }

  lemma {:induction false} LastIsLatest(rs: seq<Timed>, now: int)
    requires Ordered(rs, now)
    ensures now <= LastAt(rs, now)
    decreases |rs|
  {
    if rs != [] {
      LastIsLatest(rs[1..], rs[0].at);
    }
  }

  /**
   A refused client that waits until the announced time is let through: whatever other requests
   come in between, a consume at or after resetAtMs is allowed unless one before it already was.
   */
  lemma WaitingIsEnough(m: Buckets, c: Config, now: int, r: Request, rs: seq<Timed>, t: int)
    requires c.Sensible() && BucketsOk(m, c, now) && !r.Reset?
    requires !Simple(m, c, now, r).decision.value.allowed
    requires Ordered(rs, now) && NoneAllowed(Simple(m, c, now, r).buckets, c, rs, r.key)
    requires LastAt(rs, now) <= t && Simple(m, c, now, r).decision.value.resetAtMs <= t
    ensures Simple(SimpleRun(Simple(m, c, now, r).buckets, c, rs), c, t, Consume(r.key)).decision.value.allowed
  {
    RefusalNamesItsEnd(m, c, now, r);
    StaysAllowed(Simple(m, c, now, r).buckets, c, rs, now, r.key, Simple(m, c, now, r).decision.value.resetAtMs, t);
  }

  // the same for the bounded limiter, where pruning and eviction only free a client sooner

  predicate BoundedNoneAllowed(s: Store, c: Config, rs: seq<Timed>, key: Key)
    requires s.Valid()
    decreases |rs|
  {
    rs == [] ||
    (var answer := Bounded(s, c, rs[0].at, rs[0].request);
     !(rs[0].request == Consume(key) && answer.decision.value.allowed) && BoundedNoneAllowed(answer.store, c, rs[1..], key))
  }

  lemma ReplayedStaysAllowed(m: Buckets, c: Config, key: Key, evicted: Option<Key>, reset: int)
    requires c.Sensible() && AllowedFrom(m, key, c, reset)
    ensures AllowedFrom(Replayed(m, evicted), key, c, reset)
  {
    forall t | reset <= t
      ensures AllowedAt(Replayed(m, evicted), key, c, t)
    {
      assert AllowedAt(m, key, c, t);
    }
  }

  /** What the plain limiter shows of a key from some time on, the bounded one shows too. */
  lemma SameAllowed(m: Buckets, n: Buckets, c: Config, now: int, key: Key, reset: int)
    requires SameView(m, n, c, now)
    requires forall t :: reset <= t && now <= t ==> AllowedAt(n, key, c, t)
    ensures forall t :: reset <= t && now <= t ==> AllowedAt(m, key, c, t)
  {
    forall t | reset <= t && now <= t
      ensures AllowedAt(m, key, c, t)
    {
      assert AgreeAt(m, n, c, key, t) && AllowedAt(n, key, c, t);
    }
  }

  lemma BoundedStepStaysAllowed(s: Store, c: Config, at: int, r: Request, key: Key, reset: int)
    requires s.Valid() && c.Sensible() && AllowedFrom(s.buckets, key, c, reset)
    requires !(r == Consume(key) && Bounded(s, c, at, r).decision.value.allowed)
    ensures forall t :: reset <= t && at <= t ==> AllowedAt(Bounded(s, c, at, r).store.buckets, key, c, t)
  {
    var a := Bounded(s, c, at, r);
    var n := Replayed(s.buckets, a.evicted);
    StepAgrees(s, s.buckets, c, at, r);
    ReplayedStaysAllowed(s.buckets, c, key, a.evicted, reset);
    StepStaysAllowed(n, c, at, r, key, reset);
    SameAllowed(a.store.buckets, Simple(n, c, at, r).buckets, c, at, key, reset);
  }

  lemma {:induction false} BoundedStaysAllowed(s: Store, c: Config, rs: seq<Timed>, now: int, key: Key, reset: int, t: int)
    requires s.Valid() && c.Sensible() && AllowedFrom(s.buckets, key, c, reset) && Ordered(rs, now) && BoundedNoneAllowed(s, c, rs, key)
    requires reset <= t && LastAt(rs, now) <= t
    ensures AllowedAt(BoundedRun(s, c, rs).buckets, key, c, t)
    decreases |rs|
  {
    if rs == [] {
      assert AllowedAt(s.buckets, key, c, t);
    } else {
      var at := rs[0].at;
      BoundedStepStaysAllowed(s, c, at, rs[0].request, key, reset);
      var next := if reset < at then at else reset;
      LastIsLatest(rs[1..], at);
      BoundedStaysAllowed(Bounded(s, c, at, rs[0].request).store, c, rs[1..], at, key, next, t);
    }
  }

  lemma BoundedAllowsViewed(s: Store, c: Config, t: int, key: Key)
    requires s.Valid() && c.Sensible() && AllowedAt(s.buckets, key, c, t)
    ensures Bounded(s, c, t, Consume(key)).decision.value.allowed
  {
    StepAgrees(s, s.buckets, c, t, Consume(key));
  }

  lemma BoundedRefusal(s: Store, c: Config, now: int, r: Request)
    requires s.Valid() && c.Sensible() && BucketsOk(s.buckets, c, now) && !r.Reset? && !Bounded(s, c, now, r).decision.value.allowed
    ensures var a := Bounded(s, c, now, r);
            && now <= a.decision.value.resetAtMs
            && AllowedFrom(a.store.buckets, r.key, c, a.decision.value.resetAtMs)
  {
    var a := Bounded(s, c, now, r);
    var n := Replayed(s.buckets, a.evicted);
    StepAgrees(s, s.buckets, c, now, r);
    RefusalNamesItsEnd(n, c, now, r);
    SameAllowed(a.store.buckets, Simple(n, c, now, r).buckets, c, now, r.key, a.decision.value.resetAtMs);
  }

  /** The real limiter keeps the promise in every run, whatever it prunes or evicts meanwhile. */
  lemma BoundedWaitingIsEnough(s: Store, c: Config, now: int, r: Request, rs: seq<Timed>, t: int)
    requires s.Valid() && c.Sensible() && BucketsOk(s.buckets, c, now) && !r.Reset?
    requires !Bounded(s, c, now, r).decision.value.allowed
    requires Ordered(rs, now) && BoundedNoneAllowed(Bounded(s, c, now, r).store, c, rs, r.key)
    requires LastAt(rs, now) <= t && Bounded(s, c, now, r).decision.value.resetAtMs <= t
    ensures Bounded(BoundedRun(Bounded(s, c, now, r).store, c, rs), c, t, Consume(r.key)).decision.value.allowed
  {
    var a := Bounded(s, c, now, r);
    BoundedRefusal(s, c, now, r);
    BoundedStaysAllowed(a.store, c, rs, now, r.key, a.decision.value.resetAtMs, t);
    BoundedAllowsViewed(BoundedRun(a.store, c, rs), c, t, r.key);
  }

  /** The whole seconds of the Retry-After header (src/rate-limit/vault-api-rate-limit.ts). */
  function RetryAfterSeconds(d: Decision): int {
    var seconds := CeilDiv(d.retryAfterMs, 1000);
    if seconds < 1 then 1 else seconds
  }

  /** Waiting the emitted whole seconds covers the wait, and overshoots it by less than a second. */
  lemma RetryAfterCoversTheWait(m: Buckets, c: Config, now: int, r: Request)
    requires c.Sensible() && BucketsOk(m, c, now) && !r.Reset? && !Simple(m, c, now, r).decision.value.allowed
    ensures var d := Simple(m, c, now, r).decision.value;
            d.resetAtMs <= now + RetryAfterSeconds(d) * 1000 < d.resetAtMs + 1000
  {
    RefusalNamesItsEnd(m, c, now, r);
  }

  /**
   The lockout the code enforces: it ends at its own end or at the end of the window it was
   earned in, whichever comes first.
   */
  lemma LockoutEndsExactlyAt(b: Bucket, c: Config, now: int, t: int)
    requires c.Sensible() && BucketOk(b, c, now) && b.lockedOutUntilMs.Some? && now <= t
    ensures BuildDecision(Refreshed(b, c, t), c, t).allowed <==>
            b.lockedOutUntilMs.value <= t || b.windowStartMs + c.windowMs <= t
  {
  }

  /** So the lockout earned at `now` runs its full length exactly when it fits in what is left of the window. */
  lemma FullLockoutExactlyWhen(b: Bucket, c: Config, now: int)
    requires c.Sensible() && c.HasLockout() && BucketOk(b, c, now) && b.lockedOutUntilMs.None? && b.count == c.max - 1
    requires !WindowOver(b, c, now)
    ensures var locked := Charged(b, c, now);
            (forall t :: now <= t < now + c.lockoutMs.value ==> !AllowedAt(map[[] := locked], [], c, t))
            <==> now + c.lockoutMs.value <= b.windowStartMs + c.windowMs
  {
    var locked := Charged(b, c, now);
    var m: Buckets := map[[] := locked];
    assert BucketOk(locked, c, now);
    forall t | now <= t < now + c.lockoutMs.value
      ensures AllowedAt(m, [], c, t) <==> b.windowStartMs + c.windowMs <= t
    {
      LockoutEndsExactlyAt(locked, c, now, t);
    }
    if b.windowStartMs + c.windowMs < now + c.lockoutMs.value {
      assert AllowedAt(m, [], c, b.windowStartMs + c.windowMs);
    }
  }

  /** The default unlock policy: 5 failures in 15 minutes, then a 30-minute lockout. */
  const DEFAULT_UNLOCK := Config(5, 900_000, Some(1_800_000), 10_000)

  /** Under it no lockout is served in full: the window ends first. */
  lemma DefaultLockoutIsCutShort(b: Bucket, now: int)
    requires BucketOk(b, DEFAULT_UNLOCK, now) && b.lockedOutUntilMs.None? && b.count == 4 && !WindowOver(b, DEFAULT_UNLOCK, now)
    ensures exists t :: now <= t < now + 900_001 && AllowedAt(map[[] := Charged(b, DEFAULT_UNLOCK, now)], [], DEFAULT_UNLOCK, t)
  {
    var locked := Charged(b, DEFAULT_UNLOCK, now);
    assert BucketOk(locked, DEFAULT_UNLOCK, now);
    LockoutEndsExactlyAt(locked, DEFAULT_UNLOCK, now, b.windowStartMs + 900_000);
    assert AllowedAt(map[[] := locked], [], DEFAULT_UNLOCK, b.windowStartMs + 900_000);
  }
}
