/**
 The limiter as it runs: a map of buckets updated in place, pruned and scanned by loops
 (src/rate-limit/fixed-window.ts), and the unlock wrapper around it
 (src/rate-limit/vault-unlock-rate-limit.ts).
 */
module FixedWindowLimiter {
  import opened Prelude
  import opened FixedWindowSpec
  import opened FixedWindowTheorems

  class Limiter {
    const config: Config
    var order: seq<Key>
    var buckets: Buckets

    ghost predicate Valid()
      reads this
    {
      Contents().Valid()
    }

    ghost function Contents(): Store
      reads this
    {
      Store(order, buckets)
    }

    constructor (config: Config)
      ensures this.config == config && Valid() && Contents() == EMPTY
    {
      this.config := config;
      order, buckets := [], map[];
    }

    method Delete(key: Key)
      requires Valid()
      modifies this
      ensures Valid() && Contents() == Deleted(old(Contents()), key)
    {
      var kept: seq<Key> := [];
      for i := 0 to |order|
        invariant order == old(order) && buckets == old(buckets)
        invariant kept == RemoveKey(order[..i], key)
      {
        assert order[..i + 1] == order[..i] + [order[i]];
        RemoveKeySnoc(order[..i], order[i], key);
        if order[i] != key {
          kept := kept + [order[i]];
        }
      }
      assert order[..|order|] == order;
      order := kept;
      buckets := buckets - {key};
      assert Contents() == Deleted(old(Contents()), key);
    }

    /** Drops the expired empty buckets. */
    method PruneExpired(now: int)
      requires Valid()
      modifies this
      ensures Valid() && Contents() == Pruned(old(Contents()), config, now)
    {
      order, buckets := Sweep(order, buckets, config, now);
      assert Contents() == Pruned(old(Contents()), config, now);
    }

    /** The scan for the earliest window start. */
    method FindOldest() returns (oldestKey: Option<Key>)
      requires Valid()
      ensures oldestKey == if order == [] then None else Some(order[OldestOf(Contents(), |order|)])
    {
      oldestKey := None;
      var oldestStart: Option<int> := None;
      ghost var oldest: nat := 0;
      for i := 0 to |order|
        invariant i == 0 ==> oldestKey == None && oldestStart == None
        invariant 0 < i ==> oldest < i && oldest == OldestOf(Contents(), i)
        invariant 0 < i ==> oldestKey == Some(order[oldest]) && oldestStart == Some(buckets[order[oldest]].windowStartMs)
      {
        OldestNext(Contents(), i);
        var start := buckets[order[i]].windowStartMs;
        if oldestStart.None? || start < oldestStart.value {
          oldestStart := Some(start);
          oldestKey := Some(order[i]);
          oldest := i;
        }
      }
    }

    /** Deletes the bucket that started earliest if its key is not empty. */
    method EvictOldestBucket()
      requires Valid()
      modifies this
      ensures Valid()
      ensures Contents() == var s := old(Contents()); if Victim(s).Some? then Deleted(s, Victim(s).value) else s
    {
      var oldestKey := FindOldest();
      if oldestKey.Some? && oldestKey.value != [] {
        Delete(oldestKey.value);
      }
    }

    method RefreshBucketIfExpired(key: Key, now: int)
      requires Valid() && key in buckets
      modifies this
      ensures Valid() && order == old(order)
      ensures buckets == old(buckets)[key := Refreshed(old(buckets)[key], config, now)]
    {
      var bucket := buckets[key];
      if bucket.lockedOutUntilMs.Some? && now >= bucket.lockedOutUntilMs.value {
        bucket := bucket.(lockedOutUntilMs := None, windowStartMs := now, count := 0);
      } else if now - bucket.windowStartMs >= config.windowMs {
        bucket := bucket.(windowStartMs := now, count := 0, lockedOutUntilMs := None);
      }
      buckets := buckets[key := bucket];
    }

    method CreateBucket(key: Key, now: int)
      requires Valid() && key !in buckets
      modifies this
      ensures Valid()
      ensures Contents() == Store(old(order) + [key], old(buckets)[key := Fresh(now)])
    {
      order := order + [key];
      buckets := buckets[key := Fresh(now)];
    }

    method GetOrCreateBucket(key: Key, now: int)
      requires Valid() && Pruned(Contents(), config, now) == Contents()
      modifies this
      ensures Valid() && Contents() == Accessed(old(Contents()), config, now, key)
    {
      if key !in buckets {
        PruneExpired(now);
        if |order| >= config.maxBuckets {
          EvictOldestBucket();
        }
        CreateBucket(key, now);
      } else {
        RefreshBucketIfExpired(key, now);
      }
    }

    /** The part of `check` after the bucket has been found. */
    method Look(key: Key, now: int) returns (decision: Decision)
      requires key in buckets
      ensures decision == Take(buckets[key], config, now, false).decision
    {
      decision := BuildDecision(buckets[key], config, now);
    }

    /** The part of `consume` after the bucket has been found. */
    method Charge(key: Key, now: int) returns (decision: Decision)
      requires key in buckets
      modifies this`buckets
      ensures var turn := Take(old(buckets)[key], config, now, true);
              decision == turn.decision && buckets == old(buckets)[key := turn.bucket]
    {
      var bucket := buckets[key];
      var before := BuildDecision(bucket, config, now);
      if !before.allowed {
        return before;
      }
      bucket := bucket.(count := bucket.count + 1);
      if bucket.count >= config.max && config.lockoutMs.Some? && config.lockoutMs.value > 0 {
        bucket := bucket.(lockedOutUntilMs := Some(now + config.lockoutMs.value));
      }
      buckets := buckets[key := bucket];
      var after := BuildDecision(bucket, config, now);
      decision := after.(allowed := true);
    }

    method Access(key: Key, now: int)
      requires Valid()
      modifies this
      ensures Valid() && Contents() == Accessed(old(Contents()), config, now, key)
    {
      PruneExpired(now);
      PrunedTwice(old(Contents()), config, now);
      GetOrCreateBucket(key, now);
    }

    method Check(key: Key, now: int) returns (decision: Decision)
      requires Valid()
      modifies this
      ensures Valid()
      ensures var a := Bounded(old(Contents()), config, now, Request.Check(key));
              Contents() == a.store && Some(decision) == a.decision
    {
      Access(key, now);
      decision := Look(key, now);
      assert buckets == buckets[key := buckets[key]];
    }

    method Consume(key: Key, now: int) returns (decision: Decision)
      requires Valid()
      modifies this
      ensures Valid()
      ensures var a := Bounded(old(Contents()), config, now, Request.Consume(key));
              Contents() == a.store && Some(decision) == a.decision
    {
      Access(key, now);
      decision := Charge(key, now);
    }

    method Reset(key: Key)
      requires Valid()
      modifies this
      ensures Valid() && Contents() == Deleted(old(Contents()), key)
    {
      Delete(key);
    }

    method Handle(r: Timed) returns (decision: Option<Decision>)
      requires Valid()
      modifies this
      ensures Valid()
      ensures var a := Bounded(old(Contents()), config, r.at, r.request);
              Contents() == a.store && decision == a.decision
    {
      match r.request {
        case Check(key) =>
          var d := Check(key, r.at);
          decision := Some(d);
        case Consume(key) =>
          var d := Consume(key, r.at);
          decision := Some(d);
        case Reset(key) =>
          Reset(key);
          decision := None;
      }
    }
  }

  lemma OldestNext(s: Store, i: nat)
    requires s.Valid() && i < |s.order|
    ensures OldestOf(s, i + 1) ==
            if i == 0 || s.buckets[s.order[i]].windowStartMs < s.buckets[s.order[OldestOf(s, i)]].windowStartMs then i else OldestOf(s, i)
  {
  }

  lemma {:induction false} FilterSnoc(order: seq<Key>, key: Key, m: Buckets, c: Config, now: int)
    requires key in m && forall k <- order :: k in m
    ensures Filter(order + [key], m, c, now) ==
            Filter(order, m, c, now) + if Prunable(m[key], c, now) then [] else [key]
  {
    if order == [] {
      assert order + [key] == [key];
    } else {
      assert (order + [key])[0] == order[0] && (order + [key])[1..] == order[1..] + [key];
      FilterSnoc(order[1..], key, m, c, now);
    }
  }

  lemma {:induction false} RemoveKeySnoc(order: seq<Key>, last: Key, key: Key)
    ensures RemoveKey(order + [last], key) == RemoveKey(order, key) + if last == key then [] else [last]
  {
    if order == [] {
      assert order + [last] == [last];
    } else {
      assert (order + [last])[0] == order[0] && (order + [last])[1..] == order[1..] + [last];
      RemoveKeySnoc(order[1..], last, key);
    }
  }

  /** The two tests under which pruning deletes a bucket. */
  method IsExpired(bucket: Bucket, config: Config, now: int) returns (expired: bool)
    ensures expired == Prunable(bucket, config, now)
  {
    var lockoutExpired := bucket.lockedOutUntilMs.Some? && now >= bucket.lockedOutUntilMs.value;
    var windowExpired := now - bucket.windowStartMs >= config.windowMs;
    if lockoutExpired && windowExpired && bucket.count == 0 {
      return true;
    }
    return LockoutFalsy(bucket) && windowExpired && bucket.count == 0;
  }

  /** `live` is the map once the keys in `visited` have been looked at. */
  ghost predicate IsSwept(live: Buckets, m: Buckets, c: Config, now: int, visited: set<Key>) {
    live.Keys <= m.Keys && forall k <- m :: (k in live <==> !(k in visited && Prunable(m[k], c, now))) && (k in live ==> live[k] == m[k])
  }

  lemma SweptStep(live: Buckets, m: Buckets, c: Config, now: int, visited: set<Key>, key: Key)
    requires key in m && IsSwept(live, m, c, now, visited)
    ensures IsSwept(if Prunable(m[key], c, now) then live - {key} else live, m, c, now, visited + {key})
  {
  }

  lemma SweptAll(live: Buckets, s: Store, c: Config, now: int, visited: set<Key>)
    requires s.Valid() && IsSwept(live, s.buckets, c, now, visited) && s.buckets.Keys <= visited
    ensures live == Pruned(s, c, now).buckets
  {
  }

  lemma VisitedAll(order: seq<Key>, visited: set<Key>, m: Buckets)
    requires visited == KeySet(order) && forall k <- m :: k in order
    ensures m.Keys <= visited
  {
  }

  ghost function KeySet(order: seq<Key>): set<Key> {
    set k | k in order
  }

  lemma KeySetSnoc(order: seq<Key>, key: Key)
    ensures KeySet(order + [key]) == KeySet(order) + {key}
  {
  }

  /** Visits every bucket once, in insertion order, and drops the expired empty ones. */
  method Sweep(order: seq<Key>, buckets: Buckets, config: Config, now: int) returns (kept: seq<Key>, live: Buckets)
    requires Store(order, buckets).Valid()
    ensures Store(kept, live) == Pruned(Store(order, buckets), config, now)
  {
    kept, live := [], buckets;
    for i := 0 to |order|
      invariant kept == Filter(order[..i], buckets, config, now)
      invariant IsSwept(live, buckets, config, now, KeySet(order[..i]))
    {
      var key := order[i];
      assert order[..i + 1] == order[..i] + [key];
      FilterSnoc(order[..i], key, buckets, config, now);
      KeySetSnoc(order[..i], key);
      SweptStep(live, buckets, config, now, KeySet(order[..i]), key);
      var expired := IsExpired(buckets[key], config, now);
      if expired {
        live := live - {key};
      } else {
        kept := kept + [key];
      }
    }
    assert order[..|order|] == order;
    VisitedAll(order, KeySet(order), buckets);
    SweptAll(live, Store(order, buckets), config, now, KeySet(order));
  }

  lemma {:induction false} NothingToFilter(order: seq<Key>, m: Buckets, c: Config, now: int)
    requires forall k <- order :: k in m && !Prunable(m[k], c, now)
    ensures Filter(order, m, c, now) == order
  {
    if order != [] {
      NothingToFilter(order[1..], m, c, now);
    }
  }

  lemma PrunedTwice(s: Store, c: Config, now: int)
    requires s.Valid()
    ensures Pruned(Pruned(s, c, now), c, now) == Pruned(s, c, now)
  {
    var p := Pruned(s, c, now);
    NothingToFilter(p.order, p.buckets, c, now);
  }

  lemma FirstBoundedDecision(s: Store, c: Config, rs: seq<Timed>)
    requires s.Valid() && rs != []
    ensures var a := Bounded(s, c, rs[0].at, rs[0].request);
            BoundedDecisions(s, c, rs) == ToSeq(a.decision) + BoundedDecisions(a.store, c, rs[1..])
  {
  }

  method HandleAll(limiter: Limiter, requests: seq<Timed>) returns (decisions: seq<Decision>)
    requires limiter.Valid()
    modifies limiter
    ensures limiter.Valid()
    ensures decisions == BoundedDecisions(old(limiter.Contents()), limiter.config, requests)
    decreases |requests|
  {
    if requests == [] {
      return [];
    }
    FirstBoundedDecision(limiter.Contents(), limiter.config, requests);
    var d := limiter.Handle(requests[0]);
    var rest := HandleAll(limiter, requests[1..]);
    decisions := ToSeq(d) + rest;
  }

  /**
   Running the limiter over a list of requests gives the bounded limiter's decisions, which on an
   ordered clock are the plain one's with each eviction written out as a reset.
   */
  method Replay(config: Config, requests: seq<Timed>, ghost from: int) returns (decisions: seq<Decision>)
    ensures decisions == BoundedDecisions(EMPTY, config, requests)
    ensures Ordered(requests, from) ==> decisions == SimpleDecisions(map[], config, WithEvictions(EMPTY, config, requests))
  {
    var limiter := new Limiter(config);
    decisions := HandleAll(limiter, requests);
    if Ordered(requests, from) {
      BoundedRefinesSimple(config, requests, from);
    }
  }
}
