/**
 The rate limiter's meaning: buckets, decisions, the plain unbounded limiter, and the
 bounded one with its pruning and eviction (src/rate-limit/fixed-window.ts).
 */
module FixedWindowSpec {
  import opened Prelude

  type Key = Text

  datatype Bucket = Bucket(windowStartMs: int, count: int, lockedOutUntilMs: Option<int>)

  datatype Config = Config(max: int, windowMs: int, lockoutMs: Option<int>, maxBuckets: int) {
    /** Counts, durations and capacities as every caller in the repository passes them. */
    predicate Sensible() {
      1 <= max && 0 < windowMs && 1 <= maxBuckets
    }

    predicate HasLockout() {
      lockoutMs.Some? && 0 < lockoutMs.value
    }

    /** The shortest time between the starts of two successive windows of one key. */
    function MinWindow(): int {
      if HasLockout() && lockoutMs.value < windowMs then lockoutMs.value else windowMs
    }
  }

  datatype Decision = Decision(allowed: bool, remaining: int, resetAtMs: int, retryAfterMs: int, lockedOut: bool)

  predicate LockedAt(b: Bucket, now: int) {
    b.lockedOutUntilMs.Some? && now < b.lockedOutUntilMs.value
  }

  predicate LockoutOver(b: Bucket, now: int) {
    b.lockedOutUntilMs.Some? && b.lockedOutUntilMs.value <= now
  }

  predicate WindowOver(b: Bucket, c: Config, now: int) {
    now - b.windowStartMs >= c.windowMs
  }

  function BuildDecision(b: Bucket, c: Config, now: int): Decision {
    if LockedAt(b, now) then
      Decision(false, 0, b.lockedOutUntilMs.value, b.lockedOutUntilMs.value - now, true)
    else
      var windowEnd := b.windowStartMs + c.windowMs;
      var allowed := b.count < c.max;
      Decision(allowed, if allowed then c.max - b.count else 0, windowEnd, if allowed then 0 else windowEnd - now, false)
  }

  function Fresh(now: int): Bucket {
    Bucket(now, 0, None)
  }

  function Refreshed(b: Bucket, c: Config, now: int): Bucket {
    if LockoutOver(b, now) || WindowOver(b, c, now) then Fresh(now) else b
  }

  function Charged(b: Bucket, c: Config, now: int): Bucket {
    var count := b.count + 1;
    b.(count := count, lockedOutUntilMs := if count >= c.max && c.HasLockout() then Some(now + c.lockoutMs.value) else b.lockedOutUntilMs)
  }

  // ---------------------------------------------------------------- the plain limiter

  type Buckets = map<Key, Bucket>

  /** The bucket a request at `now` finds: a missing one is as good as one just started. */
  function View(m: Buckets, key: Key, c: Config, now: int): Bucket {
    if key in m then Refreshed(m[key], c, now) else Fresh(now)
  }

  datatype Request = Check(key: Key) | Consume(key: Key) | Reset(key: Key)
  datatype Timed = Timed(at: int, request: Request)
  datatype Answer = Answer(buckets: Buckets, decision: Option<Decision>)

  datatype Turn = Turn(bucket: Bucket, decision: Decision)

  /** What a request does to the bucket it finds; a check only looks. */
  function Take(b: Bucket, c: Config, now: int, consume: bool): Turn {
    var before := BuildDecision(b, c, now);
    if !consume || !before.allowed then Turn(b, before)
    else
      var charged := Charged(b, c, now);
      Turn(charged, BuildDecision(charged, c, now).(allowed := true))
  }

  function Simple(m: Buckets, c: Config, now: int, r: Request): Answer {
    if r.Reset? then Answer(m - {r.key}, None)
    else
      var turn := Take(View(m, r.key, c, now), c, now, r.Consume?);
      Answer(m[r.key := turn.bucket], Some(turn.decision))
  }

  function ToSeq(d: Option<Decision>): seq<Decision> {
    if d.Some? then [d.value] else []
  }

  function SimpleDecisions(m: Buckets, c: Config, rs: seq<Timed>): seq<Decision>
    decreases |rs|
  {
    if rs == [] then []
    else
      var a := Simple(m, c, rs[0].at, rs[0].request);
      ToSeq(a.decision) + SimpleDecisions(a.buckets, c, rs[1..])
  }

  // ---------------------------------------------------------------- the bounded limiter

  ghost predicate Distinct(keys: seq<Key>) {
    forall i, j :: 0 <= i < j < |keys| ==> keys[i] != keys[j]
  }

  /** A JavaScript Map: its keys in insertion order, and their values. */
  datatype Store = Store(order: seq<Key>, buckets: Buckets) {
    ghost predicate Valid() {
      && (forall k :: k in order <==> k in buckets)
      && Distinct(order)
    }
  }

  const EMPTY := Store([], map[])

  /** Absent or zero: what `!bucket.lockedOutUntilMs` tests. */
  predicate LockoutFalsy(b: Bucket) {
    b.lockedOutUntilMs.None? || b.lockedOutUntilMs.value == 0
  }

  predicate Prunable(b: Bucket, c: Config, now: int) {
    WindowOver(b, c, now) && b.count == 0 && (LockoutOver(b, now) || LockoutFalsy(b))
  }

  function Filter(order: seq<Key>, m: Buckets, c: Config, now: int): (kept: seq<Key>)
    requires forall k <- order :: k in m
    ensures forall k :: k in kept <==> k in order && !Prunable(m[k], c, now)
    ensures |kept| <= |order|
    ensures Distinct(order) ==> Distinct(kept)
  {
    if order == [] then []
    else
      var rest := Filter(order[1..], m, c, now);
      if Prunable(m[order[0]], c, now) then rest else [order[0]] + rest
  }

  function Pruned(s: Store, c: Config, now: int): (p: Store)
    requires s.Valid()
    ensures p.Valid() && |p.order| <= |s.order|
  {
    Store(Filter(s.order, s.buckets, c, now), map k | k in s.buckets && !Prunable(s.buckets[k], c, now) :: s.buckets[k])
  }

  /** `key` started earliest; among equals it was inserted first. */
  ghost predicate IsOldest(s: Store, i: nat)
    requires s.Valid()
  {
    && i < |s.order|
    && (forall j :: 0 <= j < |s.order| ==> s.buckets[s.order[i]].windowStartMs <= s.buckets[s.order[j]].windowStartMs)
    && (forall j :: 0 <= j < i ==> s.buckets[s.order[i]].windowStartMs < s.buckets[s.order[j]].windowStartMs)
  }

  /** Index of the oldest among the first `n` buckets. */
  function OldestOf(s: Store, n: nat): (i: nat)
    requires s.Valid() && 0 < n <= |s.order|
    ensures i < n
    ensures forall j :: 0 <= j < n ==> s.buckets[s.order[i]].windowStartMs <= s.buckets[s.order[j]].windowStartMs
    ensures forall j :: 0 <= j < i ==> s.buckets[s.order[i]].windowStartMs < s.buckets[s.order[j]].windowStartMs
  {
    if n == 1 then 0
    else
      var i := OldestOf(s, n - 1);
      if s.buckets[s.order[n - 1]].windowStartMs < s.buckets[s.order[i]].windowStartMs then n - 1 else i
  }

  /** The key eviction deletes: the oldest, unless that is the empty string, which `if (oldestKey)` skips. */
  function Victim(s: Store): (k: Option<Key>)
    requires s.Valid()
    ensures k.Some? ==> k.value in s.buckets
  {
    if s.order == [] then None
    else
      var k := s.order[OldestOf(s, |s.order|)];
      if k == [] then None else Some(k)
  }

  function RemoveKey(order: seq<Key>, key: Key): (r: seq<Key>)
    ensures forall k :: k in r <==> k in order && k != key
    ensures |r| <= |order| && (key in order ==> |r| < |order|)
    ensures Distinct(order) ==> Distinct(r)
  {
    if order == [] then []
    else
      var rest := RemoveKey(order[1..], key);
      assert order == [order[0]] + order[1..];
      assert Distinct(order) ==> Distinct(order[1..]) && order[0] !in order[1..];
      if order[0] == key then rest else [order[0]] + rest
  }

  function Deleted(s: Store, key: Key): (r: Store)
    requires s.Valid()
    ensures r.Valid()
  {
    Store(RemoveKey(s.order, key), s.buckets - {key})
  }

  /** What a request for `key` evicts: something only when the key is new and the map is full. */
  function Evicted(s: Store, c: Config, now: int, key: Key): Option<Key>
    requires s.Valid()
  {
    var p := Pruned(s, c, now);
    if key in p.buckets || |p.order| < c.maxBuckets then None else Victim(p)
  }

  /** The store once the request's bucket has been found, refreshed or created. */
  function Accessed(s: Store, c: Config, now: int, key: Key): (r: Store)
    requires s.Valid()
    ensures r.Valid() && key in r.buckets
  {
    var p := Pruned(s, c, now);
    if key in p.buckets then p.(buckets := p.buckets[key := Refreshed(p.buckets[key], c, now)])
    else
      var victim := Evicted(s, c, now, key);
      var q := if victim.Some? then Deleted(p, victim.value) else p;
      Store(q.order + [key], q.buckets[key := Fresh(now)])
  }

  datatype BoundedAnswer = BoundedAnswer(store: Store, decision: Option<Decision>, evicted: Option<Key>)

  function Bounded(s: Store, c: Config, now: int, r: Request): (a: BoundedAnswer)
    requires s.Valid()
    ensures a.store.Valid()
  {
    if r.Reset? then BoundedAnswer(Deleted(s, r.key), None, None)
    else
      var t := Accessed(s, c, now, r.key);
      var turn := Take(t.buckets[r.key], c, now, r.Consume?);
      BoundedAnswer(t.(buckets := t.buckets[r.key := turn.bucket]), Some(turn.decision), Evicted(s, c, now, r.key))
  }

  function BoundedRun(s: Store, c: Config, rs: seq<Timed>): (r: Store)
    requires s.Valid()
    ensures r.Valid()
    decreases |rs|
  {
    if rs == [] then s else BoundedRun(Bounded(s, c, rs[0].at, rs[0].request).store, c, rs[1..])
  }

  function BoundedDecisions(s: Store, c: Config, rs: seq<Timed>): seq<Decision>
    requires s.Valid()
    decreases |rs|
  {
    if rs == [] then []
    else
      var a := Bounded(s, c, rs[0].at, rs[0].request);
      ToSeq(a.decision) + BoundedDecisions(a.store, c, rs[1..])
  }

  /** The same requests with each eviction written out as a reset. */
  function WithEvictions(s: Store, c: Config, rs: seq<Timed>): seq<Timed>
    requires s.Valid()
    decreases |rs|
  {
    if rs == [] then []
    else
      var a := Bounded(s, c, rs[0].at, rs[0].request);
      (if a.evicted.Some? then [Timed(rs[0].at, Reset(a.evicted.value))] else [])
      + [rs[0]] + WithEvictions(a.store, c, rs[1..])
  }

  /** Requests arrive on a clock that does not run backwards. */
  predicate Ordered(rs: seq<Timed>, from: int)
    decreases |rs|
  {
    rs == [] || (from <= rs[0].at && Ordered(rs[1..], rs[0].at))
  }
}
