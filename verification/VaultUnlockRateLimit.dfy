/** The unlock wrapper: check, attempt, then charge a failure or reset on success (src/rate-limit/vault-unlock-rate-limit.ts). */
module VaultUnlockRateLimit {
  import opened Prelude
  import opened FixedWindowSpec
  import opened FixedWindowTheorems
  import opened FixedWindowLimiter

  datatype Action = Password | RecoveryPhrase | PasskeyPrf | EmergencyExit

  function ActionName(action: Action): Text {
    match action
    case Password => [0x70, 0x61, 0x73, 0x73, 0x77, 0x6F, 0x72, 0x64] // "password"
    case RecoveryPhrase => [0x72, 0x65, 0x63, 0x6F, 0x76, 0x65, 0x72, 0x79, 0x5F, 0x70, 0x68, 0x72, 0x61, 0x73, 0x65] // "recovery_phrase"
    case PasskeyPrf => [0x70, 0x61, 0x73, 0x73, 0x6B, 0x65, 0x79, 0x5F, 0x70, 0x72, 0x66] // "passkey_prf"
    case EmergencyExit => [0x65, 0x6D, 0x65, 0x72, 0x67, 0x65, 0x6E, 0x63, 0x79, 0x5F, 0x65, 0x78, 0x69, 0x74] // "emergency_exit"
  }

  /** ":" */
  const COLON: CodeUnit := 0x3A

  function UnlockKey(scopeKey: Text, action: Action): Key {
    scopeKey + [COLON] + ActionName(action)
  }

  /** How an attempt that is let run ends; Throttled is a rate-limit error thrown by the attempt itself. */
  datatype Ending = Succeeds | Fails | Throttled

  /** `key` is the UnlockKey of the scope and action. */
  datatype Attempt = Attempt(key: Key, started: int, finished: int, ending: Ending)

  function Recorded(a: Attempt): seq<Timed> {
    match a.ending
    case Succeeds => [Timed(a.finished, Reset(a.key))]
    case Fails => [Timed(a.finished, Consume(a.key))]
    case Throttled => []
  }

  predicate Runs(s: Store, c: Config, a: Attempt)
    requires s.Valid()
  {
    Bounded(s, c, a.started, Check(a.key)).decision.value.allowed
  }

  /** The limiter requests one wrapped attempt makes, if it is let run or not. */
  function RequestsIf(a: Attempt, runs: bool): seq<Timed> {
    [Timed(a.started, Check(a.key))] + if runs then Recorded(a) else []
  }

  function Requests(s: Store, c: Config, a: Attempt): seq<Timed>
    requires s.Valid()
  {
    RequestsIf(a, Runs(s, c, a))
  }

  function Recording(s: Store, c: Config, a: Attempt): (r: Store)
    requires s.Valid()
    ensures r.Valid()
  {
    BoundedRun(s, c, Requests(s, c, a))
  }

  /** Attempts one after another: each is recorded before the next is checked. */
  function AllRequests(s: Store, c: Config, attempts: seq<Attempt>): seq<Timed>
    requires s.Valid()
    decreases |attempts|
  {
    if attempts == [] then []
    else Requests(s, c, attempts[0]) + AllRequests(Recording(s, c, attempts[0]), c, attempts[1..])
  }

  predicate Sequential(attempts: seq<Attempt>, now: int)
    decreases |attempts|
  {
    attempts == [] ||
    (now <= attempts[0].started <= attempts[0].finished && Sequential(attempts[1..], attempts[0].finished))
  }

  /** Which of the attempts are let run. */
  function Ran(s: Store, c: Config, attempts: seq<Attempt>): (ran: seq<bool>)
    requires s.Valid()
    ensures |ran| == |attempts|
    decreases |attempts|
  {
    if attempts == [] then [] else [Runs(s, c, attempts[0])] + Ran(Recording(s, c, attempts[0]), c, attempts[1..])
  }

  predicate IsFailure(t: Attempt, ran: bool, key: Key, a: int, b: int) {
    t.key == key && t.ending == Fails && ran && a <= t.finished < b
  }

  /** Attempts on `key` that ran and failed at a time in [a, b). */
  function Failures(attempts: seq<Attempt>, ran: seq<bool>, key: Key, a: int, b: int): (n: nat)
    requires |ran| == |attempts|
    decreases |attempts|
  {
    if attempts == [] then 0
    else (if IsFailure(attempts[0], ran[0], key, a, b) then 1 else 0) + Failures(attempts[1..], ran[1..], key, a, b)
  }

  // ---------------------------------------------------------------- what is recorded

  lemma RefreshedStaysAllowed(b: Bucket, c: Config, now: int, t: int)
    requires c.Sensible() && BucketOk(b, c, now) && now <= t && BuildDecision(b, c, now).allowed
    ensures BuildDecision(Refreshed(b, c, t), c, t).allowed
  {
  }

  lemma AllowedBucket(s: Store, c: Config, now: int, key: Key)
    requires s.Valid() && c.Sensible() && Bounded(s, c, now, Check(key)).decision.value.allowed
    ensures key in Bounded(s, c, now, Check(key)).store.buckets
    ensures BuildDecision(Bounded(s, c, now, Check(key)).store.buckets[key], c, now).allowed
  {
  }

  /** A failure recorded after its own allowed check is itself an allowed consume. */
  lemma CheckedFailureIsCharged(s: Store, c: Config, now: int, t: Attempt)
    requires s.Valid() && c.Sensible() && BucketsOk(s.buckets, c, now) && now <= t.started <= t.finished && Runs(s, c, t)
    ensures Bounded(Bounded(s, c, t.started, Check(t.key)).store, c, t.finished, Consume(t.key)).decision.value.allowed
  {
    var s1 := Bounded(s, c, t.started, Check(t.key)).store;
    BoundedKeepsBuckets(s, c, now, t.started, Check(t.key));
    AllowedBucket(s, c, t.started, t.key);
    RefreshedStaysAllowed(s1.buckets[t.key], c, t.started, t.finished);
    assert AllowedAt(s1.buckets, t.key, c, t.finished);
    BoundedAllowsViewed(s1, c, t.finished, t.key);
  }

  lemma FirstBoundedAllowed(s: Store, c: Config, r: Timed, rest: seq<Timed>, key: Key, a: int, b: int)
    requires s.Valid()
    ensures var answer := Bounded(s, c, r.at, r.request);
            BoundedAllowedIn(s, c, [r] + rest, key, a, b) ==
            (if r.request == Consume(key) && answer.decision.value.allowed && a <= r.at < b then 1 else 0)
            + BoundedAllowedIn(answer.store, c, rest, key, a, b)
  {
    assert ([r] + rest)[0] == r && ([r] + rest)[1..] == rest;
  }

  lemma {:induction false} RunConcat(s: Store, c: Config, rs: seq<Timed>, more: seq<Timed>, key: Key, a: int, b: int)
    requires s.Valid()
    ensures BoundedAllowedIn(s, c, rs + more, key, a, b) == BoundedAllowedIn(s, c, rs, key, a, b) + BoundedAllowedIn(BoundedRun(s, c, rs), c, more, key, a, b)
    ensures BoundedRun(s, c, rs + more) == BoundedRun(BoundedRun(s, c, rs), c, more)
    decreases |rs|
  {
    if rs == [] {
      assert rs + more == more;
    } else {
      assert rs + more == [rs[0]] + (rs[1..] + more) && rs == [rs[0]] + rs[1..];
      FirstBoundedAllowed(s, c, rs[0], rs[1..] + more, key, a, b);
      FirstBoundedAllowed(s, c, rs[0], rs[1..], key, a, b);
      RunConcat(Bounded(s, c, rs[0].at, rs[0].request).store, c, rs[1..], more, key, a, b);
      BoundedRunCons(s, c, rs[0], rs[1..] + more);
      BoundedRunCons(s, c, rs[0], rs[1..]);
    }
  }

  lemma OneRequest(s: Store, c: Config, r: Timed, key: Key, a: int, b: int)
    requires s.Valid()
    ensures BoundedRun(s, c, [r]) == Bounded(s, c, r.at, r.request).store
    ensures BoundedAllowedIn(s, c, [r], key, a, b) ==
            if r.request == Consume(key) && Bounded(s, c, r.at, r.request).decision.value.allowed && a <= r.at < b then 1 else 0
  {
    assert [r] == [r] + [];
    BoundedRunCons(s, c, r, []);
    FirstBoundedAllowed(s, c, r, [], key, a, b);
  }

  /** What is stored after one wrapped attempt. */
  lemma RecordingIs(s: Store, c: Config, t: Attempt)
    requires s.Valid()
    ensures var checked := Bounded(s, c, t.started, Check(t.key)).store;
            Recording(s, c, t) ==
            if !Runs(s, c, t) then checked
            else match t.ending
                 case Succeeds => Deleted(checked, t.key)
                 case Fails => Bounded(checked, c, t.finished, Consume(t.key)).store
                 case Throttled => checked
  {
    var check := Timed(t.started, Check(t.key));
    var checked := Bounded(s, c, t.started, Check(t.key)).store;
    BoundedRunCons(s, c, check, if Runs(s, c, t) then Recorded(t) else []);
    if Runs(s, c, t) && t.ending != Throttled {
      OneRequest(checked, c, Recorded(t)[0], t.key, 0, 0);
      assert Recorded(t) == [Recorded(t)[0]];
    }
  }

  lemma RecordedAlone(s: Store, c: Config, t: Attempt, key: Key, a: int, b: int)
    requires s.Valid() && (t.ending == Fails ==> Bounded(s, c, t.finished, Consume(t.key)).decision.value.allowed)
    ensures BoundedAllowedIn(s, c, Recorded(t), key, a, b) == if IsFailure(t, true, key, a, b) then 1 else 0
  {
    if t.ending != Throttled {
      OneRequest(s, c, Recorded(t)[0], key, a, b);
    }
  }

  lemma CheckThenRecord(s: Store, c: Config, t: Attempt, runs: bool, key: Key, a: int, b: int)
    requires s.Valid()
    ensures BoundedAllowedIn(s, c, RequestsIf(t, runs), key, a, b) ==
            if runs then BoundedAllowedIn(Bounded(s, c, t.started, Check(t.key)).store, c, Recorded(t), key, a, b) else 0
  {
    FirstBoundedAllowed(s, c, Timed(t.started, Check(t.key)), if runs then Recorded(t) else [], key, a, b);
  }

  lemma OneAttempt(s: Store, c: Config, now: int, t: Attempt, runs: bool, key: Key, a: int, b: int)
    requires s.Valid() && c.Sensible() && BucketsOk(s.buckets, c, now) && now <= t.started <= t.finished && runs == Runs(s, c, t)
    ensures BoundedAllowedIn(s, c, RequestsIf(t, runs), key, a, b) == if IsFailure(t, runs, key, a, b) then 1 else 0
  {
    CheckThenRecord(s, c, t, runs, key, a, b);
    if runs {
      CheckedFailureIsCharged(s, c, now, t);
      RecordedAlone(Bounded(s, c, t.started, Check(t.key)).store, c, t, key, a, b);
    }
  }

  lemma AttemptKeepsBuckets(s: Store, c: Config, now: int, t: Attempt)
    requires s.Valid() && c.Sensible() && BucketsOk(s.buckets, c, now) && now <= t.started <= t.finished
    ensures BucketsOk(Recording(s, c, t).buckets, c, t.finished)
  {
    var checked := Bounded(s, c, t.started, Check(t.key)).store;
    BoundedKeepsBuckets(s, c, now, t.started, Check(t.key));
    RecordingIs(s, c, t);
    if Runs(s, c, t) && t.ending == Fails {
      BoundedKeepsBuckets(checked, c, t.started, t.finished, Consume(t.key));
    }
  }

  lemma {:induction false} FailuresAreAllowedConsumes(s: Store, c: Config, now: int, attempts: seq<Attempt>, key: Key, a: int, b: int)
    requires s.Valid() && c.Sensible() && BucketsOk(s.buckets, c, now) && Sequential(attempts, now)
    ensures Failures(attempts, Ran(s, c, attempts), key, a, b) == BoundedAllowedIn(s, c, AllRequests(s, c, attempts), key, a, b)
    decreases |attempts|
  {
    if attempts != [] {
      var t := attempts[0];
      var next := Recording(s, c, t);
      OneAttempt(s, c, now, t, Runs(s, c, t), key, a, b);
      AttemptKeepsBuckets(s, c, now, t);
      FailuresAreAllowedConsumes(next, c, t.finished, attempts[1..], key, a, b);
      RunConcat(s, c, Requests(s, c, t), AllRequests(next, c, attempts[1..]), key, a, b);
      assert Ran(s, c, attempts)[1..] == Ran(next, c, attempts[1..]);
    }
  }

  lemma {:induction false} OrderedConcat(rs: seq<Timed>, more: seq<Timed>, now: int, mid: int)
    requires Ordered(rs, now) && Ordered(more, mid) && LastAt(rs, now) <= mid
    ensures Ordered(rs + more, now)
    decreases |rs|
  {
    if rs == [] {
      assert rs + more == more;
    } else {
      assert (rs + more)[0] == rs[0] && (rs + more)[1..] == rs[1..] + more;
      OrderedConcat(rs[1..], more, rs[0].at, mid);
    }
  }

  lemma RequestsAreOrdered(s: Store, c: Config, t: Attempt, now: int)
    requires s.Valid() && now <= t.started <= t.finished
    ensures Ordered(Requests(s, c, t), now) && LastAt(Requests(s, c, t), now) <= t.finished
  {
    var rs := Requests(s, c, t);
    assert rs[0] == Timed(t.started, Check(t.key));
    assert rs[1..] == if Runs(s, c, t) then Recorded(t) else [];
    assert LastAt(rs, now) == LastAt(rs[1..], t.started);
    if rs[1..] != [] {
      assert rs[1..][1..] == [];
      assert LastAt(rs[1..], t.started) == LastAt([], rs[1..][0].at);
    }
  }

  lemma {:induction false} AttemptsAreOrdered(s: Store, c: Config, now: int, attempts: seq<Attempt>)
    requires s.Valid() && Sequential(attempts, now)
    ensures Ordered(AllRequests(s, c, attempts), now)
    decreases |attempts|
  {
    if attempts != [] {
      var t := attempts[0];
      RequestsAreOrdered(s, c, t, now);
      AttemptsAreOrdered(Recording(s, c, t), c, t.finished, attempts[1..]);
      OrderedConcat(Requests(s, c, t), AllRequests(Recording(s, c, t), c, attempts[1..]), now, t.finished);
    }
  }

  lemma NeverResetConcat(xs: seq<Timed>, ys: seq<Timed>, key: Key)
    requires NeverReset(xs, key) && NeverReset(ys, key)
    ensures NeverReset(xs + ys, key)
  {
    assert forall r :: r in xs + ys <==> r in xs || r in ys;
  }

  lemma RequestsNeverReset(t: Attempt, runs: bool, key: Key)
    requires t.key == key ==> t.ending != Succeeds
    ensures NeverReset(RequestsIf(t, runs), key)
  {
  }

  lemma {:induction false} NoSuccessNoReset(s: Store, c: Config, attempts: seq<Attempt>, key: Key)
    requires s.Valid() && forall t <- attempts :: t.key == key ==> t.ending != Succeeds
    ensures NeverReset(AllRequests(s, c, attempts), key)
    decreases |attempts|
  {
    if attempts != [] {
      var t := attempts[0];
      assert t in attempts;
      NoSuccessNoReset(Recording(s, c, t), c, attempts[1..], key);
      RequestsNeverReset(t, Runs(s, c, t), key);
      NeverResetConcat(Requests(s, c, t), AllRequests(Recording(s, c, t), c, attempts[1..]), key);
    }
  }

  // ---------------------------------------------------------------- the bound

  /**
   Used one attempt at a time, the wrapper lets at most max * (ceil((b - a) / m) + 1) failing
   attempts on one scope and action run to their end within any [a, b), until one succeeds or the
   bounded map evicts the bucket.
   */
  lemma FailingAttemptsAreBounded(c: Config, attempts: seq<Attempt>, from: int, key: Key, a: int, b: int)
    requires c.Sensible() && Sequential(attempts, from) && a <= b
    requires forall t <- attempts :: t.key == key ==> t.ending != Succeeds
    requires NeverEvicted(EMPTY, c, AllRequests(EMPTY, c, attempts), key)
    ensures Failures(attempts, Ran(EMPTY, c, attempts), key, a, b) <= c.max * (CeilDiv(b - a, c.MinWindow()) + 1)
  {
    FailuresAreAllowedConsumes(EMPTY, c, from, attempts, key, a, b);
    AttemptsAreOrdered(EMPTY, c, from, attempts);
    NoSuccessNoReset(EMPTY, c, attempts, key);
    BoundedSlidingWindow(c, AllRequests(EMPTY, c, attempts), key, from, a, b);
  }

  function KeysTried(attempts: seq<Attempt>): set<Key> {
    set t | t in attempts :: t.key
  }

  lemma RequestsNameTheirKey(t: Attempt, runs: bool, r: Timed)
    requires r in RequestsIf(t, runs)
    ensures r.request.key == t.key
  {
  }

  lemma {:induction false} RequestsNameTried(s: Store, c: Config, attempts: seq<Attempt>, r: Timed)
    requires s.Valid() && r in AllRequests(s, c, attempts)
    ensures exists t :: t in attempts && t.key == r.request.key
    decreases |attempts|
  {
    if r in Requests(s, c, attempts[0]) {
      RequestsNameTheirKey(attempts[0], Runs(s, c, attempts[0]), r);
    } else {
      RequestsNameTried(Recording(s, c, attempts[0]), c, attempts[1..], r);
    }
  }

  /** The same whenever no more scopes and actions are tried than the map has room for. */
  lemma FewScopesAreBounded(c: Config, attempts: seq<Attempt>, from: int, key: Key, a: int, b: int)
    requires c.Sensible() && Sequential(attempts, from) && a <= b && |KeysTried(attempts)| <= c.maxBuckets
    requires forall t <- attempts :: t.key == key ==> t.ending != Succeeds
    ensures Failures(attempts, Ran(EMPTY, c, attempts), key, a, b) <= c.max * (CeilDiv(b - a, c.MinWindow()) + 1)
  {
    forall r | r in AllRequests(EMPTY, c, attempts)
      ensures r.request.key in KeysTried(attempts)
    {
      RequestsNameTried(EMPTY, c, attempts, r);
    }
    FewClientsAreNeverEvicted(EMPTY, c, AllRequests(EMPTY, c, attempts), KeysTried(attempts), key);
    FailingAttemptsAreBounded(c, attempts, from, key, a, b);
  }

  // ---------------------------------------------------------------- without room, no bound

  /** A failing attempt, then one on another key, over and over. */
  function Alternating(n: nat, failing: Attempt, other: Attempt): seq<Attempt> {
    seq(2 * n, i => if i % 2 == 0 then failing else other)
  }

  lemma AlternatingFirst(n: nat, failing: Attempt, other: Attempt)
    requires n > 0
    ensures Alternating(n, failing, other) == [failing] + ([other] + Alternating(n - 1, failing, other))
  {
  }

  /** The one bucket there is room for, started at `now`. */
  predicate Holds(s: Store, key: Key, now: int) {
    s.order == [key] && s.buckets.Keys == {key} && s.buckets[key].windowStartMs == now
  }

  lemma TakesOver(s: Store, c: Config, held: Key, key: Key, now: int)
    requires s.Valid() && Holds(s, held, now) && c.Sensible() && c.maxBuckets == 1 && held != [] && key != held
    ensures var a := Bounded(s, c, now, Check(key));
            a.store == Store([key], map[key := Fresh(now)]) && a.decision.value.allowed
  {
    NothingPruned(s, c, now);
    assert OldestOf(s, 1) == 0 && Evicted(s, c, now, key) == Some(held);
    assert RemoveKey([held], held) == [] by {
      assert [held][1..] == [];
    }
    assert Deleted(s, held) == Store([], map[]);
    assert [] + [key] == [key];
  }

  lemma ChargeKeepsTheBucket(s: Store, c: Config, key: Key, now: int)
    requires s == Store([key], map[key := Fresh(now)]) && s.Valid() && c.Sensible()
    ensures Holds(Bounded(s, c, now, Consume(key)).store, key, now)
  {
    NothingPruned(s, c, now);
  }

  /** Both on the same instant, on keys of their own. */
  predicate Alternate(failing: Attempt, other: Attempt) {
    && failing.key != other.key && failing.key != [] && other.key != []
    && failing.ending == Fails && other.ending == Throttled
    && failing.started == failing.finished == other.started == other.finished
  }

  lemma StartsAfresh(s: Store, c: Config, held: Key, key: Key, now: int)
    requires s.Valid() && c.Sensible() && c.maxBuckets == 1 && held != [] && key != held
    requires s == EMPTY || Holds(s, held, now)
    ensures var a := Bounded(s, c, now, Check(key));
            a.store == Store([key], map[key := Fresh(now)]) && a.decision.value.allowed
  {
    if s == EMPTY {
      FirstBucket(c, key, now);
    } else {
      TakesOver(s, c, held, key, now);
    }
  }

  lemma FailureHolds(s: Store, c: Config, t: Attempt, held: Key)
    requires s.Valid() && c.Sensible() && c.maxBuckets == 1 && held != [] && t.key != held
    requires t.started == t.finished && t.ending == Fails && (s == EMPTY || Holds(s, held, t.started))
    ensures Runs(s, c, t) && Holds(Recording(s, c, t), t.key, t.started)
  {
    StartsAfresh(s, c, held, t.key, t.started);
    RecordingIs(s, c, t);
    ChargeKeepsTheBucket(Bounded(s, c, t.started, Check(t.key)).store, c, t.key, t.started);
  }

  lemma ThrottledHolds(s: Store, c: Config, t: Attempt, held: Key)
    requires s.Valid() && c.Sensible() && c.maxBuckets == 1 && held != [] && t.key != held
    requires t.ending == Throttled && Holds(s, held, t.started)
    ensures Holds(Recording(s, c, t), t.key, t.started)
  {
    StartsAfresh(s, c, held, t.key, t.started);
    RecordingIs(s, c, t);
  }

  lemma RanFirst(s: Store, c: Config, attempts: seq<Attempt>)
    requires s.Valid() && attempts != []
    ensures Ran(s, c, attempts) == [Runs(s, c, attempts[0])] + Ran(Recording(s, c, attempts[0]), c, attempts[1..])
  {
  }

  lemma CountedFirst(t: Attempt, rest: seq<Attempt>, ran: bool, more: seq<bool>, key: Key, a: int, b: int)
    requires |rest| == |more|
    ensures Failures([t] + rest, [ran] + more, key, a, b) == (if IsFailure(t, ran, key, a, b) then 1 else 0) + Failures(rest, more, key, a, b)
  {
    assert ([t] + rest)[1..] == rest && ([ran] + more)[1..] == more;
  }

  lemma CountedTwice(t: Attempt, u: Attempt, rest: seq<Attempt>, p: bool, q: bool, more: seq<bool>, key: Key, a: int, b: int)
    requires |rest| == |more|
    ensures Failures([t] + ([u] + rest), [p] + ([q] + more), key, a, b) ==
            (if IsFailure(t, p, key, a, b) then 1 else 0) + (if IsFailure(u, q, key, a, b) then 1 else 0) + Failures(rest, more, key, a, b)
  {
    CountedFirst(t, [u] + rest, p, [q] + more, key, a, b);
    CountedFirst(u, rest, q, more, key, a, b);
  }

  lemma RanTwice(s: Store, c: Config, t: Attempt, u: Attempt, rest: seq<Attempt>, s1: Store, s2: Store) returns (q: bool)
    requires s.Valid() && s1 == Recording(s, c, t) && s2 == Recording(s1, c, u)
    ensures Ran(s, c, [t] + ([u] + rest)) == [Runs(s, c, t)] + ([q] + Ran(s2, c, rest))
  {
    q := Runs(s1, c, u);
    RanFirst(s, c, [t] + ([u] + rest));
    RanFirst(s1, c, [u] + rest);
    assert ([t] + ([u] + rest))[1..] == [u] + rest && ([u] + rest)[1..] == rest;
  }

  lemma OneRound(s: Store, c: Config, failing: Attempt, other: Attempt, rest: seq<Attempt>) returns (q: bool, after: Store)
    requires s.Valid() && c.Sensible() && c.maxBuckets == 1 && Alternate(failing, other)
    requires s == EMPTY || Holds(s, other.key, failing.started)
    ensures after.Valid() && Holds(after, other.key, failing.started)
    ensures Ran(s, c, [failing] + ([other] + rest)) == [true] + ([q] + Ran(after, c, rest))
  {
    var s1 := Recording(s, c, failing);
    after := Recording(s1, c, other);
    FailureHolds(s, c, failing, other.key);
    ThrottledHolds(s1, c, other, failing.key);
    q := RanTwice(s, c, failing, other, rest, s1, after);
  }

  lemma CountRound(failing: Attempt, other: Attempt, rest: seq<Attempt>, q: bool, more: seq<bool>)
    requires |rest| == |more| && Alternate(failing, other)
    ensures FailuresAt(failing, [failing] + ([other] + rest), [true] + ([q] + more)) == 1 + FailuresAt(failing, rest, more)
  {
    CountedTwice(failing, other, rest, true, q, more, failing.key, failing.started, failing.started + 1);
  }

  /** Failures on the key and at the instant of `t`. */
  function FailuresAt(t: Attempt, attempts: seq<Attempt>, ran: seq<bool>): nat
    requires |ran| == |attempts|
  {
    Failures(attempts, ran, t.key, t.started, t.started + 1)
  }

  lemma {:induction false} ForgottenEachTime(s: Store, c: Config, n: nat, failing: Attempt, other: Attempt) returns (ran: seq<bool>)
    requires s.Valid() && c.Sensible() && c.maxBuckets == 1 && Alternate(failing, other)
    requires s == EMPTY || Holds(s, other.key, failing.started)
    ensures ran == Ran(s, c, Alternating(n, failing, other))
    ensures FailuresAt(failing, Alternating(n, failing, other), ran) == n
    decreases n
  {
    if n == 0 {
      ran := [];
    } else {
      var rest := Alternating(n - 1, failing, other);
      AlternatingFirst(n, failing, other);
      var q, after := OneRound(s, c, failing, other, rest);
      var more := ForgottenEachTime(after, c, n - 1, failing, other);
      ran := [true] + ([q] + more);
      CountRound(failing, other, rest, q, more);
    }
  }

  lemma {:induction false} AlternatingIsSequential(n: nat, failing: Attempt, other: Attempt)
    requires Alternate(failing, other)
    ensures Sequential(Alternating(n, failing, other), failing.started)
    decreases n
  {
    if n > 0 {
      var rest := Alternating(n - 1, failing, other);
      AlternatingIsSequential(n - 1, failing, other);
      AlternatingFirst(n, failing, other);
      assert Alternating(n, failing, other)[1..] == [other] + rest && ([other] + rest)[1..] == rest;
    }
  }

  /**
   With room for one bucket, a failing attempt that alternates with attempts on another key is let
   run every time, however many times within one window: each new key evicts the lockout.
   */
  lemma LockoutsForgottenWithoutRoom(c: Config, n: nat, failing: Attempt, other: Attempt)
    requires c.Sensible() && c.maxBuckets == 1
    requires Alternate(failing, other)
    ensures var attempts := Alternating(n, failing, other);
            && Sequential(attempts, failing.started)
            && FailuresAt(failing, attempts, Ran(EMPTY, c, attempts)) == n
  {
    var _ := ForgottenEachTime(EMPTY, c, n, failing, other);
    AlternatingIsSequential(n, failing, other);
  }

  // ---------------------------------------------------------------- the wrapper

  datatype Verdict = Refused(decision: Decision) | Completed

  /** Check, attempt and record on one key. */
  method AttemptOn(limiter: Limiter, attempt: Attempt) returns (verdict: Verdict)
    requires limiter.Valid()
    modifies limiter
    ensures limiter.Valid()
    ensures verdict.Completed? <==> Runs(old(limiter.Contents()), limiter.config, attempt)
    ensures verdict.Refused? ==> Some(verdict.decision) == Bounded(old(limiter.Contents()), limiter.config, attempt.started, Check(attempt.key)).decision
    ensures limiter.Contents() == Recording(old(limiter.Contents()), limiter.config, attempt)
  {
    RecordingIs(limiter.Contents(), limiter.config, attempt);
    var decision := limiter.Check(attempt.key, attempt.started);
    if !decision.allowed {
      return Refused(decision);
    }
    match attempt.ending {
      case Succeeds => limiter.Reset(attempt.key);
      case Fails => var _ := limiter.Consume(attempt.key, attempt.finished);
      case Throttled =>
    }
    verdict := Completed;
  }

  /** The attempt itself is reduced to when and how it ends. */
  method WithVaultUnlockRateLimit(limiter: Limiter, scopeKey: Text, action: Action, started: int, finished: int, ending: Ending)
    returns (verdict: Verdict)
    requires limiter.Valid()
    modifies limiter
    ensures limiter.Valid()
    ensures var attempt := Attempt(UnlockKey(scopeKey, action), started, finished, ending);
            && (verdict.Completed? <==> Runs(old(limiter.Contents()), limiter.config, attempt))
            && (verdict.Refused? ==> Some(verdict.decision) == Bounded(old(limiter.Contents()), limiter.config, started, Check(attempt.key)).decision)
            && limiter.Contents() == Recording(old(limiter.Contents()), limiter.config, attempt)
  {
    verdict := AttemptOn(limiter, Attempt(UnlockKey(scopeKey, action), started, finished, ending));
  }

  /** A limiter used for one attempt after another lets run exactly those specified. */
  method RunAttempts(limiter: Limiter, attempts: seq<Attempt>) returns (ran: seq<bool>)
    requires limiter.Valid()
    modifies limiter
    ensures limiter.Valid()
    ensures ran == Ran(old(limiter.Contents()), limiter.config, attempts)
    decreases |attempts|
  {
    if attempts == [] {
      return [];
    }
    RanFirst(limiter.Contents(), limiter.config, attempts);
    var verdict := AttemptOn(limiter, attempts[0]);
    var rest := RunAttempts(limiter, attempts[1..]);
    ran := [verdict.Completed?] + rest;
  }
}
