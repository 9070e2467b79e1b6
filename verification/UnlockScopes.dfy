/**
 One limiter serves every scope and every way of unlocking: which attempts share a bucket, and that
 the attempts of one scope and action are let run as if they were alone
 (src/rate-limit/vault-unlock-rate-limit.ts).
 */
module UnlockScopes {
  import opened Prelude
  import opened FixedWindowSpec
  import opened FixedWindowTheorems
  import opened FixedWindowLimiter
  import opened VaultUnlockRateLimit

  // ---------------------------------------------------------------- keys

  lemma ActionNames()
    ensures Spells(ActionName(Password), "password") && Spells(ActionName(RecoveryPhrase), "recovery_phrase")
    ensures Spells(ActionName(PasskeyPrf), "passkey_prf") && Spells(ActionName(EmergencyExit), "emergency_exit")
    ensures Spells([COLON], ":")
  {
  }

  lemma NoColon(x: Action)
    ensures COLON !in ActionName(x)
  {
  }

  lemma NamesApart(x: Action, y: Action)
    requires ActionName(x) == ActionName(y)
    ensures x == y
  {
  }

  /** The colon after `q` falls into `u`, which has none. */
  lemma ColonsApart(p: Text, u: Text, q: Text, v: Text)
    requires |p| < |q| && COLON !in u
    ensures p + [COLON] + u != q + [COLON] + v
  {
    var whole := p + [COLON] + u;
    assert (q + [COLON] + v)[|q|] == COLON;
    if |q| < |whole| {
      assert whole[|q|] == u[|q| - |p| - 1];
    }
  }

  /** What follows the last colon is told by where that colon is. */
  lemma LastColonSplits(p: Text, u: Text, q: Text, v: Text)
    requires p + [COLON] + u == q + [COLON] + v && COLON !in u && COLON !in v
    ensures p == q && u == v
  {
    var whole := p + [COLON] + u;
    if |p| < |q| {
      ColonsApart(p, u, q, v);
    } else if |q| < |p| {
      ColonsApart(q, v, p, u);
    } else {
      assert p == whole[..|p|] && u == whole[|p| + 1..];
      assert q == (q + [COLON] + v)[..|q|] && v == (q + [COLON] + v)[|q| + 1..];
    }
  }

  /** No two pairs of a scope and an action share a bucket, whatever colons a scope holds, and no key is empty. */
  lemma KeysApart(a: Text, x: Action, b: Text, y: Action)
    ensures UnlockKey(a, x) == UnlockKey(b, y) <==> a == b && x == y
    ensures UnlockKey(a, x) != []
  {
    if UnlockKey(a, x) == UnlockKey(b, y) {
      NoColon(x);
      NoColon(y);
      LastColonSplits(a, ActionName(x), b, ActionName(y));
      NamesApart(x, y);
    }
  }

  // ---------------------------------------------------------------- one key alone

  /** From `now` on, the two maps show the same bucket for the key. */
  ghost predicate SameOn(m: Buckets, n: Buckets, c: Config, now: int, key: Key) {
    forall t: int :: now <= t ==> AgreeAt(m, n, c, key, t)
  }

  /** A request for another key leaves it alone, unless it evicts it. */
  lemma OtherRequestLeaves(s: Store, c: Config, now: int, r: Request, key: Key)
    requires s.Valid() && r.key != key && Bounded(s, c, now, r).evicted != Some(key)
    ensures SameOn(Bounded(s, c, now, r).store.buckets, s.buckets, c, now, key)
  {
    var a := Bounded(s, c, now, r);
    var n := Simple(Replayed(s.buckets, a.evicted), c, now, r).buckets;
    StepAgrees(s, s.buckets, c, now, r);
    forall t: int | now <= t
      ensures AgreeAt(a.store.buckets, s.buckets, c, key, t)
    {
      assert AgreeAt(a.store.buckets, n, c, key, t);
    }
  }

  lemma SimpleDependsOnView(m: Buckets, n: Buckets, c: Config, now: int, r: Request)
    requires SameOn(m, n, c, now, r.key)
    ensures Simple(m, c, now, r).decision == Simple(n, c, now, r).decision
    ensures SameOn(Simple(m, c, now, r).buckets, Simple(n, c, now, r).buckets, c, now, r.key)
  {
    assert AgreeAt(m, n, c, r.key, now);
  }

  lemma ReplayedSame(s: Store, c: Config, now: int, evicted: Option<Key>, key: Key)
    requires evicted != Some(key)
    ensures SameOn(Replayed(s.buckets, evicted), s.buckets, c, now, key)
  {
  }

  lemma SameOnTrans(l: Buckets, m: Buckets, n: Buckets, c: Config, now: int, key: Key)
    requires SameOn(l, m, c, now, key) && SameOn(m, n, c, now, key)
    ensures SameOn(l, n, c, now, key) && SameOn(n, l, c, now, key)
  {
    forall t: int | now <= t
      ensures AgreeAt(l, n, c, key, t) && AgreeAt(n, l, c, key, t)
    {
      assert AgreeAt(l, m, c, key, t) && AgreeAt(m, n, c, key, t);
    }
  }

  /** A request for it is answered from its own bucket. */
  lemma AnsweredFromOwnBucket(s: Store, c: Config, now: int, r: Request)
    requires s.Valid() && Bounded(s, c, now, r).evicted != Some(r.key)
    ensures var a, simple := Bounded(s, c, now, r), Simple(s.buckets, c, now, r);
            a.decision == simple.decision && SameOn(a.store.buckets, simple.buckets, c, now, r.key)
  {
    var a := Bounded(s, c, now, r);
    var n := Replayed(s.buckets, a.evicted);
    StepAgrees(s, s.buckets, c, now, r);
    assert SameOn(a.store.buckets, Simple(n, c, now, r).buckets, c, now, r.key);
    ReplayedSame(s, c, now, a.evicted, r.key);
    SimpleDependsOnView(n, s.buckets, c, now, r);
    SameOnTrans(a.store.buckets, Simple(n, c, now, r).buckets, Simple(s.buckets, c, now, r).buckets, c, now, r.key);
  }

  lemma SameRequestAgrees(s: Store, u: Store, c: Config, now: int, r: Request)
    requires s.Valid() && u.Valid() && SameOn(s.buckets, u.buckets, c, now, r.key)
    requires Bounded(s, c, now, r).evicted != Some(r.key) && Bounded(u, c, now, r).evicted != Some(r.key)
    ensures Bounded(s, c, now, r).decision == Bounded(u, c, now, r).decision
    ensures SameOn(Bounded(s, c, now, r).store.buckets, Bounded(u, c, now, r).store.buckets, c, now, r.key)
  {
    AnsweredFromOwnBucket(s, c, now, r);
    AnsweredFromOwnBucket(u, c, now, r);
    SimpleDependsOnView(s.buckets, u.buckets, c, now, r);
    var l, m := Bounded(s, c, now, r).store.buckets, Bounded(u, c, now, r).store.buckets;
    var p, q := Simple(s.buckets, c, now, r).buckets, Simple(u.buckets, c, now, r).buckets;
    SameOnTrans(l, p, q, c, now, r.key);
    SameOnTrans(m, q, q, c, now, r.key);
    SameOnTrans(l, q, m, c, now, r.key);
  }

  // ---------------------------------------------------------------- one scope and action alone

  lemma {:induction false} NeverEvictedConcat(s: Store, c: Config, rs: seq<Timed>, more: seq<Timed>, key: Key)
    requires s.Valid() && NeverEvicted(s, c, rs + more, key)
    ensures NeverEvicted(s, c, rs, key) && NeverEvicted(BoundedRun(s, c, rs), c, more, key)
    decreases |rs|
  {
    if rs == [] {
      assert rs + more == more;
    } else {
      assert (rs + more)[0] == rs[0] && (rs + more)[1..] == rs[1..] + more;
      NeverEvictedConcat(Bounded(s, c, rs[0].at, rs[0].request).store, c, rs[1..], more, key);
    }
  }

  lemma {:induction false} OtherRequestsLeave(s: Store, c: Config, rs: seq<Timed>, now: int, key: Key)
    requires s.Valid() && Ordered(rs, now) && NeverEvicted(s, c, rs, key) && forall r <- rs :: r.request.key != key
    ensures SameOn(BoundedRun(s, c, rs).buckets, s.buckets, c, LastAt(rs, now), key)
    decreases |rs|
  {
    if rs == [] {
    } else {
      var a := Bounded(s, c, rs[0].at, rs[0].request);
      OtherRequestLeaves(s, c, rs[0].at, rs[0].request, key);
      OtherRequestsLeave(a.store, c, rs[1..], rs[0].at, key);
      LastIsLatest(rs[1..], rs[0].at);
      SameOnTrans(BoundedRun(a.store, c, rs[1..]).buckets, a.store.buckets, s.buckets, c, LastAt(rs, now), key);
    }
  }

  lemma {:induction false} SameRequestsAgree(s: Store, u: Store, c: Config, rs: seq<Timed>, now: int, key: Key)
    requires s.Valid() && u.Valid() && SameOn(s.buckets, u.buckets, c, now, key) && Ordered(rs, now)
    requires NeverEvicted(s, c, rs, key) && NeverEvicted(u, c, rs, key) && forall r <- rs :: r.request.key == key
    ensures SameOn(BoundedRun(s, c, rs).buckets, BoundedRun(u, c, rs).buckets, c, LastAt(rs, now), key)
    decreases |rs|
  {
    if rs != [] {
      SameRequestAgrees(s, u, c, rs[0].at, rs[0].request);
      SameRequestsAgree(Bounded(s, c, rs[0].at, rs[0].request).store, Bounded(u, c, rs[0].at, rs[0].request).store, c, rs[1..], rs[0].at, key);
    }
  }

  lemma RequestsNameKey(t: Attempt, runs: bool)
    ensures forall r <- RequestsIf(t, runs) :: r.request.key == t.key
  {
  }

  /** An attempt on another key leaves it alone. */
  lemma OtherAttemptLeaves(s: Store, c: Config, t: Attempt, now: int, key: Key)
    requires s.Valid() && now <= t.started <= t.finished && t.key != key && NeverEvicted(s, c, Requests(s, c, t), key)
    ensures SameOn(Recording(s, c, t).buckets, s.buckets, c, t.finished, key)
  {
    RequestsAreOrdered(s, c, t, now);
    RequestsNameKey(t, Runs(s, c, t));
    OtherRequestsLeave(s, c, Requests(s, c, t), now, key);
  }

  lemma FirstIsCheck(s: Store, c: Config, t: Attempt, key: Key)
    requires s.Valid() && NeverEvicted(s, c, Requests(s, c, t), key)
    ensures Bounded(s, c, t.started, Check(t.key)).evicted != Some(key)
  {
    assert Requests(s, c, t)[0] == Timed(t.started, Check(t.key));
  }

  /** Where its bucket looks the same, an attempt is let run alike, and it looks the same afterwards. */
  lemma SameAttemptAgrees(s: Store, u: Store, c: Config, t: Attempt, now: int)
    requires s.Valid() && u.Valid() && SameOn(s.buckets, u.buckets, c, now, t.key) && now <= t.started <= t.finished
    requires NeverEvicted(s, c, Requests(s, c, t), t.key) && NeverEvicted(u, c, Requests(u, c, t), t.key)
    ensures Runs(s, c, t) == Runs(u, c, t)
    ensures SameOn(Recording(s, c, t).buckets, Recording(u, c, t).buckets, c, t.finished, t.key)
  {
    FirstIsCheck(s, c, t, t.key);
    FirstIsCheck(u, c, t, t.key);
    SameRequestAgrees(s, u, c, t.started, Check(t.key));
    RequestsAreOrdered(s, c, t, now);
    RequestsNameKey(t, Runs(s, c, t));
    SameRequestsAgree(s, u, c, Requests(s, c, t), now, t.key);
  }

  function Only(attempts: seq<Attempt>, key: Key): seq<Attempt> {
    if attempts == [] then []
    else if attempts[0].key == key then [attempts[0]] + Only(attempts[1..], key)
    else Only(attempts[1..], key)
  }

  function RanOn(attempts: seq<Attempt>, ran: seq<bool>, key: Key): seq<bool>
    requires |ran| == |attempts|
  {
    if attempts == [] then []
    else if attempts[0].key == key then [ran[0]] + RanOn(attempts[1..], ran[1..], key)
    else RanOn(attempts[1..], ran[1..], key)
  }

  lemma {:induction false} OnlyIsSequential(attempts: seq<Attempt>, now: int, earlier: int, key: Key)
    requires Sequential(attempts, now) && earlier <= now
    ensures Sequential(Only(attempts, key), earlier)
    decreases |attempts|
  {
    if attempts != [] {
      var t := attempts[0];
      if t.key == key {
        OnlyIsSequential(attempts[1..], t.finished, t.finished, key);
        assert ([t] + Only(attempts[1..], key))[1..] == Only(attempts[1..], key);
      } else {
        OnlyIsSequential(attempts[1..], t.finished, earlier, key);
      }
    }
  }

  /** `u` serves only the key, `s` everybody. */
  lemma {:induction false} RunsAsIfAlone(s: Store, u: Store, c: Config, attempts: seq<Attempt>, now: int, key: Key)
    requires s.Valid() && u.Valid() && SameOn(s.buckets, u.buckets, c, now, key) && Sequential(attempts, now)
    requires NeverEvicted(s, c, AllRequests(s, c, attempts), key) && NeverEvicted(u, c, AllRequests(u, c, Only(attempts, key)), key)
    ensures RanOn(attempts, Ran(s, c, attempts), key) == Ran(u, c, Only(attempts, key))
    decreases |attempts|
  {
    if attempts != [] {
      var t, rest := attempts[0], attempts[1..];
      var s' := Recording(s, c, t);
      RanFirst(s, c, attempts);
      NeverEvictedConcat(s, c, Requests(s, c, t), AllRequests(s', c, rest), key);
      assert Ran(s, c, attempts)[1..] == Ran(s', c, rest);
      if t.key == key {
        var u' := Recording(u, c, t);
        var alone := [t] + Only(rest, key);
        assert alone[1..] == Only(rest, key);
        NeverEvictedConcat(u, c, Requests(u, c, t), AllRequests(u', c, Only(rest, key)), key);
        SameAttemptAgrees(s, u, c, t, now);
        RunsAsIfAlone(s', u', c, rest, t.finished, key);
        RanFirst(u, c, alone);
      } else {
        OtherAttemptLeaves(s, c, t, now, key);
        SameOnLater(s.buckets, u.buckets, c, now, t.finished, key);
        SameOnTrans(s'.buckets, s.buckets, u.buckets, c, t.finished, key);
        RunsAsIfAlone(s', u, c, rest, t.finished, key);
      }
    }
  }

  lemma SameOnLater(m: Buckets, n: Buckets, c: Config, now: int, later: int, key: Key)
    requires SameOn(m, n, c, now, key) && now <= later
    ensures SameOn(m, n, c, later, key)
  {
  }

  lemma {:induction false} AloneNamesKey(s: Store, c: Config, attempts: seq<Attempt>, key: Key)
    requires s.Valid() && forall t <- attempts :: t.key == key
    ensures KeysOf(AllRequests(s, c, attempts)) <= {key}
    decreases |attempts|
  {
    if attempts != [] {
      RequestsNameKey(attempts[0], Runs(s, c, attempts[0]));
      assert attempts[0] in attempts;
      AloneNamesKey(Recording(s, c, attempts[0]), c, attempts[1..], key);
    }
  }

  lemma {:induction false} OnlyHasKey(attempts: seq<Attempt>, key: Key)
    ensures forall t <- Only(attempts, key) :: t.key == key && t in attempts
  {
    if attempts != [] {
      OnlyHasKey(attempts[1..], key);
    }
  }

  lemma AloneIsNeverEvicted(c: Config, attempts: seq<Attempt>, key: Key)
    requires c.Sensible()
    ensures NeverEvicted(EMPTY, c, AllRequests(EMPTY, c, Only(attempts, key)), key)
  {
    OnlyHasKey(attempts, key);
    AloneNamesKey(EMPTY, c, Only(attempts, key), key);
    FewClientsAreNeverEvicted(EMPTY, c, AllRequests(EMPTY, c, Only(attempts, key)), {key}, key);
  }

  // ---------------------------------------------------------------- scopes and actions

  /** A call of the wrapper. */
  datatype Call = Call(scopeKey: Text, action: Action, started: int, finished: int, ending: Ending) {
    function Keyed(): Attempt {
      Attempt(UnlockKey(scopeKey, action), started, finished, ending)
    }

    predicate By(scopeKey: Text, action: Action) {
      this.scopeKey == scopeKey && this.action == action
    }
  }

  function Keyed(calls: seq<Call>): (attempts: seq<Attempt>)
    ensures |attempts| == |calls| && forall i :: 0 <= i < |calls| ==> attempts[i] == calls[i].Keyed()
  {
    seq(|calls|, i requires 0 <= i < |calls| => calls[i].Keyed())
  }

  /** The calls of one scope and action. */
  function Own(calls: seq<Call>, scopeKey: Text, action: Action): seq<Call> {
    if calls == [] then []
    else if calls[0].By(scopeKey, action) then [calls[0]] + Own(calls[1..], scopeKey, action)
    else Own(calls[1..], scopeKey, action)
  }

  /** Which of them are let run. */
  function OwnRan(calls: seq<Call>, ran: seq<bool>, scopeKey: Text, action: Action): seq<bool>
    requires |ran| == |calls|
  {
    if calls == [] then []
    else if calls[0].By(scopeKey, action) then [ran[0]] + OwnRan(calls[1..], ran[1..], scopeKey, action)
    else OwnRan(calls[1..], ran[1..], scopeKey, action)
  }

  /** The key tells exactly the calls of the scope and action. */
  predicate Tells(attempts: seq<Attempt>, calls: seq<Call>, key: Key, scopeKey: Text, action: Action) {
    |attempts| == |calls| && forall i :: 0 <= i < |calls| ==> (attempts[i].key == key <==> calls[i].By(scopeKey, action))
  }

  lemma KeyTells(calls: seq<Call>, scopeKey: Text, action: Action)
    ensures Tells(Keyed(calls), calls, UnlockKey(scopeKey, action), scopeKey, action)
  {
    forall i | 0 <= i < |calls|
      ensures Keyed(calls)[i].key == UnlockKey(scopeKey, action) <==> calls[i].By(scopeKey, action)
    {
      KeysApart(calls[i].scopeKey, calls[i].action, scopeKey, action);
    }
  }

  lemma {:induction false} OwnRanIsRanOn(attempts: seq<Attempt>, calls: seq<Call>, ran: seq<bool>, key: Key, scopeKey: Text, action: Action)
    requires Tells(attempts, calls, key, scopeKey, action) && |ran| == |calls|
    ensures OwnRan(calls, ran, scopeKey, action) == RanOn(attempts, ran, key)
    decreases |calls|
  {
    if calls != [] {
      OwnRanIsRanOn(attempts[1..], calls[1..], ran[1..], key, scopeKey, action);
    }
  }

  lemma KeyedFirst(t: Call, rest: seq<Call>)
    ensures Keyed([t] + rest) == [t.Keyed()] + Keyed(rest)
  {
  }

  lemma {:induction false} OwnIsOnly(attempts: seq<Attempt>, calls: seq<Call>, key: Key, scopeKey: Text, action: Action)
    requires attempts == Keyed(calls) && Tells(attempts, calls, key, scopeKey, action)
    ensures Keyed(Own(calls, scopeKey, action)) == Only(attempts, key)
    decreases |calls|
  {
    if calls != [] {
      assert calls == [calls[0]] + calls[1..];
      KeyedFirst(calls[0], calls[1..]);
      KeyedFirst(calls[0], Own(calls[1..], scopeKey, action));
      OwnIsOnly(attempts[1..], calls[1..], key, scopeKey, action);
    }
  }

  /**
   While its bucket is not evicted, the attempts of one scope and action are let run exactly as if
   no other scope and no other action had ever been tried.
   */
  lemma OthersDoNotMatter(c: Config, calls: seq<Call>, from: int, scopeKey: Text, action: Action)
    requires c.Sensible() && Sequential(Keyed(calls), from)
    requires NeverEvicted(EMPTY, c, AllRequests(EMPTY, c, Keyed(calls)), UnlockKey(scopeKey, action))
    ensures OwnRan(calls, Ran(EMPTY, c, Keyed(calls)), scopeKey, action) == Ran(EMPTY, c, Keyed(Own(calls, scopeKey, action)))
  {
    var key := UnlockKey(scopeKey, action);
    KeyTells(calls, scopeKey, action);
    OwnIsOnly(Keyed(calls), calls, key, scopeKey, action);
    OwnRanIsRanOn(Keyed(calls), calls, Ran(EMPTY, c, Keyed(calls)), key, scopeKey, action);
    AloneIsNeverEvicted(c, Keyed(calls), key);
    RunsAsIfAlone(EMPTY, EMPTY, c, Keyed(calls), from, key);
  }

  function ScopesTried(calls: seq<Call>): set<(Text, Action)> {
    set t | t in calls :: (t.scopeKey, t.action)
  }

  /** Nothing is evicted while no more scopes and actions are tried than there is room for. */
  lemma FewScopesAreNeverEvicted(c: Config, calls: seq<Call>, key: Key)
    requires c.Sensible() && |ScopesTried(calls)| <= c.maxBuckets
    ensures NeverEvicted(EMPTY, c, AllRequests(EMPTY, c, Keyed(calls)), key)
  {
    var keys := set p | p in ScopesTried(calls) :: UnlockKey(p.0, p.1);
    ImageFits(ScopesTried(calls), keys);
    forall r | r in AllRequests(EMPTY, c, Keyed(calls))
      ensures r.request.key in keys
    {
      RequestsNameTried(EMPTY, c, Keyed(calls), r);
      var t :| t in Keyed(calls) && t.key == r.request.key;
      var i :| 0 <= i < |calls| && Keyed(calls)[i] == t;
      assert (calls[i].scopeKey, calls[i].action) in ScopesTried(calls);
    }
    FewClientsAreNeverEvicted(EMPTY, c, AllRequests(EMPTY, c, Keyed(calls)), keys, key);
  }

  lemma {:induction false} ImageFits(pairs: set<(Text, Action)>, keys: set<Key>)
    requires keys == set p | p in pairs :: UnlockKey(p.0, p.1)
    ensures |keys| <= |pairs|
    decreases |pairs|
  {
    if pairs != {} {
      var p :| p in pairs;
      var fewer := set q | q in pairs - {p} :: UnlockKey(q.0, q.1);
      ImageFits(pairs - {p}, fewer);
      assert keys == fewer + {UnlockKey(p.0, p.1)};
    }
  }

  /** The first attempt of a scope and action is let run, whatever others have done before. */
  lemma FirstAttemptRuns(c: Config, calls: seq<Call>, from: int, scopeKey: Text, action: Action)
    requires c.Sensible() && Sequential(Keyed(calls), from)
    requires NeverEvicted(EMPTY, c, AllRequests(EMPTY, c, Keyed(calls)), UnlockKey(scopeKey, action))
    requires |Own(calls, scopeKey, action)| == 1
    ensures OwnRan(calls, Ran(EMPTY, c, Keyed(calls)), scopeKey, action) == [true]
  {
    OthersDoNotMatter(c, calls, from, scopeKey, action);
    var t := Own(calls, scopeKey, action)[0].Keyed();
    FirstBucket(c, t.key, t.started);
    RanFirst(EMPTY, c, [t]);
    assert Keyed(Own(calls, scopeKey, action)) == [t] && [t][1..] == [];
  }

  /** Attempts of one scope and action that ran and failed at a time in [a, b). */
  function OwnFailures(calls: seq<Call>, ran: seq<bool>, scopeKey: Text, action: Action, a: int, b: int): (n: nat)
    requires |ran| == |calls|
  {
    if calls == [] then 0
    else
      (if calls[0].By(scopeKey, action) && calls[0].ending == Fails && ran[0] && a <= calls[0].finished < b then 1 else 0)
      + OwnFailures(calls[1..], ran[1..], scopeKey, action, a, b)
  }

  lemma {:induction false} OwnFailuresAreFailures(attempts: seq<Attempt>, calls: seq<Call>, ran: seq<bool>, key: Key, scopeKey: Text, action: Action, a: int, b: int)
    requires attempts == Keyed(calls) && Tells(attempts, calls, key, scopeKey, action) && |ran| == |calls|
    ensures OwnFailures(calls, ran, scopeKey, action, a, b) == Failures(attempts, ran, key, a, b)
    decreases |calls|
  {
    if calls != [] {
      assert attempts[1..] == Keyed(calls[1..]);
      OwnFailuresAreFailures(attempts[1..], calls[1..], ran[1..], key, scopeKey, action, a, b);
    }
  }

  lemma EndsAlike(attempts: seq<Attempt>, calls: seq<Call>, key: Key, scopeKey: Text, action: Action)
    requires attempts == Keyed(calls) && Tells(attempts, calls, key, scopeKey, action)
    requires forall t <- calls :: t.By(scopeKey, action) ==> t.ending != Succeeds
    ensures forall t <- attempts :: t.key == key ==> t.ending != Succeeds
  {
    forall t | t in attempts
      ensures t.key == key ==> t.ending != Succeeds
    {
      var i :| 0 <= i < |calls| && attempts[i] == t;
      assert calls[i] in calls;
    }
  }

  /**
   However many scopes and actions are tried, as long as there is room for them, each lets at most
   max * (ceil((b - a) / m) + 1) failing attempts run to their end within any [a, b) until one succeeds.
   */
  lemma EachScopeIsBounded(c: Config, calls: seq<Call>, from: int, scopeKey: Text, action: Action, a: int, b: int)
    requires c.Sensible() && Sequential(Keyed(calls), from) && a <= b && |ScopesTried(calls)| <= c.maxBuckets
    requires forall t <- calls :: t.By(scopeKey, action) ==> t.ending != Succeeds
    ensures OwnFailures(calls, Ran(EMPTY, c, Keyed(calls)), scopeKey, action, a, b) <= c.max * (CeilDiv(b - a, c.MinWindow()) + 1)
  {
    var key := UnlockKey(scopeKey, action);
    FewScopesAreNeverEvicted(c, calls, key);
    KeyTells(calls, scopeKey, action);
    EndsAlike(Keyed(calls), calls, key, scopeKey, action);
    OwnFailuresAreFailures(Keyed(calls), calls, Ran(EMPTY, c, Keyed(calls)), key, scopeKey, action, a, b);
    FailingAttemptsAreBounded(c, Keyed(calls), from, key, a, b);
  }

  /** The limiter's map never outgrows its capacity: no key is empty, so every bucket can be evicted. */
  lemma UnlocksKeepCapacity(c: Config, calls: seq<Call>)
    requires c.Sensible()
    ensures |BoundedRun(EMPTY, c, AllRequests(EMPTY, c, Keyed(calls))).order| <= c.maxBuckets
  {
    var rs := AllRequests(EMPTY, c, Keyed(calls));
    forall r | r in rs
      ensures r.request.key != []
    {
      RequestsNameTried(EMPTY, c, Keyed(calls), r);
      var t :| t in Keyed(calls) && t.key == r.request.key;
      var i :| 0 <= i < |calls| && Keyed(calls)[i] == t;
      KeysApart(calls[i].scopeKey, calls[i].action, calls[i].scopeKey, calls[i].action);
    }
    MapNeverExceedsCapacity(c, rs);
  }

  /** The wrapper, called once after another, lets run exactly those attempts. */
  method UnlockAll(limiter: Limiter, calls: seq<Call>) returns (ran: seq<bool>)
    requires limiter.Valid()
    modifies limiter
    ensures limiter.Valid()
    ensures ran == Ran(old(limiter.Contents()), limiter.config, Keyed(calls))
    decreases |calls|
  {
    if calls == [] {
      return [];
    }
    RanFirst(limiter.Contents(), limiter.config, Keyed(calls));
    assert Keyed(calls)[1..] == Keyed(calls[1..]);
    var verdict := WithVaultUnlockRateLimit(limiter, calls[0].scopeKey, calls[0].action, calls[0].started, calls[0].finished, calls[0].ending);
    var rest := UnlockAll(limiter, calls[1..]);
    ran := [verdict.Completed?] + rest;
  }
}
