/** The session protocol's promises, over every interleaving of calls and resumptions. */
module SessionTheorems {
  import opened Prelude
  import opened AutoLockMinutes
  import opened SessionSpec
  import opened SessionSafety

  lemma ReachableInv(s: State)
    requires Reachable(s)
    ensures Inv(s)
  {
    var now: int, events: seq<Event> :| 0 < now && s == Run(Initial(now), events);
    RunKeeps(Initial(now), events);
  }

  // ---------------------------------------------------------------- ownership

  /** Key, lease, cache and pin always belong to the owner in charge, and key and lease come together. */
  lemma SensitiveStateBelongsToCurrentOwner(s: State)
    requires Reachable(s) && s.tokens.ownershipMode
    ensures s.memory.key.Some? <==> s.tokens.lease.Some?
    ensures s.tokens.lease.Some? ==>
              && IsLeaseCurrent(s, s.tokens.lease.value)
              && s.memory.key == Some(s.tokens.lease.value.vaultKey)
              && s.memory.role == Some(s.tokens.lease.value.role)
              && s.tokens.owner == Some(s.tokens.lease.value.ownerId)
    ensures s.memory.key.Some? ==> s.tokens.owner.Some? && s.history.keyOf == OwnedBy(s.tokens.owner.value)
    ensures s.cached.Some? ==> s.tokens.owner.Some? && s.history.cacheOf == OwnedBy(s.tokens.owner.value)
    ensures s.memory.pinned ==> s.tokens.owner.Some? && s.history.pinOf == OwnedBy(s.tokens.owner.value)
  {
    ReachableInv(s);
  }

  /** Starting for another owner, or for the first one, leaves nothing of what came before. */
  lemma NewOwnerStartsClean(s: State, ownerId: OwnerId)
    requires Reachable(s) && ValidOwnerId(ownerId) && s.tokens.owner != Some(ownerId)
    ensures var s' := After(s, Begin(ownerId));
            && s'.memory.key.None? && s'.memory.role.None? && s'.tokens.lease.None? && s'.cached.None? && !s'.memory.pinned && s'.memory.mode == Normal
            && (s.cached.Some? ==> s.cached.value.inner in s'.engine.wiped)
            && s'.tokens.owner == Some(ownerId) && s'.tokens.ownershipMode
  {
    ReachableInv(s);
  }

  /** Starting again for the same owner supersedes the token and touches nothing else. */
  lemma SameOwnerKeepsSession(s: State, ownerId: OwnerId)
    requires Reachable(s) && ValidOwnerId(ownerId) && s.tokens.owner == Some(ownerId)
    ensures var s' := After(s, Begin(ownerId));
            && s'.tokens.operation.Some? && s'.tokens.operation != s.tokens.operation && IsOperationCurrent(s', s'.tokens.operation.value)
            && s' == s.(tokens := s.tokens.(epoch := s'.tokens.epoch, operation := s'.tokens.operation, operations := s'.tokens.operations), engine := s.engine.(nextId := s'.engine.nextId))
            && (s.tokens.lease.Some? ==> IsLeaseCurrent(s', s.tokens.lease.value))
  {
    ReachableInv(s);
  }

  /** Cached inner key material is intact: its array has not been zero-filled. */
  lemma CachedMaterialIsIntact(s: State)
    requires Reachable(s) && s.cached.Some?
    ensures s.cached.value.inner !in s.engine.wiped
  {
    ReachableInv(s);
  }

  // ---------------------------------------------------------------- last operation wins

  /** The three-part test is the identity test. */
  lemma CurrentIsIdentity(s: State, t: Operation)
    requires Reachable(s)
    ensures IsOperationCurrent(s, t) <==> s.tokens.operation == Some(t)
  {
    ReachableInv(s);
    InvCurrentIsIdentity(s, t);
  }

  lemma InvCurrentIsIdentity(s: State, t: Operation)
    requires Inv(s)
    ensures IsOperationCurrent(s, t) <==> s.tokens.operation == Some(t)
  {
  }

  ghost predicate Superseded(s: State, t: Operation) {
    t.serial < s.engine.nextId && s.tokens.operation != Some(t)
  }

  lemma StepKeepsSuperseded(s: State, e: Event, t: Operation)
    requires Superseded(s, t)
    ensures Superseded(After(s, e), t)
  {
  }

  lemma {:induction false} RunKeepsSuperseded(s: State, events: seq<Event>, t: Operation)
    requires Superseded(s, t)
    ensures Superseded(Run(s, events), t)
    decreases |events|
  {
    if events != [] {
      StepKeepsSuperseded(s, events[0], t);
      RunKeepsSuperseded(After(s, events[0]), events[1..], t);
    }
  }

  /** The array a frame owns until it hands it to the cache. */
  function OwnBuffer(c: Continuation): set<nat> {
    if c.CacheCommit? then {c.inner} else {}
  }

  /** The frame can no longer pass its guard: its token is superseded, or it never had one. */
  ghost predicate Stale(s: State, c: Continuation) {
    match c.guard
    case Some(t) => s.tokens.operation != Some(t)
    case None => s.tokens.ownershipMode
  }

  lemma StaleResumeIsInert(s: State, ticket: nat, ok: bool)
    requires Inv(s) && ticket in s.engine.pending && Stale(s, s.engine.pending[ticket])
    ensures After(s, Resume(ticket, ok)) ==
            s.(engine := s.engine.(pending := s.engine.pending - {ticket}, wiped := After(s, Resume(ticket, ok)).engine.wiped))
    ensures s.engine.wiped <= After(s, Resume(ticket, ok)).engine.wiped <= s.engine.wiped + OwnBuffer(s.engine.pending[ticket])
    ensures Next(s, Resume(ticket, ok)).outcome in {Failed, Cancelled(StaleOperation), Cancelled(MissingOperation)}
    ensures s.engine.pending[ticket].CacheCommit? ==> s.engine.pending[ticket].inner in After(s, Resume(ticket, ok)).engine.wiped
  {
  }

  /**
   Once a token is superseded, then after any further run it is not current, and resuming any
   frame that carries it installs, clears and locks nothing: it leaves every variable alone and
   at most wipes the frame's own array.
   */
  lemma LastOperationWins(s: State, t: Operation, events: seq<Event>, ticket: nat, ok: bool)
    requires Reachable(s) && Superseded(s, t)
    requires ticket in Run(s, events).engine.pending && Run(s, events).engine.pending[ticket].guard == Some(t)
    ensures var r := Run(s, events);
            var r' := After(r, Resume(ticket, ok));
            && !IsOperationCurrent(r, t) && !IsOperationCurrent(r', t)
            && r' == r.(engine := r.engine.(pending := r.engine.pending - {ticket}, wiped := r'.engine.wiped))
            && r'.engine.wiped <= r.engine.wiped + OwnBuffer(r.engine.pending[ticket])
  {
    ReachableInv(s);
    RunKeeps(s, events);
    RunKeepsSuperseded(s, events, t);
    StaleResumeIsInert(Run(s, events), ticket, ok);
  }

  /** The same for work begun before any owner was: it is cancelled once owners are in use. */
  lemma UnownedWorkIsCancelled(s: State, events: seq<Event>, ticket: nat, ok: bool)
    requires Reachable(s) && s.tokens.ownershipMode
    requires ticket in Run(s, events).engine.pending && Run(s, events).engine.pending[ticket].guard.None?
    ensures var r := Run(s, events);
            var r' := After(r, Resume(ticket, ok));
            r' == r.(engine := r.engine.(pending := r.engine.pending - {ticket}, wiped := r'.engine.wiped)) && r'.engine.wiped <= r.engine.wiped + OwnBuffer(r.engine.pending[ticket])
  {
    ReachableInv(s);
    RunKeeps(s, events);
    OwnershipModeStays(s, events);
    StaleResumeIsInert(Run(s, events), ticket, ok);
  }

  lemma {:induction false} OwnershipModeStays(s: State, events: seq<Event>)
    requires s.tokens.ownershipMode
    ensures Run(s, events).tokens.ownershipMode
    decreases |events|
  {
    if events != [] {
      assert After(s, events[0]).tokens.ownershipMode;
      OwnershipModeStays(After(s, events[0]), events[1..]);
    }
  }

  /** The resumed frame locks the vault, or the timer does. */
  ghost predicate Locks(s: State, e: Event) {
    || e.Lock? || e.ClearOwner?
    || (e.Elapse? && s.timing.timer.Some? && s.timing.timer.value <= s.engine.now + e.ms)
    || (e.Resume? && e.ok && e.ticket in s.engine.pending
        && (s.engine.pending[e.ticket].PurgeThenLock? || s.engine.pending[e.ticket].ExitAfterRecovery?)
        && GuardFailure(s, s.engine.pending[e.ticket].guard).None?)
  }

  lemma ResumeSupersedesExactlyWhen(s: State, t: Operation, c: Continuation, ok: bool)
    requires TokensOk(s) && s.tokens.operation == Some(t)
    ensures Resumed(s, c, ok).state.tokens.operation != Some(t) <==>
            ok && (c.PurgeThenLock? || c.ExitAfterRecovery?) && GuardFailure(s, c.guard).None?
  {
  }

  lemma CallSupersedesExactlyWhen(s: State, t: Operation, e: Event)
    requires TokensOk(s) && s.tokens.operation == Some(t) && !e.Resume?
    ensures After(s, e).tokens.operation != Some(t) <==> Locks(s, e) || (e.Begin? && ValidOwnerId(e.ownerId))
  {
  }

  /** A current token stops being current exactly on a newer operation or a lock. */
  lemma SupersededExactlyWhen(s: State, t: Operation, e: Event)
    requires Reachable(s) && IsOperationCurrent(s, t)
    ensures !IsOperationCurrent(After(s, e), t) <==> Locks(s, e) || (e.Begin? && ValidOwnerId(e.ownerId))
  {
    ReachableInv(s);
    StepKeeps(s, e);
    InvCurrentIsIdentity(After(s, e), t);
    if !e.Resume? {
      CallSupersedesExactlyWhen(s, t, e);
    } else if e.ticket in s.engine.pending {
      ResumeSupersedesExactlyWhen(Dropped(s, e.ticket), t, s.engine.pending[e.ticket], e.ok);
    }
  }

  // ---------------------------------------------------------------- emergency mode

  lemma EmergencyMeansPinnedOrDecoy(s: State)
    requires Reachable(s)
    ensures s.memory.pinned <==> s.memory.mode == Emergency
    ensures SessionMode(s) == Emergency <==> s.memory.pinned || (s.memory.key.Some? && s.memory.role == Some(Decoy))
  {
    ReachableInv(s);
  }

  /** A guarded clear, a proven recovery phrase, a change of owner, or a logout. */
  ghost predicate EndsPin(s: State, e: Event) {
    || e.ClearOwner?
    || (e.ClearPin? && GuardFailure(s, e.guard).None?)
    || (e.Begin? && ValidOwnerId(e.ownerId) && s.tokens.owner != Some(e.ownerId))
    || (e.Resume? && e.ok && e.ticket in s.engine.pending && s.engine.pending[e.ticket].ExitAfterRecovery?
        && GuardFailure(s, s.engine.pending[e.ticket].guard).None?)
  }

  lemma ResumeKeepsPinExactlyUnless(s: State, c: Continuation, ok: bool)
    requires s.memory.pinned
    ensures Resumed(s, c, ok).state.memory.pinned <==> !(ok && c.ExitAfterRecovery? && GuardFailure(s, c.guard).None?)
  {
  }

  lemma PinSurvivesExactlyUntil(s: State, e: Event)
    requires Reachable(s) && s.memory.pinned
    ensures After(s, e).memory.pinned <==> !EndsPin(s, e)
  {
    ReachableInv(s);
    if e.Resume? && e.ticket in s.engine.pending {
      ResumeKeepsPinExactlyUnless(Dropped(s, e.ticket), s.engine.pending[e.ticket], e.ok);
    }
  }

  ghost predicate PinNeverEnded(s: State, events: seq<Event>)
    decreases |events|
  {
    events == [] || (!EndsPin(s, events[0]) && PinNeverEnded(After(s, events[0]), events[1..]))
  }

  lemma {:induction false} RunExtends(now: int, past: seq<Event>, e: Event)
    ensures Run(Initial(now), past + [e]) == After(Run(Initial(now), past), e)
  {
    RunAppend(Initial(now), past, [e]);
    assert Run(Run(Initial(now), past), [e]) == Run(After(Run(Initial(now), past), e), [e][1..]);
  }

  lemma {:induction false} RunAppend(s: State, past: seq<Event>, more: seq<Event>)
    ensures Run(s, past + more) == Run(Run(s, past), more)
    decreases |past|
  {
    if past == [] {
      assert past + more == more;
    } else {
      assert (past + more)[0] == past[0] && (past + more)[1..] == past[1..] + more;
      RunAppend(After(s, past[0]), past[1..], more);
    }
  }

  lemma StepReachable(s: State, e: Event)
    requires Reachable(s)
    ensures Reachable(After(s, e))
  {
    var now: int, events: seq<Event> :| 0 < now && s == Run(Initial(now), events);
    RunExtends(now, events, e);
  }

  lemma {:induction false} RunReachable(s: State, events: seq<Event>)
    requires Reachable(s)
    ensures Reachable(Run(s, events))
    decreases |events|
  {
    if events != [] {
      StepReachable(s, events[0]);
      RunReachable(After(s, events[0]), events[1..]);
    }
  }

  /** Emergency mode survives locks, unlocks with any key, restarts by the same owner and the passing of time. */
  lemma {:induction false} EmergencySurvives(s: State, events: seq<Event>)
    requires Reachable(s) && s.memory.pinned && PinNeverEnded(s, events)
    ensures Run(s, events).memory.pinned && SessionMode(Run(s, events)) == Emergency
    decreases |events|
  {
    if events != [] {
      PinSurvivesExactlyUntil(s, events[0]);
      StepReachable(s, events[0]);
      EmergencySurvives(After(s, events[0]), events[1..]);
    }
  }

  function RoutedUnlockEvents(s: State, key: VaultKey, active: bool, duress: bool, guard: Option<Operation>): seq<Event> {
    [StartRoutedUnlock(key, active, duress, guard), Resume(s.engine.nextId, true), Resume(s.engine.nextId + 1, true)]
  }

  /** An uninterrupted routed unlock installs its key, as a decoy exactly when there was reason to. */
  lemma UninterruptedRoutedUnlock(s: State, key: VaultKey, active: bool, duress: bool, guard: Option<Operation>)
    requires Reachable(s) && GuardFailure(s, guard).None?
    ensures var r := Run(s, RoutedUnlockEvents(s, key, active, duress, guard));
            && r.memory.key == Some(key)
            && (r.memory.role == Some(Decoy) <==> active || duress || SessionMode(s) == Emergency)
            && (r.memory.role == Some(Decoy) ==> SessionMode(r) == Emergency && r.memory.pinned)
  {
    ReachableInv(s);
    var es := RoutedUnlockEvents(s, key, active, duress, guard);
    var s1 := After(s, es[0]);
    var s2 := After(s1, es[1]);
    var s3 := After(s2, es[2]);
    assert s1.engine.pending[s.engine.nextId] == RoutedUnlock(key, RoutedRole(s, active, duress), guard);
    assert s2.engine.pending[s.engine.nextId + 1] == UnlockCommit(key, RoutedRole(s, active, duress), guard);
    assert Run(s, es) == Run(s1, es[1..]) == Run(s2, es[1..][1..]) == Run(s3, es[1..][1..][1..]) == s3;
  }

  // ---------------------------------------------------------------- interrupted routed unlocks

  /** A ticket is issued once: what is suspended under it never changes, and once gone stays gone. */
  lemma StepKeepsFrame(s: State, e: Event, ticket: nat)
    requires ticket < s.engine.nextId
    ensures ticket < After(s, e).engine.nextId
    ensures ticket in After(s, e).engine.pending ==> ticket in s.engine.pending && After(s, e).engine.pending[ticket] == s.engine.pending[ticket]
  {
  }

  lemma {:induction false} RunKeepsFrame(s: State, events: seq<Event>, ticket: nat)
    requires ticket < s.engine.nextId
    ensures ticket in Run(s, events).engine.pending ==>
              ticket in s.engine.pending && Run(s, events).engine.pending[ticket] == s.engine.pending[ticket]
    decreases |events|
  {
    if events != [] {
      StepKeepsFrame(s, events[0], ticket);
      RunKeepsFrame(After(s, events[0]), events[1..], ticket);
    }
  }

  /** The three calls of a routed unlock, with anything at all between them. */
  datatype RoutedCall = RoutedCall(key: VaultKey, active: bool, duress: bool, guard: Option<Operation>, before: seq<Event>, between: seq<Event>) {
    function Start(): Event {
      StartRoutedUnlock(key, active, duress, guard)
    }

    /** When the envelope has been opened. */
    function Opened(s: State): State {
      Run(After(s, Start()), before)
    }

    /** When the key has been checked, just before it is installed. */
    function Checked(s: State): State {
      Run(After(Opened(s), Resume(s.engine.nextId, true)), between)
    }

    /** The commit, under the ticket drawn when the envelope had been opened. */
    function Commit(s: State): Step {
      Next(Checked(s), Resume(Opened(s).engine.nextId, true))
    }
  }

  /** The guard lets it through. */
  predicate Passes(s: State, guard: Option<Operation>) {
    GuardFailure(s, guard).None?
  }

  lemma OpenedFrame(s: State, r: RoutedCall)
    requires Inv(s) && Passes(s, r.guard) && s.engine.nextId in r.Opened(s).engine.pending
    ensures r.Opened(s).engine.pending[s.engine.nextId] == RoutedUnlock(r.key, RoutedRole(s, r.active, r.duress), r.guard)
  {
    RunKeepsFrame(After(s, r.Start()), r.before, s.engine.nextId);
  }

  lemma CheckedFrame(s: State, r: RoutedCall, role: Role)
    requires Inv(s) && s.engine.nextId in r.Opened(s).engine.pending
    requires r.Opened(s).engine.pending[s.engine.nextId] == RoutedUnlock(r.key, role, r.guard)
    requires Passes(r.Opened(s), r.guard) && r.Opened(s).engine.nextId in r.Checked(s).engine.pending
    ensures r.Checked(s).engine.pending[r.Opened(s).engine.nextId] == UnlockCommit(r.key, role, r.guard)
  {
    RunKeepsFrame(After(r.Opened(s), Resume(s.engine.nextId, true)), r.between, r.Opened(s).engine.nextId);
  }

  lemma CommitInstalls(s: State, ticket: nat, key: VaultKey, role: Role, guard: Option<Operation>)
    requires Inv(s) && ticket in s.engine.pending && s.engine.pending[ticket] == UnlockCommit(key, role, guard)
    requires Next(s, Resume(ticket, true)).outcome.Unlocked?
    ensures var s' := After(s, Resume(ticket, true));
            && s'.memory.key == Some(key) && s'.memory.role == Some(role)
            && s'.memory.pinned == (s.memory.pinned || role == Decoy)
  {
  }

  /**
   Whatever happens in between, a routed unlock that ends by installing installs its key in the role
   chosen when it started. It leaves a primary key in emergency mode exactly when that role was
   primary and the mode had been pinned by the time of the commit.
   */
  lemma RoutedUnlockInstallsChosenRole(s: State, r: RoutedCall)
    requires Reachable(s)
    requires s.engine.nextId in r.Opened(s).engine.pending && Passes(s, r.guard) && Passes(r.Opened(s), r.guard)
    requires r.Commit(s).outcome.Unlocked?
    ensures var role, after := RoutedRole(s, r.active, r.duress), r.Commit(s).state;
            && after.memory.key == Some(r.key) && after.memory.role == Some(role)
            && (role == Decoy ==> after.memory.pinned && SessionMode(after) == Emergency)
            && (SessionMode(after) == Emergency && after.memory.role == Some(Primary) <==> role == Primary && r.Checked(s).memory.pinned)
  {
    var role := RoutedRole(s, r.active, r.duress);
    ReachableInv(s);
    OpenedFrame(s, r);
    StepKeeps(s, r.Start());
    RunKeeps(After(s, r.Start()), r.before);
    StepKeeps(r.Opened(s), Resume(s.engine.nextId, true));
    RunKeeps(After(r.Opened(s), Resume(s.engine.nextId, true)), r.between);
    CheckedFrame(s, r, role);
    CommitInstalls(r.Checked(s), r.Opened(s).engine.nextId, r.key, role, r.guard);
    StepKeeps(r.Checked(s), Resume(r.Opened(s).engine.nextId, true));
  }

  lemma CommitReachable(s: State, r: RoutedCall)
    requires Reachable(s)
    ensures Reachable(r.Commit(s).state)
  {
    StepReachable(s, r.Start());
    RunReachable(After(s, r.Start()), r.before);
    StepReachable(r.Opened(s), Resume(s.engine.nextId, true));
    RunReachable(After(r.Opened(s), Resume(s.engine.nextId, true)), r.between);
    StepReachable(r.Checked(s), Resume(r.Opened(s).engine.nextId, true));
  }

  /**
   It happens: emergency mode entered by the same operation while its envelope is being opened, and
   the primary key is still installed.
   */
  lemma EmergencyDuringRoutedUnlock(now: int, ownerId: OwnerId, key: VaultKey)
    requires 0 < now && ValidOwnerId(ownerId)
    ensures var t := Some(Operation(0));
            var s := After(Initial(now), Begin(ownerId));
            var r := RoutedCall(key, false, false, t, [EnterEmergency(t)], []);
            && Next(Initial(now), Begin(ownerId)).outcome == Issued(Operation(0))
            && r.Commit(s).outcome.Unlocked?
            && SessionMode(r.Commit(s).state) == Emergency && r.Commit(s).state.memory.role == Some(Primary) && r.Commit(s).state.memory.key == Some(key)
  {
    var t := Some(Operation(0));
    var s := After(Initial(now), Begin(ownerId));
    var r := RoutedCall(key, false, false, t, [EnterEmergency(t)], []);
    assert s.engine.nextId == 1 && s.tokens.operation == t;
    var started := After(s, r.Start());
    assert started.engine.pending[1] == RoutedUnlock(key, Primary, t);
    assert r.Opened(s) == After(started, EnterEmergency(t)) by {
      assert [EnterEmergency(t)][1..] == [];
      assert Run(started, [EnterEmergency(t)]) == Run(After(started, EnterEmergency(t)), []);
    }
    assert r.Opened(s).engine.nextId == 2;
    assert r.Checked(s) == After(r.Opened(s), Resume(1, true));
    assert r.Checked(s).engine.pending[2] == UnlockCommit(key, Primary, t);
  }

  // ---------------------------------------------------------------- auto-lock

  /** The exported timer clear and lock-state reset are only called while the vault is locked. */
  ghost predicate TimerLeftAlone(s: State, events: seq<Event>)
    decreases |events|
  {
    events == [] ||
    ((s.memory.key.Some? ==> !events[0].ClearTimer? && !events[0].ResetLockState?) && TimerLeftAlone(After(s, events[0]), events[1..]))
  }

  /** Unlocked exactly while a timer is armed, for a time still to come. */
  ghost predicate TimerOk(s: State) {
    && 0 < s.engine.now
    && (s.memory.key.Some? <==> s.timing.timer.Some?)
    && (s.memory.key.Some? ==>
          && s.timing.timer.value == s.timing.lastActivityAt + s.history.armedFor
          && 0 < s.timing.lastActivityAt <= s.engine.now < s.timing.timer.value
          && 60_000 <= s.history.armedFor <= 86_400_000)
  }

  lemma ScheduledTimerOk(s: State)
    requires 0 < s.engine.now && s.memory.key.Some?
    ensures TimerOk(Scheduled(s))
  {
  }

  lemma ResumeKeepsTimer(s: State, c: Continuation, ok: bool)
    requires TimerOk(s) && !c.UnlockCommit?
    ensures TimerOk(Resumed(s, c, ok).state)
  {
  }

  lemma UnlockCommitTimerOk(s: State, c: Continuation, ok: bool)
    requires TimerOk(s) && c.UnlockCommit?
    ensures TimerOk(Resumed(s, c, ok).state)
  {
    if ok && GuardFailure(s, c.guard).None? {
      ScheduledTimerOk(Leased(WithKey(s, c.key, c.role, GuardOwner(s, c.guard)), c.key, c.role, c.guard));
    }
  }

  /** Only the exported timer clear or lock-state reset, on an unlocked session, breaks it. */
  lemma StepKeepsTimer(s: State, e: Event)
    requires TimerOk(s)
    ensures TimerOk(After(s, e)) <==> !(s.memory.key.Some? && (e.ClearTimer? || e.ResetLockState?))
  {
    if e.Touch? {
      if s.memory.key.Some? { ScheduledTimerOk(s); }
    } else if e.Resume? {
      if e.ticket in s.engine.pending {
        var c := s.engine.pending[e.ticket];
        if c.UnlockCommit? {
          UnlockCommitTimerOk(Dropped(s, e.ticket), c, e.ok);
        } else {
          ResumeKeepsTimer(Dropped(s, e.ticket), c, e.ok);
        }
      }
    }
  }

  lemma {:induction false} RunKeepsTimer(s: State, events: seq<Event>)
    requires Inv(s) && TimerOk(s) && TimerLeftAlone(s, events)
    ensures TimerOk(Run(s, events))
    decreases |events|
  {
    if events != [] {
      StepKeeps(s, events[0]);
      StepKeepsTimer(s, events[0]);
      RunKeepsTimer(After(s, events[0]), events[1..]);
    }
  }

  /** In every such run an unlocked vault has one timer, due a configured time after the last activity. */
  lemma UnlockedMeansTimerArmed(now: int, events: seq<Event>)
    requires 0 < now && TimerLeftAlone(Initial(now), events)
    ensures TimerOk(Run(Initial(now), events))
    ensures Run(Initial(now), events).memory.key.Some? ==> !Run(Initial(now), events).timing.manuallyLocked
  {
    RunKeepsTimer(Initial(now), events);
    RunKeeps(Initial(now), events);
  }

  /** The reported remaining time is the time to the deadline while the configured duration is unchanged. */
  lemma RemainingIsTimeToDeadline(now: int, events: seq<Event>)
    requires 0 < now && TimerLeftAlone(Initial(now), events)
    ensures var s := Run(Initial(now), events);
            && (s.memory.key.Some? <==> RemainingMs(s).Some?)
            && (s.memory.key.Some? <==> s.timing.timer.Some?)
            && (s.memory.key.Some? && s.history.armedFor == TimeoutMs(s.timing.config) ==>
                  RemainingMs(s) == Some(s.timing.timer.value - s.engine.now))
  {
    UnlockedMeansTimerArmed(now, events);
  }

  /** The step sets the timer anew: a renewal or an unlock. */
  ghost predicate Rearms(s: State, e: Event) {
    e.Touch? || Next(s, e).outcome.Unlocked?
  }

  ghost predicate Untouched(s: State, events: seq<Event>)
    decreases |events|
  {
    events == [] || (!Rearms(s, events[0]) && Untouched(After(s, events[0]), events[1..]))
  }

  lemma StepLeavesDeadline(s: State, e: Event)
    requires Inv(s) && TimerOk(s) && !Rearms(s, e) && (s.memory.key.Some? ==> !e.ClearTimer? && !e.ResetLockState?)
    ensures After(s, e).memory.key.Some? ==> s.memory.key.Some? && After(s, e).timing.timer == s.timing.timer
  {
  }

  /** Left untouched, the vault is locked from its deadline on, whatever else happens. */
  lemma {:induction false} LockedFromDeadline(s: State, events: seq<Event>)
    requires Inv(s) && TimerOk(s) && TimerLeftAlone(s, events) && Untouched(s, events) && s.memory.key.Some?
    ensures Run(s, events).engine.now >= s.timing.timer.value ==> Run(s, events).memory.key.None?
    ensures Run(s, events).memory.key.Some? ==> Run(s, events).timing.timer == s.timing.timer
    decreases |events|
  {
    if events != [] {
      var s' := After(s, events[0]);
      StepKeeps(s, events[0]);
      StepKeepsTimer(s, events[0]);
      StepLeavesDeadline(s, events[0]);
      if s'.memory.key.Some? {
        LockedFromDeadline(s', events[1..]);
      } else {
        StaysLocked(s', events[1..]);
      }
    }
  }

  lemma {:induction false} StaysLocked(s: State, events: seq<Event>)
    requires Inv(s) && TimerOk(s) && TimerLeftAlone(s, events) && Untouched(s, events) && s.memory.key.None?
    ensures Run(s, events).memory.key.None?
    decreases |events|
  {
    if events != [] {
      StepKeeps(s, events[0]);
      StepKeepsTimer(s, events[0]);
      StepLeavesDeadline(s, events[0]);
      StaysLocked(After(s, events[0]), events[1..]);
    }
  }
}
