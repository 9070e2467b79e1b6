/**
 What each session operation does when it goes through, and when it does not, from every reachable
 state and with anything happening between its steps.
 */
module SessionEffects {
  import opened Prelude
  import opened AutoLockMinutes
  import opened SessionSpec
  import opened SessionSafety
  import opened SessionTheorems

  /** Every run starts with nothing installed, nothing awaited, no owner, and unowned calls allowed. */
  lemma RunsStartEmpty(now: int)
    ensures var s := Initial(now);
            && s.memory == Memory(None, Normal, None, false) && s.cached.None? && s.engine.pending == map[] && s.engine.now == now
            && s.tokens.owner.None? && s.tokens.operation.None? && s.tokens.lease.None? && s.tokens.operations == map[] && !s.tokens.ownershipMode
            && s.timing == Timing(Config(None, None), None, false, 0) && MayAct(s, None)
  {
  }

  // ---------------------------------------------------------------- two-step calls

  /** A call that suspends once, whatever happens until it is resumed. */
  datatype Call = Call(start: Event, between: seq<Event>) {
    /** Just before it resumes. */
    function Waited(s: State): State {
      Run(After(s, start), between)
    }

    function Commit(s: State, ok: bool): Step {
      Next(Waited(s), Resume(s.engine.nextId, ok))
    }

    /** Nothing has resumed it yet. */
    predicate StillWaiting(s: State) {
      s.engine.nextId in Waited(s).engine.pending
    }
  }

  lemma FrameKept(s: State, call: Call, c: Continuation)
    requires Reachable(s) && call.StillWaiting(s)
    requires After(s, call.start).engine.nextId == s.engine.nextId + 1
    requires s.engine.nextId in After(s, call.start).engine.pending && After(s, call.start).engine.pending[s.engine.nextId] == c
    ensures call.Waited(s).engine.pending[s.engine.nextId] == c
    ensures Inv(call.Waited(s))
  {
    RunKeepsFrame(After(s, call.start), call.between, s.engine.nextId);
    ReachableInv(s);
    StepKeeps(s, call.start);
    RunKeeps(After(s, call.start), call.between);
  }

  /** Who may act: the holder of the current token, or anybody before tokens are in use. */
  predicate MayAct(s: State, guard: Option<Operation>) {
    if guard.Some? then s.tokens.operation == guard else !s.tokens.ownershipMode
  }

  lemma PassesExactlyWhen(s: State, guard: Option<Operation>)
    requires Inv(s)
    ensures Passes(s, guard) <==> MayAct(s, guard)
  {
    if guard.Some? {
      InvCurrentIsIdentity(s, guard.value);
    }
  }

  // ---------------------------------------------------------------- unlocking

  function RoleGiven(role: Option<Role>): Role {
    if role == Some(Decoy) then Decoy else Primary
  }

  /** The lease of an unlock under a token names its owner and epoch, its key and its role; without a token there is none. */
  ghost predicate LeasedTo(before: State, after: State, guard: Option<Operation>, key: VaultKey, role: Role) {
    match guard
    case None => after.tokens.lease.None?
    case Some(t) =>
      && t in before.tokens.operations && after.tokens.lease.Some?
      && after.tokens.lease.value.ownerId == before.tokens.operations[t].ownerId && after.tokens.owner == Some(before.tokens.operations[t].ownerId)
      && after.tokens.lease.value.vaultKey == key && after.tokens.lease.value.role == role
      && after.tokens.lease.value.epoch == before.tokens.operations[t].epoch
      && IsLeaseCurrent(after, after.tokens.lease.value)
  }

  lemma UnlockCommits(s: State, ticket: nat, key: VaultKey, role: Role, guard: Option<Operation>, ok: bool)
    requires Inv(s) && ticket in s.engine.pending && s.engine.pending[ticket] == UnlockCommit(key, role, guard)
    ensures var step := Next(s, Resume(ticket, ok));
            && (step.outcome.Unlocked? <==> ok && MayAct(s, guard))
            && (step.outcome.Unlocked? ==>
                && step.state.memory.key == Some(key) && step.state.memory.role == Some(role)
                && (step.state.memory.pinned <==> s.memory.pinned || role == Decoy)
                && (SessionMode(step.state) == Emergency <==> s.memory.pinned || role == Decoy)
                && LeasedTo(s, step.state, guard, key, role) && step.outcome == Unlocked(step.state.tokens.lease)
                && !step.state.timing.manuallyLocked && step.state.timing.timer == Some(s.engine.now + TimeoutMs(s.timing.config))
                && step.state.cached == s.cached)
  {
    PassesExactlyWhen(Dropped(s, ticket), guard);
  }

  lemma PlainUnlockWaits(s: State, key: VaultKey, role: Option<Role>, guard: Option<Operation>)
    requires Passes(s, guard)
    ensures var after := After(s, StartUnlock(key, role, guard));
            && Next(s, StartUnlock(key, role, guard)).outcome == Suspended(s.engine.nextId) && after.engine.nextId == s.engine.nextId + 1
            && s.engine.nextId in after.engine.pending && after.engine.pending[s.engine.nextId] == UnlockCommit(key, RoleGiven(role), guard)
  {
    assert role.Some? ==> role.value == RoleGiven(role);
  }

  /**
   A plain unlock waits if its caller may act. When it resumes, whatever happened meanwhile, it goes
   through exactly if the key was accepted and the caller still may act. Then it installs exactly the
   given key in the given role, primary when none is given, leases it to the token's owner, and pins
   emergency mode only for a decoy.
   */
  lemma PlainUnlockInstallsGivenRole(s: State, key: VaultKey, role: Option<Role>, guard: Option<Operation>, between: seq<Event>, ok: bool)
    requires Reachable(s) && MayAct(s, guard)
    requires Call(StartUnlock(key, role, guard), between).StillWaiting(s)
    ensures var call := Call(StartUnlock(key, role, guard), between);
            var before, step := call.Waited(s), call.Commit(s, ok);
            && Next(s, call.start).outcome == Suspended(s.engine.nextId)
            && (step.outcome.Unlocked? <==> ok && MayAct(before, guard))
            && (step.outcome.Unlocked? ==>
                && step.state.memory.key == Some(key) && step.state.memory.role == Some(RoleGiven(role))
                && (step.state.memory.pinned <==> before.memory.pinned || role == Some(Decoy))
                && (SessionMode(step.state) == Emergency <==> before.memory.pinned || role == Some(Decoy))
                && LeasedTo(before, step.state, guard, key, RoleGiven(role)))
  {
    var call := Call(StartUnlock(key, role, guard), between);
    ReachableInv(s);
    PassesExactlyWhen(s, guard);
    PlainUnlockWaits(s, key, role, guard);
    FrameKept(s, call, UnlockCommit(key, RoleGiven(role), guard));
    UnlockCommits(call.Waited(s), s.engine.nextId, key, RoleGiven(role), guard, ok);
  }

  /** Uninterrupted, a plain unlock by whoever may act installs the key. */
  lemma UninterruptedUnlock(s: State, key: VaultKey, role: Option<Role>, guard: Option<Operation>)
    requires Reachable(s) && MayAct(s, guard)
    ensures var step := Call(StartUnlock(key, role, guard), []).Commit(s, true);
            step.outcome.Unlocked? && step.state.memory.key == Some(key) && step.state.memory.role == Some(RoleGiven(role))
  {
    var call := Call(StartUnlock(key, role, guard), []);
    ReachableInv(s);
    PassesExactlyWhen(s, guard);
    assert call.Waited(s) == After(s, call.start);
    PlainUnlockInstallsGivenRole(s, key, role, guard, [], true);
  }

  /** A routed unlock goes on to check its key exactly when the envelope was opened and its caller still may act. */
  lemma RoutedUnlockProceedsExactlyWhen(s: State, call: RoutedCall, ok: bool)
    requires Reachable(s) && MayAct(s, call.guard) && s.engine.nextId in call.Opened(s).engine.pending
    ensures var step := Next(call.Opened(s), Resume(s.engine.nextId, ok));
            && (step.outcome.Suspended? <==> ok && MayAct(call.Opened(s), call.guard))
            && step.state.memory == call.Opened(s).memory && step.state.tokens == call.Opened(s).tokens && step.state.cached == call.Opened(s).cached
  {
    ReachableInv(s);
    PassesExactlyWhen(s, call.guard);
    OpenedFrame(s, call);
    StepKeeps(s, call.Start());
    RunKeeps(After(s, call.Start()), call.before);
    PassesExactlyWhen(Dropped(call.Opened(s), s.engine.nextId), call.guard);
  }

  // ---------------------------------------------------------------- locking and owners

  /** Locked: no key, role, lease, token, cache or timer; the cached array zeroed. Owner and pin are left. */
  ghost predicate IsLockedOf(s: State, after: State) {
    && after.memory == s.memory.(key := None, role := None)
    && after.tokens.operation.None? && after.tokens.lease.None? && after.tokens.epoch == s.tokens.epoch + 1
    && after.tokens.owner == s.tokens.owner && after.tokens.ownershipMode == s.tokens.ownershipMode
    && after.cached.None? && after.engine.wiped == s.engine.wiped + (if s.cached.Some? then {s.cached.value.inner} else {})
    && after.timing == s.timing.(timer := None, manuallyLocked := true, lastActivityAt := 0)
    && after.engine.pending == s.engine.pending && after.engine.now == s.engine.now
  }

  lemma LockDropsEverything(s: State)
    ensures Next(s, Lock).outcome == Completed && IsLockedOf(s, After(s, Lock))
  {
  }

  /** Logging out also ends the emergency and forgets the owner. */
  lemma ClearOwnerDropsEverything(s: State)
    ensures var after := After(s, ClearOwner);
            && after.memory == Memory(None, Normal, None, false)
            && after.tokens.operation.None? && after.tokens.lease.None? && after.tokens.owner.None? && after.tokens.ownershipMode == s.tokens.ownershipMode
            && after.cached.None? && (s.cached.Some? ==> s.cached.value.inner in after.engine.wiped)
            && after.timing.timer.None? && after.timing.manuallyLocked
  {
  }

  /** What `String.prototype.trim` takes for white space (section 22.1.3.32 of ECMA-262). */
  lemma TrimmedExactlyWhen(u: CodeUnit)
    ensures IsTrimmed(u) <==>
            u in [0x9, 0xA, 0xB, 0xC, 0xD, 0x20, 0xA0, 0x1680, 0x2000, 0x2001, 0x2002, 0x2003, 0x2004, 0x2005, 0x2006, 0x2007,
                  0x2008, 0x2009, 0x200A, 0x2028, 0x2029, 0x202F, 0x205F, 0x3000, 0xFEFF]
  {
  }

  /** An operation begins exactly for an owner named by 1 to 2048 units without white space at either end. */
  lemma BeginsExactlyWhen(s: State, ownerId: OwnerId)
    ensures Next(s, Begin(ownerId)).outcome.Issued? <==>
            0 < |ownerId| <= 2048 && !IsTrimmed(ownerId[0]) && !IsTrimmed(ownerId[|ownerId| - 1])
    ensures !Next(s, Begin(ownerId)).outcome.Issued? ==> Next(s, Begin(ownerId)) == Step(s, Failed)
    ensures var step := Next(s, Begin(ownerId));
            step.outcome.Issued? ==>
              && step.state.tokens.operation == Some(step.outcome.operation) && step.state.tokens.owner == Some(ownerId)
              && step.outcome.operation in step.state.tokens.operations
              && step.state.tokens.operations[step.outcome.operation] == OperationMetadata(step.state.tokens.epoch, ownerId)
              && step.state.tokens.epoch > s.tokens.epoch
              && (Reachable(s) ==> step.outcome.operation !in s.tokens.operations)
  {
    if Reachable(s) {
      ReachableInv(s);
    }
  }

  /** It locks, as if by hand, exactly when another owner was in charge, or none and there was a key, cached material or an emergency. */
  lemma BeginLocksExactlyWhen(s: State, ownerId: OwnerId)
    requires Reachable(s) && Next(s, Begin(ownerId)).outcome.Issued?
    ensures var after := After(s, Begin(ownerId));
            if (if s.tokens.owner.Some? then s.tokens.owner != Some(ownerId) else s.memory.key.Some? || s.cached.Some? || s.memory.pinned)
            then after.memory == Memory(None, Normal, None, false) && after.cached.None? && after.timing == s.timing.(timer := None, manuallyLocked := true, lastActivityAt := 0)
            else after.memory == s.memory && after.cached == s.cached && after.timing == s.timing && after.tokens.lease == s.tokens.lease
  {
    ReachableInv(s);
  }

  // ---------------------------------------------------------------- refused calls

  /** The token a call is made with, for the calls that are guarded by one. */
  function TokenOf(e: Event): Option<Option<Operation>> {
    match e
    case StartUnlock(_, _, guard) => Some(guard)
    case StartRoutedUnlock(_, _, _, guard) => Some(guard)
    case StartCache(_, guard) => Some(guard)
    case StartRewrap(guard) => Some(guard)
    case ClearCache(guard) => Some(guard)
    case StartAuthorizedDeletion(guard) => Some(guard)
    case StartDeletion(guard) => Some(guard)
    case StartExit(_, guard) => Some(guard)
    case EnterEmergency(guard) => Some(guard)
    case ClearPin(guard) => Some(guard)
    case Hydrate(_, guard) => Some(guard)
    case _ => None
  }

  /** A call is cancelled exactly when its caller may not act, and then does nothing but zero its own array. */
  lemma RefusedExactlyWhen(s: State, e: Event)
    requires Reachable(s) && TokenOf(e).Some?
    ensures Next(s, e).outcome.Cancelled? <==> !MayAct(s, TokenOf(e).value)
    ensures Next(s, e).outcome.Cancelled? ==>
              Next(s, e).outcome.reason == if TokenOf(e).value.Some? then StaleOperation else MissingOperation
    ensures Next(s, e).outcome.Cancelled? ==>
              if e.StartCache? then After(s, e) == s.(engine := s.engine.(wiped := s.engine.wiped + {s.engine.nextId}, nextId := s.engine.nextId + 1))
              else After(s, e) == s
  {
    ReachableInv(s);
    PassesExactlyWhen(s, TokenOf(e).value);
  }

  /** A resumption fails if what it waited for failed, is cancelled if its caller no longer may act, and then, cache aside, changes nothing. */
  lemma ResumptionRefusedAs(s: State, ticket: nat, ok: bool)
    requires Inv(s) && ticket in s.engine.pending
    ensures var c, step := s.engine.pending[ticket], Next(s, Resume(ticket, ok));
            && (!ok && !c.RewrapFromCache? ==> step.outcome == Failed)
            && ((ok || c.RewrapFromCache?) && !MayAct(s, c.guard) ==>
                step.outcome == Cancelled(if c.guard.Some? then StaleOperation else MissingOperation))
            && (step.outcome.Failed? || step.outcome.Cancelled? ==> c.CacheCommit? || c.RewrapFromCache? || step.state == Dropped(s, ticket))
  {
    PassesExactlyWhen(Dropped(s, ticket), s.engine.pending[ticket].guard);
  }

  // ---------------------------------------------------------------- emergency mode

  ghost predicate OnlyPinChanged(s: State, after: State) {
    after == s.(memory := s.memory.(mode := after.memory.mode, pinned := after.memory.pinned), history := after.history)
  }

  /** By whoever may act: entering pins, clearing unpins, the persisted flag pins if it is set. Nothing else changes. */
  lemma EmergencyCallsPinExactly(s: State, guard: Option<Operation>, active: bool)
    requires Reachable(s) && MayAct(s, guard)
    ensures After(s, EnterEmergency(guard)).memory.pinned && OnlyPinChanged(s, After(s, EnterEmergency(guard)))
    ensures !After(s, ClearPin(guard)).memory.pinned && OnlyPinChanged(s, After(s, ClearPin(guard)))
    ensures After(s, ClearPin(guard)).memory.mode == Normal && After(s, EnterEmergency(guard)).memory.mode == Emergency
    ensures (After(s, Hydrate(active, guard)).memory.pinned <==> active || s.memory.pinned) && OnlyPinChanged(s, After(s, Hydrate(active, guard)))
  {
    ReachableInv(s);
    PassesExactlyWhen(s, guard);
  }

  /** What pins emergency mode: entering it, the persisted flag, and the commit of a decoy, each by who may act. */
  ghost predicate StartsPin(s: State, e: Event) {
    || (e.EnterEmergency? && MayAct(s, e.guard))
    || (e.Hydrate? && e.active && MayAct(s, e.guard))
    || (e.Resume? && e.ok && e.ticket in s.engine.pending && s.engine.pending[e.ticket].UnlockCommit?
        && s.engine.pending[e.ticket].role == Decoy && MayAct(s, s.engine.pending[e.ticket].guard))
  }

  lemma ResumePinsExactlyWhen(s: State, c: Continuation, ok: bool)
    requires !s.memory.pinned
    ensures Resumed(s, c, ok).state.memory.pinned <==> ok && c.UnlockCommit? && c.role == Decoy && Passes(s, c.guard)
  {
  }

  lemma CallPinsExactlyWhen(s: State, e: Event)
    requires !s.memory.pinned && !e.Resume?
    ensures After(s, e).memory.pinned <==> (e.EnterEmergency? || (e.Hydrate? && e.active)) && Passes(s, e.guard)
  {
  }

  /** Nothing else pins it. */
  lemma PinStartsExactlyWhen(s: State, e: Event)
    requires Reachable(s) && !s.memory.pinned
    ensures After(s, e).memory.pinned <==> StartsPin(s, e)
  {
    ReachableInv(s);
    if e.Resume? {
      if e.ticket in s.engine.pending {
        var c := s.engine.pending[e.ticket];
        PassesExactlyWhen(s, c.guard);
        ResumePinsExactlyWhen(Dropped(s, e.ticket), c, e.ok);
      }
    } else {
      CallPinsExactlyWhen(s, e);
      if e.EnterEmergency? || e.Hydrate? {
        PassesExactlyWhen(s, e.guard);
      }
    }
  }

  /** Leaving emergency mode starts only in it and with the code it asks for. */
  lemma ExitStartsExactlyWhen(s: State, otpMissing: bool, guard: Option<Operation>)
    requires Reachable(s) && MayAct(s, guard)
    ensures Next(s, StartExit(otpMissing, guard)).outcome.Suspended? <==> SessionMode(s) == Emergency && !otpMissing
    ensures !Next(s, StartExit(otpMissing, guard)).outcome.Suspended? ==>
              Next(s, StartExit(otpMissing, guard)) == Step(s, if SessionMode(s) == Emergency then Failed else Completed)
  {
    ReachableInv(s);
    PassesExactlyWhen(s, guard);
  }

  /** When it goes through, exactly with the phrase proved and a caller who still may act, the vault is locked and the emergency over. */
  lemma ExitEndsTheEmergency(s: State, guard: Option<Operation>, between: seq<Event>, ok: bool)
    requires Reachable(s) && MayAct(s, guard) && SessionMode(s) == Emergency
    requires Call(StartExit(false, guard), between).StillWaiting(s)
    ensures var call := Call(StartExit(false, guard), between);
            var before, step := call.Waited(s), call.Commit(s, ok);
            && (step.outcome == Completed <==> ok && MayAct(before, guard))
            && (step.outcome == Completed ==>
                && step.state.memory == Memory(None, Normal, None, false) && SessionMode(step.state) == Normal
                && step.state.tokens.lease.None? && step.state.tokens.operation.None? && step.state.cached.None?
                && step.state.timing.timer.None? && step.state.timing.manuallyLocked)
  {
    var call := Call(StartExit(false, guard), between);
    ReachableInv(s);
    PassesExactlyWhen(s, guard);
    FrameKept(s, call, ExitAfterRecovery(guard));
    PassesExactlyWhen(Dropped(call.Waited(s), s.engine.nextId), guard);
  }

  // ---------------------------------------------------------------- the cache

  /**
   Caching goes through exactly when the material was accepted and the caller still may act. Then the
   entry is the caller's array and key, the array held before is zeroed, and nothing else changes;
   otherwise the caller's array is zeroed and the entry is the same.
   */
  lemma CachingInstallsExactly(s: State, wrappingKey: nat, guard: Option<Operation>, between: seq<Event>, ok: bool)
    requires Reachable(s) && MayAct(s, guard)
    requires Call(StartCache(wrappingKey, guard), between).StillWaiting(s)
    ensures var call := Call(StartCache(wrappingKey, guard), between);
            var before, step := call.Waited(s), call.Commit(s, ok);
            && (step.outcome == Completed <==> ok && MayAct(before, guard))
            && (step.outcome == Completed ==>
                && step.state.cached == Some(CacheEntry(s.engine.nextId, wrappingKey)) && s.engine.nextId !in step.state.engine.wiped
                && (before.cached.Some? ==> before.cached.value.inner in step.state.engine.wiped))
            && (step.outcome != Completed ==> step.state.cached == before.cached && s.engine.nextId in step.state.engine.wiped)
            && step.state.memory == before.memory && step.state.tokens == before.tokens && step.state.timing == before.timing
  {
    var call := Call(StartCache(wrappingKey, guard), between);
    ReachableInv(s);
    PassesExactlyWhen(s, guard);
    FrameKept(s, call, CacheCommit(s.engine.nextId, wrappingKey, guard));
    PassesExactlyWhen(Dropped(call.Waited(s), s.engine.nextId), guard);
  }

  /** Re-wrapping suspends exactly when something is cached; failing, it drops the cache if its caller still may act. */
  lemma RewrappingDropsExactlyWhen(s: State, guard: Option<Operation>, between: seq<Event>, ok: bool)
    requires Reachable(s) && MayAct(s, guard)
    ensures Next(s, StartRewrap(guard)).outcome.Suspended? <==> s.cached.Some?
    ensures s.cached.Some? && Call(StartRewrap(guard), between).StillWaiting(s) ==>
              var call := Call(StartRewrap(guard), between);
              var before, after := call.Waited(s), call.Commit(s, ok).state;
              && (ok || !MayAct(before, guard) ==> after == before.(engine := before.engine.(pending := after.engine.pending)))
              && (!ok && MayAct(before, guard) ==>
                  && after.cached.None? && (before.cached.Some? ==> before.cached.value.inner in after.engine.wiped)
                  && after.memory == before.memory && after.tokens == before.tokens && after.timing == before.timing)
  {
    var call := Call(StartRewrap(guard), between);
    ReachableInv(s);
    PassesExactlyWhen(s, guard);
    if s.cached.Some? && call.StillWaiting(s) {
      FrameKept(s, call, RewrapFromCache(guard));
      PassesExactlyWhen(Dropped(call.Waited(s), s.engine.nextId), guard);
    }
  }

  lemma ClearingTheCache(s: State, guard: Option<Operation>)
    requires Reachable(s) && MayAct(s, guard)
    ensures var after := After(s, ClearCache(guard));
            && after.cached.None? && (s.cached.Some? ==> s.cached.value.inner in after.engine.wiped)
            && after.memory == s.memory && after.tokens == s.tokens && after.timing == s.timing
  {
    ReachableInv(s);
    PassesExactlyWhen(s, guard);
  }

  // ---------------------------------------------------------------- deletion

  /** Locked, and not shown as locked by hand, because there is nothing left to unlock. */
  ghost predicate IsDeletedOf(s: State, after: State) {
    && after.memory == s.memory.(key := None, role := None)
    && after.tokens.operation.None? && after.tokens.lease.None? && after.tokens.owner == s.tokens.owner
    && after.cached.None? && (s.cached.Some? ==> s.cached.value.inner in after.engine.wiped)
    && after.timing.timer.None? && !after.timing.manuallyLocked && after.timing.lastActivityAt == 0
  }

  /** Deletion locks the session after the purge exactly when the purge succeeded and the caller still may act. */
  lemma DeletionLocksExactlyWhen(s: State, guard: Option<Operation>, between: seq<Event>, ok: bool)
    requires Reachable(s) && MayAct(s, guard)
    requires Call(StartDeletion(guard), between).StillWaiting(s)
    ensures var call := Call(StartDeletion(guard), between);
            var before, step := call.Waited(s), call.Commit(s, ok);
            && (step.outcome == Completed <==> ok && MayAct(before, guard))
            && (step.outcome == Completed ==> IsDeletedOf(before, step.state))
            && (step.outcome != Completed ==> step.state.memory == before.memory && step.state.tokens == before.tokens && step.state.cached == before.cached)
  {
    var call := Call(StartDeletion(guard), between);
    ReachableInv(s);
    PassesExactlyWhen(s, guard);
    FrameKept(s, call, PurgeThenLock(guard));
    PassesExactlyWhen(Dropped(call.Waited(s), s.engine.nextId), guard);
  }

  /** With an authorization first, the purge starts exactly when that succeeded and the caller still may act. */
  lemma AuthorizedDeletionPurgesExactlyWhen(s: State, guard: Option<Operation>, between: seq<Event>, ok: bool)
    requires Reachable(s) && MayAct(s, guard)
    requires Call(StartAuthorizedDeletion(guard), between).StillWaiting(s)
    ensures var call := Call(StartAuthorizedDeletion(guard), between);
            var before, step := call.Waited(s), call.Commit(s, ok);
            && (step.outcome.Suspended? <==> ok && MayAct(before, guard))
            && (step.outcome.Suspended? ==>
                step.outcome.ticket in step.state.engine.pending && step.state.engine.pending[step.outcome.ticket] == PurgeThenLock(guard))
            && step.state.memory == before.memory && step.state.tokens == before.tokens && step.state.cached == before.cached
  {
    var call := Call(StartAuthorizedDeletion(guard), between);
    ReachableInv(s);
    PassesExactlyWhen(s, guard);
    FrameKept(s, call, DeletionAuthorized(guard));
    PassesExactlyWhen(Dropped(call.Waited(s), s.engine.nextId), guard);
  }

  // ---------------------------------------------------------------- activity and time

  /** Activity renews the timer exactly while unlocked and for the holder of the lease; else nothing changes. */
  lemma TouchRenewsExactlyWhen(s: State, lease: Option<Lease>)
    requires Reachable(s)
    ensures var step := Next(s, Touch(lease));
            if s.memory.key.Some? && (if lease.Some? then s.tokens.lease == lease else !s.tokens.ownershipMode) then
              && step.outcome == Completed
              && step.state.timing == s.timing.(timer := Some(s.engine.now + TimeoutMs(s.timing.config)), lastActivityAt := s.engine.now)
              && step.state.memory == s.memory && step.state.tokens == s.tokens && step.state.cached == s.cached
            else step.state == s
  {
    ReachableInv(s);
    LeaseIsIdentity(s);
  }

  lemma LeaseIsIdentity(s: State)
    requires Reachable(s)
    ensures s.tokens.lease.Some? ==> IsLeaseCurrent(s, s.tokens.lease.value)
  {
    ReachableInv(s);
  }

  lemma HousekeepingChangesTimingOnly(s: State, config: Config)
    ensures After(s, Configure(config)) == s.(timing := s.timing.(config := config))
    ensures After(s, ClearTimer) == s.(timing := s.timing.(timer := None))
    ensures After(s, ResetLockState) == s.(timing := s.timing.(timer := None, manuallyLocked := false, lastActivityAt := 0))
  {
  }

  /** Time passing locks exactly when the timer falls due, and otherwise moves the clock alone. */
  lemma TimeLocksExactlyWhenDue(s: State, ms: nat)
    ensures var due := s.timing.timer.Some? && s.timing.timer.value <= s.engine.now + ms;
            var after := After(s, Elapse(ms));
            && after.engine.now == s.engine.now + ms
            && (due ==> IsLockedOf(s, after.(engine := after.engine.(now := s.engine.now))))
            && (!due ==> after == s.(engine := s.engine.(now := s.engine.now + ms)))
  {
  }

  /**
   A new configuration does not move the deadline, but what is reported as remaining is counted with the
   new duration from the last activity on: it is off by the difference of the two durations.
   */
  lemma RemainingAfterReconfiguration(now: int, events: seq<Event>, config: Config)
    requires 0 < now && TimerLeftAlone(Initial(now), events) && Run(Initial(now), events).memory.key.Some?
    ensures var s := Run(Initial(now), events);
            var after := After(s, Configure(config));
            after.timing.timer == s.timing.timer && s.timing.timer.Some? &&
            (var shown := s.timing.timer.value - s.engine.now + TimeoutMs(config) - s.history.armedFor;
             RemainingMs(after) == Some(if shown < 0 then 0 else shown))
  {
    UnlockedMeansTimerArmed(now, events);
  }
}
