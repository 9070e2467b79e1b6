/** What every run of the session keeps. */
module SessionSafety {
  import opened Prelude
  import opened AutoLockMinutes
  import opened SessionSpec

  // ---------------------------------------------------------------- the invariant

  /** Tokens are registered under the epoch and owner they were issued for. */
  ghost predicate TokensOk(s: State) {
    && (forall t <- s.tokens.operations :: t.serial < s.engine.nextId && s.tokens.operations[t].epoch <= s.tokens.epoch)
    && (s.tokens.operation.Some? ==>
          && s.tokens.operation.value in s.tokens.operations
          && s.tokens.operations[s.tokens.operation.value].epoch == s.tokens.epoch
          && s.tokens.owner == Some(s.tokens.operations[s.tokens.operation.value].ownerId))
    && (!s.tokens.ownershipMode ==> s.tokens.operations == map[] && s.tokens.owner == None && s.tokens.lease == None)
  }

  /** History records exactly the sensitive state that is present. */
  ghost predicate ProvenanceOk(s: State) {
    && (s.memory.key.Some? <==> s.history.keyOf != Nobody)
    && (s.cached.Some? <==> s.history.cacheOf != Nobody)
    && (s.memory.pinned <==> s.history.pinOf != Nobody)
    && (s.memory.pinned <==> s.memory.mode == Emergency)
    && (s.memory.key.Some? <==> s.memory.role.Some?)
    && (s.memory.key.Some? ==> !s.timing.manuallyLocked)
  }

  predicate MatchesOwner(s: State, p: Provenance) {
    p == Nobody || (p.OwnedBy? && s.tokens.owner == Some(p.ownerId))
  }

  /** Once a consumer has begun an operation, all sensitive state belongs to the current owner. */
  ghost predicate OwnedOk(s: State) {
    s.tokens.ownershipMode ==>
      && (s.memory.key.Some? <==> s.tokens.lease.Some?)
      && (s.tokens.lease.Some? ==>
            && IsLeaseCurrent(s, s.tokens.lease.value)
            && s.memory.key == Some(s.tokens.lease.value.vaultKey)
            && s.memory.role == Some(s.tokens.lease.value.role)
            && s.tokens.lease.value.epoch <= s.tokens.epoch)
      && MatchesOwner(s, s.history.keyOf) && MatchesOwner(s, s.history.cacheOf) && MatchesOwner(s, s.history.pinOf)
  }

  /** No cached or suspended buffer has been zero-filled, and no two of them are the same array. */
  ghost predicate BuffersOk(s: State) {
    && (forall k <- s.engine.pending :: k < s.engine.nextId)
    && (forall b <- s.engine.wiped :: b < s.engine.nextId)
    && (forall k <- s.engine.pending | s.engine.pending[k].CacheCommit? :: s.engine.pending[k].inner == k && k !in s.engine.wiped)
    && (s.cached.Some? ==>
          && s.cached.value.inner < s.engine.nextId
          && s.cached.value.inner !in s.engine.wiped
          && s.cached.value.inner !in s.engine.pending)
  }

  ghost predicate Inv(s: State) {
    TokensOk(s) && ProvenanceOk(s) && OwnedOk(s) && BuffersOk(s)
  }

  lemma CacheClearedKeeps(s: State)
    requires Inv(s)
    ensures Inv(CacheCleared(s))
  {
  }

  lemma LockedKeeps(s: State)
    requires Inv(s)
    ensures Inv(Locked(s))
  {
    CacheClearedKeeps(s);
  }

  lemma PinClearedKeeps(s: State)
    requires Inv(s)
    ensures Inv(PinCleared(s))
  {
  }

  /** A guard that holds names the current owner, or there has never been an owner. */
  lemma PassingGuardNamesOwner(s: State, guard: Option<Operation>)
    requires Inv(s) && GuardFailure(s, guard).None?
    ensures s.tokens.ownershipMode ==> guard.Some? && s.tokens.owner.Some? && GuardOwner(s, guard) == OwnedBy(s.tokens.owner.value)
    ensures !s.tokens.ownershipMode ==> guard.None? && GuardOwner(s, guard) == Unowned
  {
  }

  lemma PinSetKeeps(s: State, guard: Option<Operation>)
    requires Inv(s) && GuardFailure(s, guard).None?
    ensures Inv(PinSet(s, GuardOwner(s, guard)))
  {
    PassingGuardNamesOwner(s, guard);
  }

  lemma InstalledKeeps(s: State, key: VaultKey, role: Role, guard: Option<Operation>)
    requires Inv(s) && GuardFailure(s, guard).None?
    ensures Inv(Installed(s, key, role, guard))
  {
    PassingGuardNamesOwner(s, guard);
    PinSetKeeps(s, guard);
  }

  lemma BegunKeeps(s: State, ownerId: OwnerId)
    requires Inv(s)
    ensures Inv(Begun(s, ownerId).state)
  {
    LockedKeeps(s);
    PinClearedKeeps(Locked(s));
  }

  lemma OwnerClearedKeeps(s: State)
    requires Inv(s)
    ensures Inv(OwnerCleared(s))
  {
    LockedKeeps(s);
    PinClearedKeeps(Locked(s));
  }

  lemma SuspendKeeps(s: State, c: Continuation)
    requires Inv(s) && (c.CacheCommit? ==> c.inner == s.engine.nextId)
    ensures Inv(Suspend(s, c).state)
  {
  }

  /** What BuffersOk says of the array a frame carries once the frame has left the pending set. */
  ghost predicate CarriesOwnBuffer(s: State, c: Continuation) {
    c.CacheCommit? ==> c.inner < s.engine.nextId && c.inner !in s.engine.wiped && c.inner !in s.engine.pending && (s.cached.Some? ==> s.cached.value.inner != c.inner)
  }

  lemma DroppingKeeps(s: State, ticket: nat)
    requires Inv(s) && ticket in s.engine.pending
    ensures Inv(Dropped(s, ticket))
    ensures CarriesOwnBuffer(Dropped(s, ticket), s.engine.pending[ticket])
  {
  }

  lemma WipingKeeps(s: State, inner: nat)
    requires Inv(s) && CarriesOwnBuffer(s, CacheCommit(inner, 0, None))
    ensures Inv(Wiped(s, inner))
  {
  }

  lemma CacheFilledKeeps(s: State, entry: CacheEntry, guard: Option<Operation>)
    requires Inv(s) && s.cached.None? && GuardFailure(s, guard).None?
    requires entry.inner < s.engine.nextId && entry.inner !in s.engine.wiped && entry.inner !in s.engine.pending
    ensures Inv(s.(cached := Some(entry), history := s.history.(cacheOf := GuardOwner(s, guard))))
  {
    PassingGuardNamesOwner(s, guard);
  }

  lemma CacheCommitKeeps(s: State, c: Continuation, ok: bool)
    requires Inv(s) && c.CacheCommit? && CarriesOwnBuffer(s, c)
    ensures Inv(Resumed(s, c, ok).state)
  {
    if ok && GuardFailure(s, c.guard).None? {
      CacheClearedKeeps(s);
      var cleared := CacheCleared(s);
      assert GuardFailure(cleared, c.guard).None? && GuardOwner(cleared, c.guard) == GuardOwner(s, c.guard);
      CacheFilledKeeps(cleared, CacheEntry(c.inner, c.wrappingKey), c.guard);
    } else {
      WipingKeeps(s, c.inner);
    }
  }

  lemma UnlockResumeKeeps(s: State, c: Continuation, ok: bool)
    requires Inv(s) && (c.UnlockCommit? || c.RoutedUnlock?)
    ensures Inv(Resumed(s, c, ok).state)
  {
    if c.RoutedUnlock? {
      SuspendKeeps(s, UnlockCommit(c.key, c.role, c.guard));
    } else if GuardFailure(s, c.guard).None? {
      InstalledKeeps(s, c.key, c.role, c.guard);
    }
  }

  lemma LockedResetKeeps(s: State)
    requires Inv(s)
    ensures Inv(LockStateReset(Locked(s)))
  {
    LockedKeeps(s);
  }

  lemma LockingResumeKeeps(s: State, c: Continuation, ok: bool)
    requires Inv(s) && !c.UnlockCommit? && !c.RoutedUnlock? && !c.CacheCommit?
    ensures Inv(Resumed(s, c, ok).state)
  {
    CacheClearedKeeps(s);
    SuspendKeeps(s, PurgeThenLock(c.guard));
    LockedResetKeeps(s);
    PinClearedKeeps(s);
    LockedKeeps(PinCleared(s));
  }

  lemma ResumedKeeps(s: State, ticket: nat, ok: bool)
    requires Inv(s)
    ensures Inv(After(s, Resume(ticket, ok)))
  {
    if ticket in s.engine.pending {
      DroppingKeeps(s, ticket);
      var p, c := Dropped(s, ticket), s.engine.pending[ticket];
      if c.CacheCommit? {
        CacheCommitKeeps(p, c, ok);
      } else if c.UnlockCommit? || c.RoutedUnlock? {
        UnlockResumeKeeps(p, c, ok);
      } else {
        LockingResumeKeeps(p, c, ok);
      }
    }
  }

  predicate IsStart(e: Event) {
    e.StartUnlock? || e.StartRoutedUnlock? || e.StartCache? || e.StartRewrap? || e.StartAuthorizedDeletion? || e.StartDeletion? || e.StartExit?
  }

  lemma StartKeeps(s: State, e: Event)
    requires Inv(s) && IsStart(e)
    ensures Inv(After(s, e))
  {
    match e {
      case StartUnlock(key, role, guard) =>
        SuspendKeeps(s, UnlockCommit(key, if role.Some? then role.value else Primary, guard));
      case StartRoutedUnlock(key, active, duress, guard) =>
        SuspendKeeps(s, RoutedUnlock(key, RoutedRole(s, active, duress), guard));
      case StartCache(wrappingKey, guard) => SuspendKeeps(s, CacheCommit(s.engine.nextId, wrappingKey, guard));
      case StartRewrap(guard) => SuspendKeeps(s, RewrapFromCache(guard));
      case StartAuthorizedDeletion(guard) => SuspendKeeps(s, DeletionAuthorized(guard));
      case StartDeletion(guard) => SuspendKeeps(s, PurgeThenLock(guard));
      case StartExit(otpMissing, guard) => SuspendKeeps(s, ExitAfterRecovery(guard));
    }
  }

  lemma PinOrCacheEventKeeps(s: State, e: Event)
    requires Inv(s) && (e.ClearCache? || e.EnterEmergency? || e.ClearPin? || e.Hydrate?)
    ensures Inv(After(s, e))
  {
    CacheClearedKeeps(s);
    PinClearedKeeps(s);
    if GuardFailure(s, e.guard).None? {
      PinSetKeeps(s, e.guard);
    }
  }

  /** The invariant does not depend on the clock, the timer or the configuration. */
  lemma TimingKeeps(s: State, timer: Option<int>, lastActivityAt: int, manuallyLocked: bool, config: Config)
    requires Inv(s) && (manuallyLocked ==> s.timing.manuallyLocked)
    ensures Inv(s.(timing := s.timing.(timer := timer, lastActivityAt := lastActivityAt, manuallyLocked := manuallyLocked, config := config)))
  {
  }

  lemma TimingEventKeeps(s: State, e: Event)
    requires Inv(s) && (e.Touch? || e.ClearTimer? || e.ResetLockState? || e.Configure?)
    ensures Inv(After(s, e))
  {
    var s' := After(s, e);
    TimingKeeps(s, s'.timing.timer, s'.timing.lastActivityAt, s'.timing.manuallyLocked, s'.timing.config);
  }

  lemma ElapseKeeps(s: State, ms: nat)
    requires Inv(s)
    ensures Inv(After(s, Elapse(ms)))
  {
    LockedKeeps(s);
  }

  /** Every step of every interleaving keeps the invariant. */
  lemma StepKeeps(s: State, e: Event)
    requires Inv(s)
    ensures Inv(After(s, e))
  {
    if IsStart(e) {
      StartKeeps(s, e);
    } else if e.ClearCache? || e.EnterEmergency? || e.ClearPin? || e.Hydrate? {
      PinOrCacheEventKeeps(s, e);
    } else if e.Touch? || e.ClearTimer? || e.ResetLockState? || e.Configure? {
      TimingEventKeeps(s, e);
    } else {
      match e {
        case Begin(ownerId) => BegunKeeps(s, ownerId);
        case Lock => LockedKeeps(s);
        case ClearOwner => OwnerClearedKeeps(s);
        case Resume(ticket, ok) => ResumedKeeps(s, ticket, ok);
        case Elapse(ms) => ElapseKeeps(s, ms);
      }
    }
  }

  lemma {:induction false} RunKeeps(s: State, events: seq<Event>)
    requires Inv(s)
    ensures Inv(Run(s, events))
    decreases |events|
  {
    if events != [] {
      StepKeeps(s, events[0]);
      RunKeeps(After(s, events[0]), events[1..]);
    }
  }
}
