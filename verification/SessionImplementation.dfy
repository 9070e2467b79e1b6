/**
 The session's module variables updated in place, function by function, as src/session does
 it. Every method is shown to take exactly the step the state machine prescribes, so the
 theorems about runs hold of this code.
 */
module SessionImplementation {
  import opened Prelude
  import opened AutoLockMinutes
  import opened SessionSpec

  class VaultSession {
    // vault-session-operation.ts
    var currentEpoch: nat
    var currentOwnerId: Option<OwnerId>
    var currentOperation: Option<Operation>
    var operationMetadata: map<Operation, OperationMetadata>
    var currentLease: Option<Lease>
    var leaseMetadata: set<Lease>
    var ownershipModeEnabled: bool
    // memory-session.ts
    var sessionVaultKey: Option<VaultKey>
    var sessionMode: Mode
    var sessionKeyRole: Option<Role>
    var emergencyModePinned: bool
    // inner-key-material-cache.ts
    var cachedEntry: Option<CacheEntry>
    // auto-lock.ts
    var sessionConfig: Config
    var inactivityTimer: Option<int>
    var manuallyLocked: bool
    var lastActivityAt: int
    // the engine underneath
    var clock: int
    var frames: map<nat, Continuation>
    var zeroed: set<nat>
    var nextIdentity: nat

    ghost var history: History

    ghost function Abs(): State
      reads this
    {
      State(
        Tokens(currentEpoch, currentOwnerId, currentOperation, operationMetadata, currentLease, leaseMetadata, ownershipModeEnabled),
        Memory(sessionVaultKey, sessionMode, sessionKeyRole, emergencyModePinned),
        cachedEntry,
        Timing(sessionConfig, inactivityTimer, manuallyLocked, lastActivityAt),
        Engine(clock, frames, zeroed, nextIdentity),
        history)
    }

    constructor (now: int)
      ensures Abs() == Initial(now)
    {
      currentEpoch, currentOwnerId, currentOperation, operationMetadata := 0, None, None, map[];
      currentLease, leaseMetadata, ownershipModeEnabled := None, {}, false;
      sessionVaultKey, sessionMode, sessionKeyRole, emergencyModePinned := None, Normal, None, false;
      cachedEntry := None;
      sessionConfig, inactivityTimer, manuallyLocked, lastActivityAt := Config(None, None), None, false, 0;
      clock, frames, zeroed, nextIdentity := now, map[], {}, 0;
      history := History(Nobody, Nobody, Nobody, 0);
    }

    // -------------------------------------------------------------- vault-session-operation.ts

    method IsVaultSessionOperationCurrent(t: Operation) returns (current: bool)
      ensures current == IsOperationCurrent(Abs(), t)
    {
      if t !in operationMetadata {
        return false;
      }
      var metadata := operationMetadata[t];
      current := currentOperation == Some(t) && metadata.epoch == currentEpoch && currentOwnerId == Some(metadata.ownerId);
    }

    method AssertMutationAllowed(guard: Option<Operation>) returns (failure: Option<CancellationReason>)
      ensures failure == GuardFailure(Abs(), guard)
    {
      if guard.Some? {
        var current := IsVaultSessionOperationCurrent(guard.value);
        return if current then None else Some(StaleOperation);
      }
      if ownershipModeEnabled {
        return Some(MissingOperation);
      }
      return None;
    }

    method IssueVaultSessionOperation(ownerId: OwnerId) returns (t: Operation)
      modifies this`ownershipModeEnabled, this`currentEpoch, this`currentOwnerId, this`currentOperation, this`operationMetadata, this`nextIdentity
      ensures t == Operation(old(nextIdentity))
      ensures Abs() == WithOperation(old(Abs()), ownerId)
    {
      EnterEpoch(ownerId);
      t := Operation(nextIdentity);
      nextIdentity := nextIdentity + 1;
      operationMetadata := operationMetadata[t := OperationMetadata(currentEpoch, ownerId)];
      currentOperation := Some(t);
    }

    method EnterEpoch(ownerId: OwnerId)
      modifies this`ownershipModeEnabled, this`currentEpoch, this`currentOwnerId
      ensures ownershipModeEnabled && currentEpoch == old(currentEpoch) + 1 && currentOwnerId == Some(ownerId)
    {
      ownershipModeEnabled := true;
      currentEpoch := currentEpoch + 1;
      currentOwnerId := Some(ownerId);
    }

    method CommitVaultSessionLease(guard: Option<Operation>, key: VaultKey, role: Role)
      requires GuardFailure(Abs(), guard).None?
      modifies this`currentLease, this`leaseMetadata, this`nextIdentity
      ensures Abs() == Leased(old(Abs()), key, role, guard)
    {
      if guard.None? {
        currentLease := None;
        return;
      }
      var metadata := operationMetadata[guard.value];
      var lease := Lease(nextIdentity, metadata.ownerId, metadata.epoch, role, key);
      nextIdentity := nextIdentity + 1;
      leaseMetadata := leaseMetadata + {lease};
      currentLease := Some(lease);
    }

    method InvalidateVaultSessionLease()
      modifies this`currentLease
      ensures currentLease == None
    {
      currentLease := None;
    }

    method InvalidateVaultSessionOperation()
      modifies this`currentEpoch, this`currentOperation
      ensures currentEpoch == old(currentEpoch) + 1 && currentOperation == None
    {
      currentEpoch := currentEpoch + 1;
      currentOperation := None;
    }

    method ClearVaultSessionOperationOwner()
      modifies this`currentEpoch, this`currentOperation, this`currentOwnerId
      ensures currentEpoch == old(currentEpoch) + 1 && currentOperation == None && currentOwnerId == None
    {
      InvalidateVaultSessionOperation();
      currentOwnerId := None;
    }

    // -------------------------------------------------------------- memory-session.ts

    method GetVaultSessionMode() returns (mode: Mode)
      ensures mode == SessionMode(Abs())
    {
      if sessionVaultKey.Some? && sessionKeyRole == Some(Decoy) {
        return Emergency;
      }
      if emergencyModePinned {
        return Emergency;
      }
      return sessionMode;
    }

    method EnterEmergencyModeInternal(ghost provenance: Provenance)
      modifies this`emergencyModePinned, this`sessionMode, this`history
      ensures Abs() == PinSet(old(Abs()), provenance)
    {
      emergencyModePinned := true;
      sessionMode := Emergency;
      history := history.(pinOf := provenance);
    }

    method ClearEmergencyModePinInternal()
      modifies this`emergencyModePinned, this`sessionMode, this`history
      ensures Abs() == PinCleared(old(Abs()))
    {
      emergencyModePinned := false;
      sessionMode := Normal;
      history := history.(pinOf := Nobody);
    }

    method SetSessionKeyRole(role: Role, ghost provenance: Provenance)
      modifies this`sessionKeyRole, this`emergencyModePinned, this`sessionMode, this`history
      ensures var routed := if role == Decoy then PinSet(old(Abs()), provenance) else old(Abs());
              Abs() == routed.(memory := routed.memory.(role := Some(role)))
    {
      sessionKeyRole := Some(role);
      if role == Decoy {
        EnterEmergencyModeInternal(provenance);
      }
    }

    method LockVault()
      modifies this`sessionVaultKey, this`sessionKeyRole, this`history
      ensures sessionVaultKey == None && sessionKeyRole == None
      ensures history == old(history).(keyOf := Nobody)
    {
      sessionVaultKey := None;
      sessionKeyRole := None;
      history := history.(keyOf := Nobody);
    }

    // -------------------------------------------------------------- inner-key-material-cache.ts

    method ZeroSensitiveBytes(inner: nat)
      modifies this`zeroed
      ensures Abs() == Wiped(old(Abs()), inner)
    {
      zeroed := zeroed + {inner};
    }

    method ClearCachedEntry()
      modifies this`cachedEntry, this`zeroed, this`history
      ensures Abs() == CacheCleared(old(Abs()))
    {
      if cachedEntry.Some? {
        ZeroSensitiveBytes(cachedEntry.value.inner);
      }
      cachedEntry := None;
      history := history.(cacheOf := Nobody);
    }

    // -------------------------------------------------------------- auto-lock.ts

    method ClearVaultAutoLockTimer()
      modifies this`inactivityTimer
      ensures inactivityTimer == None
    {
      if inactivityTimer.Some? {
        inactivityTimer := None;
      }
    }

    method ScheduleVaultAutoLockInternal()
      modifies this`inactivityTimer, this`lastActivityAt, this`history
      ensures Abs() == if old(sessionVaultKey).None? || old(manuallyLocked) then old(Abs()) else Scheduled(old(Abs()))
    {
      if sessionVaultKey.None? || manuallyLocked {
        return;
      }
      ClearVaultAutoLockTimer();
      lastActivityAt := clock;
      inactivityTimer := Some(clock + TimeoutMs(sessionConfig));
      history := history.(armedFor := TimeoutMs(sessionConfig));
    }

    method TouchVaultSession(lease: Option<Lease>) returns (outcome: Outcome)
      modifies this`inactivityTimer, this`lastActivityAt, this`history
      ensures Step(Abs(), outcome) == Next(old(Abs()), Touch(lease))
    {
      if sessionVaultKey.Some? && !manuallyLocked {
        if lease.Some? {
          if !(lease.value in leaseMetadata && currentLease == lease && currentOwnerId == Some(lease.value.ownerId)) {
            return Cancelled(StaleOperation);
          }
        } else if ownershipModeEnabled {
          return Cancelled(MissingOperation);
        }
        ScheduleVaultAutoLockInternal();
      }
      return Completed;
    }

    method LockVaultSession()
      modifies this`currentEpoch, this`currentOperation, this`currentLease, this`inactivityTimer, this`lastActivityAt, this`cachedEntry, this`zeroed, this`sessionVaultKey, this`sessionKeyRole, this`history, this`manuallyLocked
      ensures Abs() == Locked(old(Abs()))
    {
      InvalidateVaultSessionOperation();
      InvalidateVaultSessionLease();
      ClearVaultAutoLockTimer();
      lastActivityAt := 0;
      ClearCachedEntry();
      LockVault();
      manuallyLocked := true;
    }

    method BeginVaultSessionUnlock(ownerId: OwnerId) returns (outcome: Outcome)
      modifies this
      ensures Step(Abs(), outcome) == Next(old(Abs()), Begin(ownerId))
    {
      if !ValidOwnerId(ownerId) {
        return Failed;
      }
      var ownerChanged := currentOwnerId.Some? && currentOwnerId.value != ownerId;
      var mode := GetVaultSessionMode();
      var hasUnownedSensitiveState :=
        currentOwnerId.None? && (sessionVaultKey.Some? || cachedEntry.Some? || mode == Emergency);
      if ownerChanged || hasUnownedSensitiveState {
        LockVaultSession();
        ClearEmergencyModePinInternal();
      }
      var t := IssueVaultSessionOperation(ownerId);
      return Issued(t);
    }

    method ClearVaultSessionOwner()
      modifies this
      ensures Abs() == OwnerCleared(old(Abs()))
    {
      LockVaultSession();
      ClearEmergencyModePinInternal();
      ClearVaultSessionOperationOwner();
    }

    method ResetVaultSessionLockState()
      modifies this`manuallyLocked, this`inactivityTimer, this`lastActivityAt
      ensures Abs() == LockStateReset(old(Abs()))
    {
      manuallyLocked := false;
      ClearVaultAutoLockTimer();
      lastActivityAt := 0;
    }

    method InstallKey(key: VaultKey, role: Role, ghost provenance: Provenance)
      modifies this`manuallyLocked, this`sessionKeyRole, this`emergencyModePinned, this`sessionMode, this`sessionVaultKey, this`history
      ensures Abs() == WithKey(old(Abs()), key, role, provenance)
    {
      manuallyLocked := false;
      SetSessionKeyRole(role, provenance);
      sessionVaultKey := Some(key);
      history := history.(keyOf := provenance);
    }

    /** unlockVaultSession from its second guard on. */
    method CommitUnlock(key: VaultKey, role: Role, guard: Option<Operation>) returns (outcome: Outcome)
      modifies this`manuallyLocked, this`sessionKeyRole, this`emergencyModePinned, this`sessionMode, this`sessionVaultKey, this`history, this`currentLease, this`leaseMetadata, this`nextIdentity, this`inactivityTimer, this`lastActivityAt
      ensures Step(Abs(), outcome) == Resumed(old(Abs()), UnlockCommit(key, role, guard), true)
    {
      var failure := AssertMutationAllowed(guard);
      if failure.Some? {
        return Cancelled(failure.value);
      }
      InstallKey(key, role, GuardOwner(Abs(), guard));
      CommitVaultSessionLease(guard, key, role);
      ScheduleVaultAutoLockInternal();
      return Unlocked(currentLease);
    }

    /** cacheVaultInnerKeyMaterialFromEnvelopeDecrypt from its `await` on. */
    method CommitCache(inner: nat, wrappingKey: nat, guard: Option<Operation>, ok: bool) returns (outcome: Outcome)
      modifies this`cachedEntry, this`zeroed, this`history
      ensures Step(Abs(), outcome) == Resumed(old(Abs()), CacheCommit(inner, wrappingKey, guard), ok)
    {
      if !ok {
        ZeroSensitiveBytes(inner);
        return Failed;
      }
      var failure := AssertMutationAllowed(guard);
      if failure.Some? {
        ZeroSensitiveBytes(inner);
        return Cancelled(failure.value);
      }
      ClearCachedEntry();
      cachedEntry := Some(CacheEntry(inner, wrappingKey));
      history := history.(cacheOf := GuardOwner(Abs(), guard));
      return Completed;
    }

    // -------------------------------------------------------------- the engine

    method Await(c: Continuation) returns (outcome: Outcome)
      modifies this`frames, this`nextIdentity
      ensures Step(Abs(), outcome) == Suspend(old(Abs()), c)
    {
      var ticket := nextIdentity;
      nextIdentity := nextIdentity + 1;
      frames := frames[ticket := c];
      return Suspended(ticket);
    }

    method ResumeFrame(c: Continuation, ok: bool) returns (outcome: Outcome)
      modifies this
      ensures Step(Abs(), outcome) == Resumed(old(Abs()), c, ok)
    {
      if c.CacheCommit? {
        outcome := CommitCache(c.inner, c.wrappingKey, c.guard, ok);
        return;
      }
      if !ok && !c.RewrapFromCache? {
        return Failed;
      }
      if c.UnlockCommit? {
        outcome := CommitUnlock(c.key, c.role, c.guard);
        return;
      }
      var failure := AssertMutationAllowed(c.guard);
      if failure.Some? {
        return Cancelled(failure.value);
      }
      match c {
        case RoutedUnlock(key, role, guard) => outcome := Await(UnlockCommit(key, role, guard));
        case DeletionAuthorized(guard) => outcome := Await(PurgeThenLock(guard));
        case RewrapFromCache(_) =>
          if ok {
            outcome := Completed;
          } else {
            ClearCachedEntry();
            outcome := Failed;
          }
        case PurgeThenLock(_) =>
          LockVaultSession();
          ResetVaultSessionLockState();
          outcome := Completed;
        case ExitAfterRecovery(_) =>
          ClearEmergencyModePinInternal();
          LockVaultSession();
          outcome := Completed;
      }
    }

    method ResumeTicket(ticket: nat, ok: bool) returns (outcome: Outcome)
      modifies this
      ensures Step(Abs(), outcome) == Next(old(Abs()), Resume(ticket, ok))
    {
      if ticket !in frames {
        return Failed;
      }
      var c := frames[ticket];
      frames := frames - {ticket};
      outcome := ResumeFrame(c, ok);
    }

    /** Time passes; a timer that falls due runs its callback. */
    method PassTime(ms: nat)
      modifies this
      ensures Abs() == After(old(Abs()), Elapse(ms))
    {
      if inactivityTimer.Some? && inactivityTimer.value <= clock + ms {
        LockVaultSession();
      }
      clock := clock + ms;
    }

    method StartAsync(e: Event) returns (outcome: Outcome)
      requires e.StartUnlock? || e.StartRoutedUnlock? || e.StartCache? || e.StartRewrap? || e.StartAuthorizedDeletion? || e.StartDeletion? || e.StartExit?
      modifies this
      ensures Step(Abs(), outcome) == Next(old(Abs()), e)
    {
      var failure := AssertMutationAllowed(e.guard);
      if failure.Some? {
        if e.StartCache? {
          ZeroSensitiveBytes(nextIdentity);
          nextIdentity := nextIdentity + 1;
        }
        return Cancelled(failure.value);
      }
      var mode := GetVaultSessionMode();
      match e {
        case StartUnlock(key, role, guard) =>
          outcome := Await(UnlockCommit(key, if role.Some? then role.value else Primary, guard));
        case StartRoutedUnlock(key, active, duress, guard) =>
          var role := if active || mode == Emergency || duress then Decoy else Primary;
          outcome := Await(RoutedUnlock(key, role, guard));
        case StartCache(wrappingKey, guard) => outcome := Await(CacheCommit(nextIdentity, wrappingKey, guard));
        case StartRewrap(guard) =>
          if cachedEntry.None? {
            outcome := Completed;
          } else {
            outcome := Await(RewrapFromCache(guard));
          }
        case StartAuthorizedDeletion(guard) => outcome := Await(DeletionAuthorized(guard));
        case StartDeletion(guard) => outcome := Await(PurgeThenLock(guard));
        case StartExit(otpMissing, guard) =>
          if mode != Emergency {
            outcome := Completed;
          } else if otpMissing {
            outcome := Failed;
          } else {
            outcome := Await(ExitAfterRecovery(guard));
          }
      }
    }

    method MutateGuarded(e: Event) returns (outcome: Outcome)
      requires e.ClearCache? || e.EnterEmergency? || e.ClearPin? || e.Hydrate?
      modifies this
      ensures Step(Abs(), outcome) == Next(old(Abs()), e)
    {
      var failure := AssertMutationAllowed(e.guard);
      if failure.Some? {
        return Cancelled(failure.value);
      }
      if e.ClearCache? {
        ClearCachedEntry();
      } else if e.ClearPin? {
        ClearEmergencyModePinInternal();
      } else if e.EnterEmergency? || e.active {
        EnterEmergencyModeInternal(GuardOwner(Abs(), e.guard));
      }
      return Completed;
    }

    /** Any call or resumption: the code takes the step the state machine takes. */
    method Dispatch(e: Event) returns (outcome: Outcome)
      modifies this
      ensures Step(Abs(), outcome) == Next(old(Abs()), e)
    {
      outcome := Completed;
      match e {
        case Begin(ownerId) => outcome := BeginVaultSessionUnlock(ownerId);
        case Lock => LockVaultSession();
        case ClearOwner => ClearVaultSessionOwner();
        case Resume(ticket, ok) => outcome := ResumeTicket(ticket, ok);
        case Touch(lease) => outcome := TouchVaultSession(lease);
        case ClearTimer => ClearVaultAutoLockTimer();
        case ResetLockState => ResetVaultSessionLockState();
        case Configure(config) => sessionConfig := config;
        case Elapse(ms) => PassTime(ms);
        case ClearCache(_) => outcome := MutateGuarded(e);
        case EnterEmergency(_) => outcome := MutateGuarded(e);
        case ClearPin(_) => outcome := MutateGuarded(e);
        case Hydrate(_, _) => outcome := MutateGuarded(e);
        case _ => outcome := StartAsync(e);
      }
    }
  }

  /** Replaying any event sequence on a new session ends in the state machine's final state. */
  method Replay(now: int, events: seq<Event>) returns (session: VaultSession)
    ensures session.Abs() == Run(Initial(now), events)
  {
    session := new VaultSession(now);
    for i := 0 to |events|
      invariant fresh(session)
      invariant Run(session.Abs(), events[i..]) == Run(Initial(now), events)
    {
      assert events[i..][0] == events[i] && events[i..][1..] == events[i + 1..];
      var _ := session.Dispatch(events[i]);
    }
  }
}
