/**
 The owner-scoped vault session as a state machine: one value for the module-level
 variables of src/session, one event for every call a consumer can make and for every
 resumption of a suspended async function. A run interleaves events in any order.
 */
module SessionSpec {
  import opened Prelude
  import opened AutoLockMinutes

  type OwnerId = Text

  datatype Role = Primary | Decoy
  datatype Mode = Normal | Emergency

  /** Opaque handles. Distinct serials stand for distinct JavaScript objects. */
  datatype VaultKey = VaultKey(handle: nat)
  datatype Operation = Operation(serial: nat)
  datatype OperationMetadata = OperationMetadata(epoch: nat, ownerId: OwnerId)
  datatype Lease = Lease(serial: nat, ownerId: OwnerId, epoch: nat, role: Role, vaultKey: VaultKey)
  datatype CacheEntry = CacheEntry(inner: nat, wrappingKey: nat)

  datatype CancellationReason = MissingOperation | StaleOperation

  /**
   An async function stopped at an `await`, with the locals its remainder still needs.
   RewrapFromCache stands for every caller that re-wraps the cached inner material and
   clears the cache when that fails.
   */
  datatype Continuation =
    | UnlockCommit(key: VaultKey, role: Role, guard: Option<Operation>)
    | RoutedUnlock(key: VaultKey, role: Role, guard: Option<Operation>)
    | CacheCommit(inner: nat, wrappingKey: nat, guard: Option<Operation>)
    | RewrapFromCache(guard: Option<Operation>)
    | DeletionAuthorized(guard: Option<Operation>)
    | PurgeThenLock(guard: Option<Operation>)
    | ExitAfterRecovery(guard: Option<Operation>)

  /** Whose work put a piece of sensitive state in place: history, no program variable. */
  datatype Provenance = Nobody | Unowned | OwnedBy(ownerId: OwnerId)

  /** The variables of vault-session-operation.ts. */
  datatype Tokens = Tokens(
    epoch: nat,
    owner: Option<OwnerId>,
    operation: Option<Operation>,
    operations: map<Operation, OperationMetadata>,
    lease: Option<Lease>,
    leases: set<Lease>,
    ownershipMode: bool)

  /** The variables of memory-session.ts. */
  datatype Memory = Memory(key: Option<VaultKey>, mode: Mode, role: Option<Role>, pinned: bool)

  /** The variables of auto-lock.ts; `timer` is the time the armed timer is due. */
  datatype Timing = Timing(config: Config, timer: Option<int>, manuallyLocked: bool, lastActivityAt: int)

  /** The JavaScript engine: clock, suspended frames by ticket, zero-filled arrays, fresh identities. */
  datatype Engine = Engine(now: int, pending: map<nat, Continuation>, wiped: set<nat>, nextId: nat)

  /** No program variables: where the sensitive state came from, and what the timer was last set to. */
  datatype History = History(keyOf: Provenance, cacheOf: Provenance, pinOf: Provenance, armedFor: int)

  datatype State = State(
    tokens: Tokens,
    memory: Memory,
    cached: Option<CacheEntry>,
    timing: Timing,
    engine: Engine,
    history: History)

  datatype Outcome =
    | Completed
    | Suspended(ticket: nat)
    | Issued(operation: Operation)
    | Unlocked(lease: Option<Lease>)
    | Cancelled(reason: CancellationReason)
    | Failed

  datatype Step = Step(state: State, outcome: Outcome)

  datatype Event =
    | Begin(ownerId: OwnerId)
    | Lock
    | ClearOwner
    | StartUnlock(key: VaultKey, role: Option<Role>, guard: Option<Operation>)
    | StartRoutedUnlock(key: VaultKey, emergencyModeActive: bool, duress: bool, guard: Option<Operation>)
    | StartCache(wrappingKey: nat, guard: Option<Operation>)
    | StartRewrap(guard: Option<Operation>)
    | ClearCache(guard: Option<Operation>)
    | StartAuthorizedDeletion(guard: Option<Operation>)
    | StartDeletion(guard: Option<Operation>)
    | StartExit(otpMissing: bool, guard: Option<Operation>)
    | Resume(ticket: nat, ok: bool)
    | EnterEmergency(guard: Option<Operation>)
    | ClearPin(guard: Option<Operation>)
    | Hydrate(active: bool, guard: Option<Operation>)
    | Touch(lease: Option<Lease>)
    | ClearTimer
    | ResetLockState
    | Configure(config: Config)
    | Elapse(ms: nat)

  // ---------------------------------------------------------------- owners and guards

  /** Code points that `String.prototype.trim` removes. */
  predicate IsTrimmed(u: CodeUnit) {
    || 0x9 <= u <= 0xD || u == 0x20 || u == 0xA0 || u == 0x1680 || 0x2000 <= u <= 0x200A
    || u == 0x2028 || u == 0x2029 || u == 0x202F || u == 0x205F || u == 0x3000 || u == 0xFEFF
  }

  const MAX_OWNER_ID_LENGTH := 2048

  predicate ValidOwnerId(ownerId: OwnerId) {
    0 < |ownerId| <= MAX_OWNER_ID_LENGTH && !IsTrimmed(ownerId[0]) && !IsTrimmed(ownerId[|ownerId| - 1])
  }

  predicate IsOperationCurrent(s: State, t: Operation) {
    && t in s.tokens.operations
    && s.tokens.operation == Some(t)
    && s.tokens.operations[t].epoch == s.tokens.epoch
    && s.tokens.owner == Some(s.tokens.operations[t].ownerId)
  }

  /** `assertVaultSessionMutationAllowed`: the reason it throws, if it does. */
  function GuardFailure(s: State, guard: Option<Operation>): Option<CancellationReason> {
    match guard
    case Some(t) => if IsOperationCurrent(s, t) then None else Some(StaleOperation)
    case None => if s.tokens.ownershipMode then Some(MissingOperation) else None
  }

  predicate IsLeaseCurrent(s: State, l: Lease) {
    l in s.tokens.leases && s.tokens.lease == Some(l) && s.tokens.owner == Some(l.ownerId)
  }

  function LeaseGuardFailure(s: State, lease: Option<Lease>): Option<CancellationReason> {
    match lease
    case Some(l) => if IsLeaseCurrent(s, l) then None else Some(StaleOperation)
    case None => if s.tokens.ownershipMode then Some(MissingOperation) else None
  }

  function SessionMode(s: State): Mode {
    if (s.memory.key.Some? && s.memory.role == Some(Decoy)) || s.memory.pinned then Emergency else s.memory.mode
  }

  function GuardOwner(s: State, guard: Option<Operation>): Provenance {
    if guard.Some? && guard.value in s.tokens.operations then OwnedBy(s.tokens.operations[guard.value].ownerId) else Unowned
  }

  // ---------------------------------------------------------------- effects

  function Wiping(s: State): set<nat> {
    s.engine.wiped + if s.cached.Some? then {s.cached.value.inner} else {}
  }

  function CacheCleared(s: State): State {
    s.(cached := None, engine := s.engine.(wiped := Wiping(s)), history := s.history.(cacheOf := Nobody))
  }

  function Locked(s: State): State {
    s.(
    tokens := s.tokens.(epoch := s.tokens.epoch + 1, operation := None, lease := None),
    memory := s.memory.(key := None, role := None),
    cached := None,
    timing := s.timing.(timer := None, manuallyLocked := true, lastActivityAt := 0),
    engine := s.engine.(wiped := Wiping(s)),
    history := s.history.(keyOf := Nobody, cacheOf := Nobody))
  }

  function PinCleared(s: State): State {
    s.(memory := s.memory.(pinned := false, mode := Normal), history := s.history.(pinOf := Nobody))
  }

  function PinSet(s: State, provenance: Provenance): State {
    s.(memory := s.memory.(pinned := true, mode := Emergency), history := s.history.(pinOf := provenance))
  }

  function Scheduled(s: State): State {
    var timeout := TimeoutMs(s.timing.config);
    s.(
    timing := s.timing.(timer := Some(s.engine.now + timeout), lastActivityAt := s.engine.now),
    history := s.history.(armedFor := timeout))
  }

  /** A token makes the key a leased one. */
  function Leased(s: State, key: VaultKey, role: Role, guard: Option<Operation>): State
    requires guard.Some? ==> guard.value in s.tokens.operations
  {
    match guard
    case None => s.(tokens := s.tokens.(lease := None))
    case Some(t) =>
      var meta := s.tokens.operations[t];
      var lease := Lease(s.engine.nextId, meta.ownerId, meta.epoch, role, key);
      s.(
      tokens := s.tokens.(lease := Some(lease), leases := s.tokens.leases + {lease}),
      engine := s.engine.(nextId := s.engine.nextId + 1))
  }

  /** A decoy key pins emergency mode. */
  function WithKey(s: State, key: VaultKey, role: Role, provenance: Provenance): State {
    var routed := if role == Decoy then PinSet(s, provenance) else s;
    routed.(
    memory := routed.memory.(key := Some(key), role := Some(role)),
    timing := routed.timing.(manuallyLocked := false),
    history := routed.history.(keyOf := provenance))
  }

  function Installed(s: State, key: VaultKey, role: Role, guard: Option<Operation>): State
    requires guard.Some? ==> guard.value in s.tokens.operations
  {
    Scheduled(Leased(WithKey(s, key, role, GuardOwner(s, guard)), key, role, guard))
  }

  function CacheFilled(s: State, entry: CacheEntry, guard: Option<Operation>): State {
    s.(cached := Some(entry), history := s.history.(cacheOf := GuardOwner(s, guard)))
  }

  function Wiped(s: State, inner: nat): State {
    s.(engine := s.engine.(wiped := s.engine.wiped + {inner}))
  }

  function Fresh(s: State): State {
    s.(engine := s.engine.(nextId := s.engine.nextId + 1))
  }

  function Suspend(s: State, c: Continuation): Step {
    var id := s.engine.nextId;
    Step(s.(engine := s.engine.(pending := s.engine.pending[id := c], nextId := id + 1)), Suspended(id))
  }

  function Dropped(s: State, ticket: nat): State {
    s.(engine := s.engine.(pending := s.engine.pending - {ticket}))
  }

  /** `step` when the guard holds, and otherwise a cancellation that changes nothing. */
  function Guarded(s: State, guard: Option<Operation>, step: Step): Step {
    var failure := GuardFailure(s, guard);
    if failure.Some? then Step(s, Cancelled(failure.value)) else step
  }

  predicate HasUnownedSensitiveState(s: State) {
    s.tokens.owner.None? && (s.memory.key.Some? || s.cached.Some? || SessionMode(s) == Emergency)
  }

  predicate ChangesOwner(s: State, ownerId: OwnerId) {
    s.tokens.owner.Some? && s.tokens.owner.value != ownerId
  }

  function Purged(s: State, ownerId: OwnerId): State {
    if ChangesOwner(s, ownerId) || HasUnownedSensitiveState(s) then PinCleared(Locked(s)) else s
  }

  /** A fresh token, under a fresh epoch, becomes the one in force. */
  function WithOperation(s: State, ownerId: OwnerId): State {
    var t := Operation(s.engine.nextId);
    var epoch := s.tokens.epoch + 1;
    Fresh(s).(tokens := s.tokens.(
              ownershipMode := true,
              epoch := epoch,
              owner := Some(ownerId),
              operation := Some(t),
              operations := s.tokens.operations[t := OperationMetadata(epoch, ownerId)]))
  }

  function Begun(s: State, ownerId: OwnerId): Step {
    if !ValidOwnerId(ownerId) then Step(s, Failed)
    else
      var p := Purged(s, ownerId);
      Step(WithOperation(p, ownerId), Issued(Operation(p.engine.nextId)))
  }

  function OwnerCleared(s: State): State {
    var p := PinCleared(Locked(s));
    p.(tokens := p.tokens.(epoch := p.tokens.epoch + 1, operation := None, owner := None))
  }

  function LockStateReset(s: State): State {
    s.(timing := s.timing.(manuallyLocked := false, timer := None, lastActivityAt := 0))
  }

  function RoutedRole(s: State, emergencyModeActive: bool, duress: bool): Role {
    if emergencyModeActive || SessionMode(s) == Emergency || duress then Decoy else Primary
  }

  /** The rest of a suspended function, from its `await` to its next one or to its end. */
  function Resumed(s: State, c: Continuation, ok: bool): Step {
    match c
    case UnlockCommit(key, role, guard) =>
      if !ok then Step(s, Failed)
      else
        var failure := GuardFailure(s, guard);
        if failure.Some? then Step(s, Cancelled(failure.value))
        else
          var s' := Installed(s, key, role, guard);
          Step(s', Unlocked(s'.tokens.lease))
    case RoutedUnlock(key, role, guard) =>
      if !ok then Step(s, Failed) else Guarded(s, guard, Suspend(s, UnlockCommit(key, role, guard)))
    case CacheCommit(inner, wrappingKey, guard) =>
      if !ok then Step(Wiped(s, inner), Failed)
      else
        var failure := GuardFailure(s, guard);
        if failure.Some? then Step(Wiped(s, inner), Cancelled(failure.value))
        else Step(CacheFilled(CacheCleared(s), CacheEntry(inner, wrappingKey), guard), Completed)
    case RewrapFromCache(guard) =>
      Guarded(s, guard, if ok then Step(s, Completed) else Step(CacheCleared(s), Failed))
    case DeletionAuthorized(guard) =>
      if !ok then Step(s, Failed) else Guarded(s, guard, Suspend(s, PurgeThenLock(guard)))
    case PurgeThenLock(guard) =>
      if !ok then Step(s, Failed) else Guarded(s, guard, Step(LockStateReset(Locked(s)), Completed))
    case ExitAfterRecovery(guard) =>
      if !ok then Step(s, Failed) else Guarded(s, guard, Step(Locked(PinCleared(s)), Completed))
  }

  function Next(s: State, e: Event): Step {
    match e
    case Begin(ownerId) => Begun(s, ownerId)
    case Lock => Step(Locked(s), Completed)
    case ClearOwner => Step(OwnerCleared(s), Completed)
    case StartUnlock(key, role, guard) =>
      Guarded(s, guard, Suspend(s, UnlockCommit(key, if role.Some? then role.value else Primary, guard)))
    case StartRoutedUnlock(key, active, duress, guard) =>
      Guarded(s, guard, Suspend(s, RoutedUnlock(key, RoutedRole(s, active, duress), guard)))
    case StartCache(wrappingKey, guard) =>
      // the decrypted buffer exists before the guard is tested, and is wiped when it fails
      var failure := GuardFailure(s, guard);
      if failure.Some? then Step(Fresh(Wiped(s, s.engine.nextId)), Cancelled(failure.value))
      else Suspend(s, CacheCommit(s.engine.nextId, wrappingKey, guard))
    case StartRewrap(guard) =>
      Guarded(s, guard, if s.cached.None? then Step(s, Completed) else Suspend(s, RewrapFromCache(guard)))
    case ClearCache(guard) => Guarded(s, guard, Step(CacheCleared(s), Completed))
    case StartAuthorizedDeletion(guard) => Guarded(s, guard, Suspend(s, DeletionAuthorized(guard)))
    case StartDeletion(guard) => Guarded(s, guard, Suspend(s, PurgeThenLock(guard)))
    case StartExit(otpMissing, guard) =>
      Guarded(s, guard,
        if SessionMode(s) != Emergency then Step(s, Completed)
        else if otpMissing then Step(s, Failed)
        else Suspend(s, ExitAfterRecovery(guard)))
    case Resume(ticket, ok) =>
      if ticket !in s.engine.pending then Step(s, Failed)
      else Resumed(Dropped(s, ticket), s.engine.pending[ticket], ok)
    case EnterEmergency(guard) => Guarded(s, guard, Step(PinSet(s, GuardOwner(s, guard)), Completed))
    case ClearPin(guard) => Guarded(s, guard, Step(PinCleared(s), Completed))
    case Hydrate(active, guard) =>
      Guarded(s, guard, Step(if active then PinSet(s, GuardOwner(s, guard)) else s, Completed))
    case Touch(lease) =>
      if s.memory.key.None? || s.timing.manuallyLocked then Step(s, Completed)
      else
        var failure := LeaseGuardFailure(s, lease);
        if failure.Some? then Step(s, Cancelled(failure.value)) else Step(Scheduled(s), Completed)
    case ClearTimer => Step(s.(timing := s.timing.(timer := None)), Completed)
    case ResetLockState => Step(LockStateReset(s), Completed)
    case Configure(config) => Step(s.(timing := s.timing.(config := config)), Completed)
    case Elapse(ms) =>
      var later := s.engine.now + ms;
      var s' := if s.timing.timer.Some? && s.timing.timer.value <= later then Locked(s) else s;
      Step(s'.(engine := s'.engine.(now := later)), Completed)
  }

  function After(s: State, e: Event): State {
    Next(s, e).state
  }

  function Run(s: State, events: seq<Event>): State
    decreases |events|
  {
    if events == [] then s else Run(After(s, events[0]), events[1..])
  }

  /** Module load: nothing installed, nothing suspended, a clock that has started. */
  function Initial(now: int): State {
    State(
      Tokens(0, None, None, map[], None, {}, false),
      Memory(None, Normal, None, false),
      None,
      Timing(Config(None, None), None, false, 0),
      Engine(now, map[], {}, 0),
      History(Nobody, Nobody, Nobody, 0))
  }

  /** `getVaultAutoLockRemainingMs` */
  function RemainingMs(s: State): Option<int> {
    if s.memory.key.None? || s.timing.manuallyLocked || s.timing.lastActivityAt == 0 then None
    else
      var left := TimeoutMs(s.timing.config) - (s.engine.now - s.timing.lastActivityAt);
      Some(if left < 0 then 0 else left)
  }

  ghost predicate Reachable(s: State) {
    exists now: int, events: seq<Event> :: 0 < now && s == Run(Initial(now), events)
  }
}
