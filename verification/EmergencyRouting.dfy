/**
 Which vault a password, a passkey and a decryption get in an emergency
 (src/emergency/unlock-routing.ts, src/emergency/browser-emergency.ts, src/emergency/decrypt-for-session.ts).
 */
module EmergencyRouting {
  import opened Prelude
  import opened Unicode
  import opened VaultAad
  import opened AesGcm
  import opened VaultKeyEnvelope
  import opened KeyDerivation
  import opened Envelopes
  import opened DuressSequence
  import S = SessionSpec
  import T = SessionTheorems

  datatype DecoyRecord = DecoyRecord(encryptedBlob: Payload, passwordEnvelope: Envelope, passkeyEnvelope: Option<Envelope>)

  datatype Record = Record(encryptedBlob: Payload, passwordEnvelope: Envelope, passkeyEnvelope: Option<Envelope>, decoy: Option<DecoyRecord>) {
    predicate Valid() {
      && passwordEnvelope.PasswordEnvelope? && (passkeyEnvelope.Some? ==> passkeyEnvelope.value.PasskeyEnvelope?)
      && (decoy.Some? ==>
          decoy.value.passwordEnvelope.PasswordEnvelope? && (decoy.value.passkeyEnvelope.Some? ==> decoy.value.passkeyEnvelope.value.PasskeyEnvelope?))
    }
  }

  datatype Refusal = NoDecoy | NoDecoyBlob | PrimaryRefused | NoPasskey | NotUnlocked(failure: Failure) | WrongAad | NotDecrypted(error: DecryptError)

  method ResolveVaultUnlockTarget(password: Option<Text>, duressSequence: Option<Text>, duressSignaled: bool, emergencyModeActive: bool)
    returns (target: S.Role)
    ensures target == ResolveTarget(password, duressSequence, duressSignaled, emergencyModeActive)
  {
    if emergencyModeActive {
      return S.Decoy;
    }
    if duressSignaled {
      return S.Decoy;
    }
    if password.Some? && duressSequence.Some? && duressSequence.value != [] {
      var contained, _ := ContainsDuressSequence(password.value, duressSequence.value);
      if contained {
        return S.Decoy;
      }
    }
    return S.Primary;
  }

  function ResolveTarget(password: Option<Text>, duressSequence: Option<Text>, duressSignaled: bool, emergencyModeActive: bool): S.Role {
    if emergencyModeActive || duressSignaled then S.Decoy
    else if password.Some? && duressSequence.Some? && IsDuress(password.value, duressSequence.value) then S.Decoy
    else S.Primary
  }

  function SelectPasswordEnvelope(r: Record, target: S.Role): Result<Envelope, Refusal> {
    if target == S.Primary then Ok(r.passwordEnvelope)
    else if r.decoy.None? then Err(NoDecoy)
    else Ok(r.decoy.value.passwordEnvelope)
  }

  /** A decoy without a passkey envelope of its own falls back to the primary one. */
  function SelectPasskeyEnvelope(r: Record, target: S.Role): Result<Envelope, Refusal> {
    if target == S.Decoy && r.decoy.None? then Err(NoDecoy)
    else
      var e := if target == S.Decoy && r.decoy.value.passkeyEnvelope.Some? then r.decoy.value.passkeyEnvelope else r.passkeyEnvelope;
      if e.None? then Err(NoPasskey) else Ok(e.value)
  }

  function ResolveSessionBlob(mode: S.Mode, primary: Payload, decoy: Option<Payload>): Result<Payload, Refusal> {
    if mode == S.Normal then Ok(primary)
    else if decoy.None? then Err(NoDecoyBlob)
    else Ok(decoy.value)
  }

  /** Version and algorithm are the same constants in every payload. */
  predicate SameBlob(a: Payload, b: Payload) {
    a.ciphertext == b.ciphertext && a.iv == b.iv
  }

  function DecryptRefusal(mode: S.Mode, target: Payload, primary: Payload): Option<Refusal> {
    if mode == S.Emergency && SameBlob(target, primary) then Some(PrimaryRefused) else None
  }

  predicate IsPayloadAad(o: Owner, a: Aad) {
    a == Aad(o.scope.userId, o.scope.resourceId, VaultPayloadField, Given(o.profile.aadContextVault))
  }

  /** decryptVaultPayloadForSession, up to the plaintext that is then parsed. */
  function DecryptForSession(o: Owner, r: Record, mode: S.Mode, vaultKey: Key): Result<Text, Refusal> {
    var blob := ResolveSessionBlob(mode, r.encryptedBlob, if r.decoy.Some? then Some(r.decoy.value.encryptedBlob) else None);
    if blob.Err? then Err(blob.error)
    else if DecryptRefusal(mode, blob.value, r.encryptedBlob).Some? then Err(PrimaryRefused)
    else if !IsPayloadAad(o, blob.value.aad) then Err(WrongAad)
    else
      var text := Decrypted(blob.value, vaultKey);
      if text.Err? then Err(NotDecrypted(text.error)) else Ok(text.value)
  }

  /** With the default mode, the session's own. */
  function DecryptInSession(o: Owner, r: Record, s: S.State, vaultKey: Key): Result<Text, Refusal> {
    DecryptForSession(o, r, S.SessionMode(s), vaultKey)
  }

  predicate IsTypedDuress(password: Text, duressSequence: Option<Text>) {
    duressSequence.Some? && IsDuress(password, duressSequence.value)
  }

  /** A routed password unlock begun in `s`: the key, and the role it is to be installed in. */
  function RoutedPassword(o: Owner, r: Record, s: S.State, password: Text, duressSequence: Option<Text>, active: bool): Result<(Bytes, S.Role), Refusal>
    requires r.Valid()
  {
    var target := ResolveTarget(Some(password), duressSequence, false, active || S.SessionMode(s) == S.Emergency);
    var e := SelectPasswordEnvelope(r, target);
    if e.Err? then Err(e.error)
    else
      var unlocked := UnlockWithPassword(o, password, e.value);
      if unlocked.Err? then Err(NotUnlocked(unlocked.error)) else Ok((unlocked.value.vaultKey, target))
  }

  function RoutedPasskey(o: Owner, r: Record, s: S.State, prf: Bytes, duressSignaled: bool, active: bool): Result<(Bytes, S.Role), Refusal>
    requires r.Valid()
  {
    var target := ResolveTarget(None, None, duressSignaled, active || S.SessionMode(s) == S.Emergency);
    var e := SelectPasskeyEnvelope(r, target);
    if e.Err? then Err(e.error)
    else
      var unlocked := UnlockWithPasskey(o, prf, e.value);
      if unlocked.Err? then Err(NotUnlocked(unlocked.error)) else Ok((unlocked.value.vaultKey, target))
  }

  // ---------------------------------------------------------------- what a routed unlock installs

  /** The session event of a routed unlock chooses the same target. */
  lemma TargetIsRoutedRole(s: S.State, password: Option<Text>, duressSequence: Option<Text>, signaled: bool, active: bool)
    ensures ResolveTarget(password, duressSequence, signaled, active || S.SessionMode(s) == S.Emergency) ==
            S.RoutedRole(s, active, signaled || (password.Some? && IsTypedDuress(password.value, duressSequence)))
  {
  }

  /** The unlock goes through, however it is interleaved with other events. */
  ghost predicate Succeeds(s: S.State, call: T.RoutedCall) {
    && S.Reachable(s)
    && s.engine.nextId in call.Opened(s).engine.pending && T.Passes(s, call.guard) && T.Passes(call.Opened(s), call.guard)
    && call.Commit(s).outcome.Unlocked?
  }

  /** A routed password unlock opens exactly the envelope of the vault it was routed to, if there is one. */
  lemma RoutedPasswordExactlyWhen(o: Owner, r: Record, s: S.State, password: Text, duressSequence: Option<Text>, active: bool, vaultKey: Bytes, role: S.Role)
    requires r.Valid()
    ensures RoutedPassword(o, r, s, password, duressSequence, active) == Ok((vaultKey, role)) <==>
            if active || S.SessionMode(s) == S.Emergency || IsTypedDuress(password, duressSequence)
            then role == S.Decoy && r.decoy.Some? && Opens(o, Slot(Password(password), r.decoy.value.passwordEnvelope), vaultKey)
            else role == S.Primary && Opens(o, Slot(Password(password), r.passwordEnvelope), vaultKey)
  {
  }

  /** For a passkey, a decoy that has no passkey envelope of its own has the primary one's. */
  lemma RoutedPasskeyExactlyWhen(o: Owner, r: Record, s: S.State, prf: Bytes, signaled: bool, active: bool, vaultKey: Bytes, role: S.Role)
    requires r.Valid()
    ensures RoutedPasskey(o, r, s, prf, signaled, active) == Ok((vaultKey, role)) <==>
            if active || S.SessionMode(s) == S.Emergency || signaled
            then
              && role == S.Decoy && r.decoy.Some?
              && (if r.decoy.value.passkeyEnvelope.Some? then Opens(o, Slot(Prf(prf), r.decoy.value.passkeyEnvelope.value), vaultKey)
                  else r.passkeyEnvelope.Some? && Opens(o, Slot(Prf(prf), r.passkeyEnvelope.value), vaultKey))
            else role == S.Primary && r.passkeyEnvelope.Some? && Opens(o, Slot(Prf(prf), r.passkeyEnvelope.value), vaultKey)
  {
  }

  /**
   `raw` gives the bytes behind each key handle. Whatever happens while it runs, a password unlock
   that goes through installs the decoy's key in the decoy role, in emergency mode, exactly when the
   flag, the session's mode or the typed sequence asked for it at its start, and the primary key in
   the primary role otherwise.
   */
  lemma PasswordInstallsItsVault(o: Owner, r: Record, s: S.State, raw: S.VaultKey -> Bytes, password: Text, duressSequence: Option<Text>, call: T.RoutedCall)
    requires r.Valid() && Succeeds(s, call) && call.duress == IsTypedDuress(password, duressSequence)
    requires RoutedPassword(o, r, s, password, duressSequence, call.active).Ok?
    requires raw(call.key) == RoutedPassword(o, r, s, password, duressSequence, call.active).value.0
    ensures var after := call.Commit(s).state;
            && after.memory.key == Some(call.key) && after.memory.role.Some?
            && (after.memory.role.value == S.Decoy <==> call.active || S.SessionMode(s) == S.Emergency || IsTypedDuress(password, duressSequence))
            && (after.memory.role.value == S.Decoy ==>
                && after.memory.pinned && S.SessionMode(after) == S.Emergency
                && r.decoy.Some? && Opens(o, Slot(Password(password), r.decoy.value.passwordEnvelope), raw(call.key)))
            && (after.memory.role.value == S.Primary ==> Opens(o, Slot(Password(password), r.passwordEnvelope), raw(call.key)))
  {
    T.RoutedUnlockInstallsChosenRole(s, call);
    TargetIsRoutedRole(s, Some(password), duressSequence, false, call.active);
    var unlocked := RoutedPassword(o, r, s, password, duressSequence, call.active).value;
    RoutedPasswordExactlyWhen(o, r, s, password, duressSequence, call.active, unlocked.0, unlocked.1);
  }

  /**
   A passkey unlock that goes through in an emergency installs a key in the decoy role. It is the
   decoy's key if the decoy has a passkey envelope of its own, and otherwise the primary one.
   */
  lemma PasskeyInstallsItsVault(o: Owner, r: Record, s: S.State, raw: S.VaultKey -> Bytes, prf: Bytes, call: T.RoutedCall)
    requires r.Valid() && Succeeds(s, call)
    requires RoutedPasskey(o, r, s, prf, call.duress, call.active).Ok?
    requires raw(call.key) == RoutedPasskey(o, r, s, prf, call.duress, call.active).value.0
    ensures var after := call.Commit(s).state;
            && after.memory.key == Some(call.key) && after.memory.role.Some?
            && (after.memory.role.value == S.Decoy <==> call.active || S.SessionMode(s) == S.Emergency || call.duress)
            && (after.memory.role.value == S.Decoy ==> after.memory.pinned && S.SessionMode(after) == S.Emergency && r.decoy.Some?)
            && (if after.memory.role.value == S.Decoy && r.decoy.value.passkeyEnvelope.Some?
                then Opens(o, Slot(Prf(prf), r.decoy.value.passkeyEnvelope.value), raw(call.key))
                else r.passkeyEnvelope.Some? && Opens(o, Slot(Prf(prf), r.passkeyEnvelope.value), raw(call.key)))
  {
    T.RoutedUnlockInstallsChosenRole(s, call);
    TargetIsRoutedRole(s, None, None, call.duress, call.active);
    var unlocked := RoutedPasskey(o, r, s, prf, call.duress, call.active).value;
    RoutedPasskeyExactlyWhen(o, r, s, prf, call.duress, call.active, unlocked.0, unlocked.1);
  }

  // ---------------------------------------------------------------- what a normal session shows

  /** In every reachable state in normal mode exactly the primary blob is shown, and another decoy, or none, changes nothing. */
  lemma NormalShowsExactlyThePrimary(o: Owner, r: Record, other: Record, s: S.State, vaultKey: Key)
    requires S.Reachable(s) && S.SessionMode(s) == S.Normal
    ensures ShowsExactlyThePrimary(o, r, s, vaultKey)
    ensures r.encryptedBlob == other.encryptedBlob ==> DecryptInSession(o, r, s, vaultKey) == DecryptInSession(o, other, s, vaultKey)
  {
  }

  /**
   A password unlock that nothing asked to divert, and that no emergency overtook, ends in normal mode
   and shows exactly the primary blob.
   */
  lemma PrimaryUnlockShowsThePrimary(o: Owner, r: Record, s: S.State, password: Text, duressSequence: Option<Text>, call: T.RoutedCall, vaultKey: Key)
    requires Succeeds(s, call) && call.duress == IsTypedDuress(password, duressSequence)
    requires !call.active && S.SessionMode(s) == S.Normal && !IsTypedDuress(password, duressSequence) && !call.Checked(s).memory.pinned
    ensures S.SessionMode(call.Commit(s).state) == S.Normal && call.Commit(s).state.memory.role == Some(S.Primary)
    ensures ShowsExactlyThePrimary(o, r, call.Commit(s).state, vaultKey)
  {
    T.RoutedUnlockInstallsChosenRole(s, call);
    T.CommitReachable(s, call);
    NormalShowsExactlyThePrimary(o, r, r, call.Commit(s).state, vaultKey);
  }

  /** encryptVaultPayload, of the serialised payload. */
  function EncryptPayload(o: Owner, text: Text, vaultKey: Key, iv: Bytes): Payload {
    EncryptField(text, vaultKey, Scope(o.scope.userId, o.scope.resourceId, VaultPayloadField, None), o.profile, iv, LEGACY_ORDER)
  }

  lemma StoredPayloadComesBack(o: Owner, text: Text, vaultKey: Key, iv: Bytes, order: seq<Property>)
    requires order == LEGACY_ORDER && |iv| == MAX_IV_BYTES
    ensures var p := EncryptField(text, vaultKey, Scope(o.scope.userId, o.scope.resourceId, VaultPayloadField, None), o.profile, iv, order);
            && p.aad == Aad(o.scope.userId, o.scope.resourceId, VaultPayloadField, Given(o.profile.aadContextVault))
            && (Decrypted(p, vaultKey) == Ok(text) <==> |StringToBytes(text)| <= 64 * 1024 && WellFormed(text) && !HasBom(text))
  {
    LibraryOrdersAreOrders(order);
    RoundTripExactlyWhen(text, vaultKey, Scope(o.scope.userId, o.scope.resourceId, VaultPayloadField, None), o.profile, iv, order);
  }

  /**
   What was stored is shown again, in each mode its own blob, exactly for the texts that fit in 64 KiB
   of UTF-8, have no lone surrogate and do not begin with a byte order mark.
   */
  lemma StoredPayloadIsShownExactlyWhen(o: Owner, r: Record, s: S.State, text: Text, vaultKey: Key, iv: Bytes)
    requires S.Reachable(s) && |iv| == MAX_IV_BYTES
    ensures S.SessionMode(s) == S.Normal && r.encryptedBlob == EncryptPayload(o, text, vaultKey, iv) ==>
              (DecryptInSession(o, r, s, vaultKey) == Ok(text) <==> |StringToBytes(text)| <= 64 * 1024 && WellFormed(text) && !HasBom(text))
    ensures S.SessionMode(s) == S.Emergency && r.decoy.Some? && r.decoy.value.encryptedBlob == EncryptPayload(o, text, vaultKey, iv) && r.encryptedBlob.iv != iv ==>
              (DecryptInSession(o, r, s, vaultKey) == Ok(text) <==> |StringToBytes(text)| <= 64 * 1024 && WellFormed(text) && !HasBom(text))
  {
    StoredPayloadComesBack(o, text, vaultKey, iv, LEGACY_ORDER);
    if S.SessionMode(s) == S.Normal {
      NormalShowsExactlyThePrimary(o, r, r, s, vaultKey);
    } else {
      InEmergency(o, r, s, vaultKey);
    }
  }

  // ---------------------------------------------------------------- what an emergency shows

  /** The decoy's own blob, and nothing else, under this key. */
  ghost predicate ShowsExactlyTheDecoy(o: Owner, r: Record, s: S.State, vaultKey: Key) {
    forall text: Text :: DecryptInSession(o, r, s, vaultKey) == Ok(text) <==>
                         && r.decoy.Some?
                         && (r.decoy.value.encryptedBlob.ciphertext != r.encryptedBlob.ciphertext || r.decoy.value.encryptedBlob.iv != r.encryptedBlob.iv)
                         && r.decoy.value.encryptedBlob.aad == Aad(o.scope.userId, o.scope.resourceId, VaultPayloadField, Given(o.profile.aadContextVault))
                         && Decrypted(r.decoy.value.encryptedBlob, vaultKey) == Ok(text)
  }

  /** The primary blob, and nothing else, under this key. */
  ghost predicate ShowsExactlyThePrimary(o: Owner, r: Record, s: S.State, vaultKey: Key) {
    forall text: Text :: DecryptInSession(o, r, s, vaultKey) == Ok(text) <==>
                         && r.encryptedBlob.aad == Aad(o.scope.userId, o.scope.resourceId, VaultPayloadField, Given(o.profile.aadContextVault))
                         && Decrypted(r.encryptedBlob, vaultKey) == Ok(text)
  }

  lemma InEmergency(o: Owner, r: Record, s: S.State, vaultKey: Key)
    requires S.SessionMode(s) == S.Emergency
    ensures ShowsExactlyTheDecoy(o, r, s, vaultKey)
  {
  }

  /** In an emergency a missing decoy blob and one that is the primary blob are refused as such, whatever the key. */
  lemma EmergencyRefusals(o: Owner, r: Record, s: S.State, vaultKey: Key)
    requires S.Reachable(s) && S.SessionMode(s) == S.Emergency
    ensures DecryptInSession(o, r, s, vaultKey) == Err(NoDecoyBlob) <==> r.decoy.None?
    ensures DecryptInSession(o, r, s, vaultKey) == Err(PrimaryRefused) <==>
            r.decoy.Some? && r.decoy.value.encryptedBlob.ciphertext == r.encryptedBlob.ciphertext && r.decoy.value.encryptedBlob.iv == r.encryptedBlob.iv
  {
  }

  /**
   Once emergency mode is pinned, then after any run that does not end it, locks and unlocks of
   either vault included, the session decrypts a text with any key exactly when the decoy's blob is
   there, is not the primary one, and holds that text under that key.
   */
  lemma PinnedRunShowsOnlyTheDecoy(o: Owner, r: Record, s: S.State, events: seq<S.Event>, vaultKey: Key)
    requires S.Reachable(s) && s.memory.pinned && T.PinNeverEnded(s, events)
    ensures ShowsExactlyTheDecoy(o, r, S.Run(s, events), vaultKey)
  {
    T.EmergencySurvives(s, events);
    InEmergency(o, r, S.Run(s, events), vaultKey);
  }

  /** So does a decoy key, in every reachable state, even once the pin is cleared. */
  lemma DecoyKeyShowsOnlyTheDecoy(o: Owner, r: Record, s: S.State, vaultKey: Key)
    requires S.Reachable(s) && s.memory.key.Some? && s.memory.role == Some(S.Decoy)
    ensures ShowsExactlyTheDecoy(o, r, s, vaultKey)
  {
    T.EmergencyMeansPinnedOrDecoy(s);
    InEmergency(o, r, s, vaultKey);
  }

  /**
   A password typed under duress, or in an emergency: from the moment its unlock goes through, in
   every run that does not end the emergency, nothing but the decoy is shown.
   */
  lemma DuressShowsOnlyTheDecoy(o: Owner, r: Record, s: S.State, password: Text, duressSequence: Option<Text>, call: T.RoutedCall, events: seq<S.Event>, vaultKey: Key)
    requires Succeeds(s, call) && call.duress == IsTypedDuress(password, duressSequence)
    requires call.active || S.SessionMode(s) == S.Emergency || IsTypedDuress(password, duressSequence)
    requires T.PinNeverEnded(call.Commit(s).state, events)
    ensures ShowsExactlyTheDecoy(o, r, S.Run(call.Commit(s).state, events), vaultKey)
  {
    T.RoutedUnlockInstallsChosenRole(s, call);
    T.CommitReachable(s, call);
    PinnedRunShowsOnlyTheDecoy(o, r, call.Commit(s).state, events, vaultKey);
  }

  /** What is shown in an emergency tells nothing of the primary vault: any other one gives the same answers. */
  lemma EmergencyIsBlindToThePrimary(o: Owner, r: Record, other: Record, s: S.State, events: seq<S.Event>, vaultKey: Key)
    requires S.Reachable(s) && s.memory.pinned && T.PinNeverEnded(s, events)
    requires r.decoy == other.decoy
    requires r.decoy.Some? ==> !SameBlob(r.decoy.value.encryptedBlob, r.encryptedBlob) && !SameBlob(r.decoy.value.encryptedBlob, other.encryptedBlob)
    ensures DecryptInSession(o, r, S.Run(s, events), vaultKey) == DecryptInSession(o, other, S.Run(s, events), vaultKey)
  {
    T.EmergencySurvives(s, events);
  }

  /**
   The primary key installed in the decoy's role, for want of a decoy passkey envelope, shows nothing
   in any run that does not end the emergency.
   */
  lemma BorrowedPasskeyShowsNothing(o: Owner, r: Record, s: S.State, raw: S.VaultKey -> Bytes, prf: Bytes, call: T.RoutedCall, events: seq<S.Event>, primaryKey: Bytes)
    requires r.Valid() && Succeeds(s, call) && (call.active || S.SessionMode(s) == S.Emergency || call.duress)
    requires RoutedPasskey(o, r, s, prf, call.duress, call.active).Ok?
    requires raw(call.key) == RoutedPasskey(o, r, s, prf, call.duress, call.active).value.0
    requires r.decoy.Some? && r.decoy.value.passkeyEnvelope.None?
    requires r.passkeyEnvelope.Some? && Opens(o, Slot(Prf(prf), r.passkeyEnvelope.value), primaryKey)
    requires r.decoy.value.encryptedBlob.ciphertext.Sealed? && r.decoy.value.encryptedBlob.ciphertext.key != primaryKey
    requires T.PinNeverEnded(call.Commit(s).state, events)
    ensures call.Commit(s).state.memory.role == Some(S.Decoy) && raw(call.key) == primaryKey
    ensures DecryptInSession(o, r, S.Run(call.Commit(s).state, events), raw(call.key)).Err?
  {
    PasskeyInstallsItsVault(o, r, s, raw, prf, call);
    T.CommitReachable(s, call);
    T.EmergencySurvives(call.Commit(s).state, events);
  }
}
