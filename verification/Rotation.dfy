/**
 Re-wrapping the same vault key: password and phrase rotation, KDF upgrades, extra passkeys
 (src/rotation, src/envelopes/passkey-prf-independent-authorization.ts), and what any sequence
 of these leaves behind.
 */
module Rotation {
  import opened Prelude
  import opened Unicode
  import opened Base64Url
  import opened VaultAad
  import opened AesGcm
  import opened VaultKeyEnvelope
  import opened AadRouting
  import opened KeyDerivation
  import opened Envelopes

  /** The random bytes one operation draws. */
  datatype Fresh = Fresh(salt: Bytes, iv: Bytes) {
    predicate Drawn() {
      |salt| == SALT_BYTES && |iv| == MAX_IV_BYTES
    }
  }

  /** `userVaultKeysEqual` against the non-extractable key just unlocked. */
  predicate SessionKeyIs(session: VaultKey, vaultKey: Bytes) {
    UserVaultKeysEqual(session, VaultKey(vaultKey, false))
  }

  /** The envelope's inner blob, taken from the record as stored, wrapped for a new key. */
  function RewrapFor(o: Owner, session: VaultKey, p: Payload, oldKey: Option<Key>, newKey: Key, iv: Bytes): Result<Payload, Failure> {
    if oldKey.None? then Err(InvalidKdfMetadata)
    else RewrapEncryptedVaultKey(o.platform.kw, p, oldKey.value, newKey, session, o.scope, o.profile, iv)
  }

  /** The shared part: what was unlocked must be the session's key, and is wrapped for a new key. */
  function Reissued(o: Owner, session: VaultKey, unlocked: Result<Unwrapped, Failure>, p: Payload, oldKey: Option<Key>, newKey: Key, iv: Bytes): Result<Payload, Failure> {
    if unlocked.Err? then Err(unlocked.error)
    else if !SessionKeyIs(session, unlocked.value.vaultKey) then Err(KeyMismatch)
    else RewrapFor(o, session, p, oldKey, newKey, iv)
  }

  function ReissuedWith(o: Owner, session: VaultKey, current: Text, e: Envelope, newKey: Key, m: KdfMetadata, iv: Bytes): Result<Envelope, Failure>
    requires e.PasswordEnvelope?
  {
    var p := Reissued(o, session, UnlockWithPassword(o, current, e), e.payload, PasswordKey(o.platform, current, e.kdfMetadata), newKey, iv);
    if p.Err? then Err(p.error) else Ok(PasswordEnvelope(p.value, m))
  }

  function ReissuedForPassword(o: Owner, session: VaultKey, current: Text, next: Text, e: Envelope, drawn: Fresh): Result<Envelope, Failure>
    requires e.PasswordEnvelope?
  {
    ReissuedWith(o, session, current, e, DeriveNew(o.platform, PasswordBytes(o.platform, next), drawn.salt), Serialize(drawn.salt), drawn.iv)
  }

  function RotatePassword(o: Owner, session: VaultKey, current: Text, next: Text, e: Envelope, drawn: Fresh): Result<Envelope, Failure>
    requires e.PasswordEnvelope?
  {
    if current == next then Err(PasswordUnchanged) else ReissuedForPassword(o, session, current, next, e, drawn)
  }

  /** None means that nothing needs to be stored. */
  function MaybeUpgradePassword(o: Owner, session: VaultKey, password: Text, e: Envelope, drawn: Fresh): Result<Option<Envelope>, Failure>
    requires e.PasswordEnvelope?
  {
    if !UpgradeRecommended(e.kdfMetadata) then Ok(None)
    else
      var r := ReissuedForPassword(o, session, password, password, e, drawn);
      if r.Err? then Err(r.error) else Ok(Some(r.value))
  }

  function ReissuedPhraseWith(o: Owner, session: VaultKey, phrase: Text, unlocked: Result<Unwrapped, Failure>, e: Envelope, length: nat, newKey: Key, m: KdfMetadata, iv: Bytes): Result<Option<Envelope>, Failure>
    requires e.RecoveryEnvelope?
  {
    var p := Reissued(o, session, unlocked, e.payload, PhraseKey(o.platform, phrase, e.kdfMetadata), newKey, iv);
    if p.Err? then Err(p.error) else Ok(Some(RecoveryEnvelope(p.value, m, Some(length))))
  }

  function UpgradedLength(o: Owner, spelled: Text, e: Envelope, expectedWordCount: Option<nat>): nat
    requires e.RecoveryEnvelope?
  {
    if expectedWordCount.Some? then expectedWordCount.value
    else if e.phraseLength.Some? then e.phraseLength.value
    else o.platform.wordCount(spelled)
  }

  function MaybeUpgradeRecovery(o: Owner, session: VaultKey, phrase: Text, e: Envelope, expectedWordCount: Option<nat>, drawn: Fresh): Result<Option<Envelope>, Failure>
    requires e.RecoveryEnvelope?
  {
    var unlocked := UnlockWithRecovery(o, phrase, e, expectedWordCount);
    if !UpgradeRecommended(e.kdfMetadata) then Ok(None)
    else if unlocked.Err? then Err(unlocked.error)
    else
      var spelled := o.platform.phraseForm(phrase).value;
      ReissuedPhraseWith(
        o, session, phrase, unlocked, e, UpgradedLength(o, spelled, e, expectedWordCount),
        DeriveNew(o.platform, StringToBytes(spelled), drawn.salt), Serialize(drawn.salt), drawn.iv)
  }

  /** assertVaultRotationAuthorized, for a password or a passkey. */
  function AuthorizationFailure(o: Owner, session: VaultKey, auth: Slot): Option<Failure>
    requires Matches(auth) && !auth.secret.Phrase?
  {
    if auth.secret.Prf? && |auth.secret.output| < PRF_BYTES then Some(ShortPrfOutput)
    else
      var unlocked := UnlockSlot(o, auth);
      if unlocked.Err? then Some(unlocked.error)
      else if !SessionKeyIs(session, unlocked.value.vaultKey) then Some(KeyMismatch)
      else None
  }

  /** The authorizing envelope's inner blob, from the record as stored, for the recovery key. */
  function AuthorizedInner(o: Owner, session: VaultKey, auth: Slot, newKey: Key): Result<Bytes, Failure>
    requires Matches(auth)
  {
    var key := SlotKey(o, auth);
    if key.None? then Err(InvalidKdfMetadata)
    else
      var inner := ExtractInner(auth.envelope.payload, key.value);
      if inner.Err? then Err(inner.error) else RewrapInner(o.platform.kw, inner.value, key.value, newKey, session)
  }

  function PhraseFailure(o: Owner, phrase: Text, wordCount: nat, confirmation: Option<Text>): Option<Failure> {
    var spelled := o.platform.phraseForm(phrase);
    if spelled.None? then Some(InvalidPhrase)
    else if o.platform.wordCount(spelled.value) != wordCount then Some(WordCountMismatch)
    else if confirmation.Some? && o.platform.phraseForm(confirmation.value) != spelled then Some(ConfirmationMismatch)
    else None
  }

  /** The canonical phrase to show, and its envelope. The phrase is spelled again by each callee. */
  function RotateRecovery(o: Owner, session: VaultKey, auth: Slot, phrase: Text, wordCount: nat, confirmation: Option<Text>, drawn: Fresh): Result<(Text, Envelope), Failure>
    requires Matches(auth) && !auth.secret.Phrase?
  {
    var unauthorized := AuthorizationFailure(o, session, auth);
    if unauthorized.Some? then Err(unauthorized.value)
    else if PhraseFailure(o, phrase, wordCount, confirmation).Some? then Err(PhraseFailure(o, phrase, wordCount, confirmation).value)
    else
      var normalized := o.platform.phraseForm(phrase).value;
      var spelled := o.platform.phraseForm(normalized);
      if spelled.None? then Err(InvalidPhrase)
      else
        var inner := AuthorizedInner(o, session, auth, DeriveNew(o.platform, StringToBytes(spelled.value), drawn.salt));
        var salt := Base64UrlToBytes(Serialize(drawn.salt).salt);
        if inner.Err? then Err(inner.error)
        else if salt.None? then Err(NotBase64Url)
        else
          var e := CreateRecoveryEnvelope(o, session, normalized, Some(wordCount), salt.value, drawn.iv, Some(inner.value));
          if e.Err? then Err(e.error) else Ok((normalized, e.value))
  }

  /** createPasskeyPrfEnvelopeAfterIndependentAuthorization: the key unlocked and its new envelope. */
  function AddPasskey(o: Owner, auth: Slot, expectedWordCount: Option<nat>, prf: Bytes, iv: Bytes): Result<(Bytes, Envelope), Failure>
    requires Matches(auth) && !auth.secret.Prf?
  {
    var prfKey := PrfKey(prf);
    var input := if auth.secret.Phrase? then PhraseInputFailure(o, auth.secret.text, expectedWordCount) else None;
    var key := SlotKey(o, auth);
    if prfKey.None? then Err(ShortPrfOutput)
    else if auth.envelope.kdfMetadata.kdf != Argon2id then Err(InvalidKdfMetadata)
    else if input.Some? then Err(input.value)
    else if key.None? then Err(InvalidKdfMetadata)
    else
      var unlocked := Unlock(o.platform.kw, auth.envelope.payload, key.value, o.scope, o.profile);
      if unlocked.Err? then Err(unlocked.error)
      else
        var vaultKey := VaultKey(unlocked.value.vaultKey, false);
        var rewrapped := RewrapInner(o.platform.kw, unlocked.value.inner, key.value, prfKey.value, vaultKey);
        if rewrapped.Err? then Err(rewrapped.error)
        else
          var e := CreatePasskeyEnvelope(o, vaultKey, prf[..PRF_BYTES], iv, Some(rewrapped.value));
          if e.Err? then Err(e.error) else Ok((vaultKey.raw, e.value))
  }

  // ---------------------------------------------------------------- one operation

  lemma ReissuedExactlyWhen(o: Owner, session: VaultKey, unlocked: Result<Unwrapped, Failure>, p: Payload, oldKey: Option<Key>, newKey: Key, iv: Bytes)
    requires o.Lawful() && |session.raw| == 32 && |iv| == MAX_IV_BYTES
    ensures var r := Reissued(o, session, unlocked, p, oldKey, newKey, iv);
            && (r.Ok? <==>
                && unlocked.Ok? && unlocked.value.vaultKey == session.raw
                && oldKey.Some? && Holds(o.platform.kw, p, oldKey.value, session.raw))
            && (r.Ok? ==> HoldsCurrent(o.platform.kw, r.value, newKey, session.raw, o.scope, o.profile))
  {
    if oldKey.Some? {
      RewrapsExactlyWhen(o.platform.kw, p, oldKey.value, newKey, session, o.scope, o.profile, iv);
    }
  }

  lemma PasswordSlotIsCurrent(o: Owner, password: Text, e: Envelope, key: Key, vaultKey: Bytes)
    requires e.PasswordEnvelope? && !UpgradeRecommended(e.kdfMetadata) && PasswordKey(o.platform, password, e.kdfMetadata) == Some(key)
    requires HoldsCurrent(o.platform.kw, e.payload, key, vaultKey, o.scope, o.profile)
    ensures Current(o, Slot(Password(password), e), vaultKey)
  {
  }

  lemma PhraseSlotIsCurrent(o: Owner, phrase: Text, e: Envelope, key: Key, vaultKey: Bytes)
    requires e.RecoveryEnvelope? && !UpgradeRecommended(e.kdfMetadata) && PhraseKey(o.platform, phrase, e.kdfMetadata) == Some(key)
    requires HoldsCurrent(o.platform.kw, e.payload, key, vaultKey, o.scope, o.profile)
    ensures Current(o, Slot(Phrase(phrase), e), vaultKey)
  {
  }

  lemma FaithfulPassword(o: Owner, password: Text, e: Envelope, vaultKey: Bytes)
    requires e.PasswordEnvelope?
    ensures var unlocked, key := UnlockWithPassword(o, password, e), PasswordKey(o.platform, password, e.kdfMetadata);
            Faithful(o, Slot(Password(password), e), vaultKey) <==>
            && unlocked.Ok? && unlocked.value.vaultKey == vaultKey
            && key.Some? && Holds(o.platform.kw, e.payload, key.value, vaultKey)
  {
  }

  lemma WordCountOnlyRefuses(o: Owner, phrase: Text, e: Envelope, expectedWordCount: Option<nat>)
    requires e.RecoveryEnvelope?
    ensures UnlockWithRecovery(o, phrase, e, expectedWordCount).Ok? ==> PhraseInputFailure(o, phrase, expectedWordCount).None?
    ensures PhraseInputFailure(o, phrase, expectedWordCount).None? ==>
              UnlockWithRecovery(o, phrase, e, expectedWordCount) == UnlockWithRecovery(o, phrase, e, None)
  {
  }

  lemma FaithfulPhraseAlone(o: Owner, phrase: Text, e: Envelope, unlocked: Result<Unwrapped, Failure>, vaultKey: Bytes)
    requires e.RecoveryEnvelope? && unlocked == UnlockWithRecovery(o, phrase, e, None)
    ensures var key := PhraseKey(o.platform, phrase, e.kdfMetadata);
            Faithful(o, Slot(Phrase(phrase), e), vaultKey) <==>
            && unlocked.Ok? && unlocked.value.vaultKey == vaultKey
            && key.Some? && Holds(o.platform.kw, e.payload, key.value, vaultKey)
  {
  }

  lemma FaithfulPhrase(o: Owner, phrase: Text, e: Envelope, expectedWordCount: Option<nat>, vaultKey: Bytes)
    requires e.RecoveryEnvelope?
    ensures var unlocked, key := UnlockWithRecovery(o, phrase, e, expectedWordCount), PhraseKey(o.platform, phrase, e.kdfMetadata);
            PhraseInputFailure(o, phrase, expectedWordCount).None? && Faithful(o, Slot(Phrase(phrase), e), vaultKey) <==>
            && unlocked.Ok? && unlocked.value.vaultKey == vaultKey
            && key.Some? && Holds(o.platform.kw, e.payload, key.value, vaultKey)
  {
    WordCountOnlyRefuses(o, phrase, e, expectedWordCount);
    FaithfulPhraseAlone(o, phrase, e, UnlockWithRecovery(o, phrase, e, None), vaultKey);
  }

  lemma ReissuedWithExactlyWhen(o: Owner, session: VaultKey, current: Text, next: Text, e: Envelope, newKey: Key, m: KdfMetadata, iv: Bytes)
    requires o.Lawful() && |iv| == MAX_IV_BYTES && |session.raw| == 32 && e.PasswordEnvelope?
    requires !UpgradeRecommended(m) && PasswordKey(o.platform, next, m) == Some(newKey)
    ensures var r := ReissuedWith(o, session, current, e, newKey, m, iv);
            && (r.Ok? <==> Faithful(o, Slot(Password(current), e), session.raw))
            && (r.Ok? ==> r.value.PasswordEnvelope? && Current(o, Slot(Password(next), r.value), session.raw))
  {
    ReissuedExactlyWhen(o, session, UnlockWithPassword(o, current, e), e.payload, PasswordKey(o.platform, current, e.kdfMetadata), newKey, iv);
    FaithfulPassword(o, current, e, session.raw);
    var r := ReissuedWith(o, session, current, e, newKey, m, iv);
    if r.Ok? {
      PasswordSlotIsCurrent(o, next, r.value, newKey, session.raw);
    }
  }

  lemma ReissuedPhraseExactlyWhen(o: Owner, session: VaultKey, phrase: Text, unlocked: Result<Unwrapped, Failure>, e: Envelope, expectedWordCount: Option<nat>, length: nat, newKey: Key, m: KdfMetadata, iv: Bytes)
    requires o.Lawful() && |iv| == MAX_IV_BYTES && |session.raw| == 32 && e.RecoveryEnvelope?
    requires !UpgradeRecommended(m) && PhraseKey(o.platform, phrase, m) == Some(newKey)
    requires unlocked == UnlockWithRecovery(o, phrase, e, expectedWordCount)
    ensures var r := ReissuedPhraseWith(o, session, phrase, unlocked, e, length, newKey, m, iv);
            && (r.Ok? <==> PhraseInputFailure(o, phrase, expectedWordCount).None? && Faithful(o, Slot(Phrase(phrase), e), session.raw))
            && (r.Ok? ==> r.value.Some? && r.value.value.RecoveryEnvelope? && Current(o, Slot(Phrase(phrase), r.value.value), session.raw))
  {
    ReissuedExactlyWhen(o, session, unlocked, e.payload, PhraseKey(o.platform, phrase, e.kdfMetadata), newKey, iv);
    FaithfulPhrase(o, phrase, e, expectedWordCount, session.raw);
    var r := ReissuedPhraseWith(o, session, phrase, unlocked, e, length, newKey, m, iv);
    if r.Ok? {
      PhraseSlotIsCurrent(o, phrase, r.value.value, newKey, session.raw);
    }
  }

  lemma ReissuedForPasswordExactlyWhen(o: Owner, session: VaultKey, current: Text, next: Text, e: Envelope, drawn: Fresh)
    requires o.Lawful() && drawn.Drawn() && |session.raw| == 32 && e.PasswordEnvelope?
    ensures var r := ReissuedForPassword(o, session, current, next, e, drawn);
            && (r.Ok? <==> Faithful(o, Slot(Password(current), e), session.raw))
            && (r.Ok? ==> r.value.PasswordEnvelope? && Current(o, Slot(Password(next), r.value), session.raw))
  {
    var newKey, m := DeriveNew(o.platform, PasswordBytes(o.platform, next), drawn.salt), Serialize(drawn.salt);
    NewPasswordKey(o, next, drawn.salt);
    ReissuedWithExactlyWhen(o, session, current, next, e, newKey, m, drawn.iv);
  }

  /**
   Rotation succeeds exactly when the password changes, the current one opens the envelope to the
   session's key, and the record as stored decrypts. The new envelope then is current and opens to
   the same key with the new password.
   */
  lemma RotatesPasswordExactlyWhen(o: Owner, session: VaultKey, current: Text, next: Text, e: Envelope, drawn: Fresh)
    requires o.Lawful() && drawn.Drawn() && |session.raw| == 32 && e.PasswordEnvelope?
    ensures RotatePassword(o, session, current, next, e, drawn).Ok? <==> current != next && Faithful(o, Slot(Password(current), e), session.raw)
    ensures var r := RotatePassword(o, session, current, next, e, drawn);
            r.Ok? ==> r.value.PasswordEnvelope? && Current(o, Slot(Password(next), r.value), session.raw)
  {
    ReissuedForPasswordExactlyWhen(o, session, current, next, e, drawn);
  }

  /** Why a rotation is refused: the same password, one that does not unlock, or another session's key. */
  lemma RotationRefusedAs(o: Owner, session: VaultKey, current: Text, next: Text, e: Envelope, drawn: Fresh)
    requires e.PasswordEnvelope?
    ensures var r, unlocked := RotatePassword(o, session, current, next, e, drawn), UnlockWithPassword(o, current, e);
            && (current == next ==> r == Err(PasswordUnchanged))
            && (current != next && unlocked.Err? ==> r == Err(unlocked.error))
            && (current != next && unlocked.Ok? && unlocked.value.vaultKey != session.raw ==> r == Err(KeyMismatch))
  {
  }

  lemma UpgradesPasswordExactlyWhen(o: Owner, session: VaultKey, password: Text, e: Envelope, drawn: Fresh)
    requires o.Lawful() && drawn.Drawn() && |session.raw| == 32 && e.PasswordEnvelope?
    ensures var r := MaybeUpgradePassword(o, session, password, e, drawn);
            && (r == Ok(None) <==> !UpgradeRecommended(e.kdfMetadata))
            && (r.Ok? && r.value.Some? <==> UpgradeRecommended(e.kdfMetadata) && Faithful(o, Slot(Password(password), e), session.raw))
            && (r.Ok? && r.value.Some? ==> r.value.value.PasswordEnvelope? && Current(o, Slot(Password(password), r.value.value), session.raw))
  {
    ReissuedForPasswordExactlyWhen(o, session, password, password, e, drawn);
  }

  /** A phrase that opens its envelope is valid, so only its length can still be wrong. */
  lemma PhraseInputGoodExactlyWhen(o: Owner, phrase: Text, e: Envelope, expectedWordCount: Option<nat>, vaultKey: Bytes)
    requires e.RecoveryEnvelope?
    ensures Opens(o, Slot(Phrase(phrase), e), vaultKey) ==>
              && o.platform.phraseForm(phrase).Some?
              && (PhraseInputFailure(o, phrase, expectedWordCount).None? <==>
                  (expectedWordCount.Some? ==> o.platform.wordCount(o.platform.phraseForm(phrase).value) == expectedWordCount.value))
  {
  }

  /** The last, after a phrase that unlocked: what was asked for, or was stored, or is counted. */
  lemma UpgradesRecoveryExactlyWhen(o: Owner, session: VaultKey, phrase: Text, e: Envelope, expectedWordCount: Option<nat>, drawn: Fresh)
    requires o.Lawful() && drawn.Drawn() && |session.raw| == 32 && e.RecoveryEnvelope?
    ensures var r := MaybeUpgradeRecovery(o, session, phrase, e, expectedWordCount, drawn);
            && (r == Ok(None) <==> !UpgradeRecommended(e.kdfMetadata))
            && (r.Ok? && r.value.Some? <==>
                && UpgradeRecommended(e.kdfMetadata) && Faithful(o, Slot(Phrase(phrase), e), session.raw)
                && (expectedWordCount.Some? ==> o.platform.wordCount(o.platform.phraseForm(phrase).value) == expectedWordCount.value))
            && (r.Ok? && r.value.Some? ==>
                && r.value.value.RecoveryEnvelope? && Current(o, Slot(Phrase(phrase), r.value.value), session.raw)
                && r.value.value.phraseLength == if expectedWordCount.Some? then expectedWordCount
                                                 else if e.phraseLength.Some? then e.phraseLength
                                                 else Some(o.platform.wordCount(o.platform.phraseForm(phrase).value)))
  {
    PhraseInputGoodExactlyWhen(o, phrase, e, expectedWordCount, session.raw);
    var unlocked := UnlockWithRecovery(o, phrase, e, expectedWordCount);
    if unlocked.Ok? {
      var spelled := o.platform.phraseForm(phrase).value;
      var newKey, m := DeriveNew(o.platform, StringToBytes(spelled), drawn.salt), Serialize(drawn.salt);
      NewPhraseKey(o, phrase, drawn.salt);
      ReissuedPhraseExactlyWhen(o, session, phrase, unlocked, e, expectedWordCount, UpgradedLength(o, spelled, e, expectedWordCount), newKey, m, drawn.iv);
    } else {
      FaithfulPhrase(o, phrase, e, expectedWordCount, session.raw);
    }
  }

  /** A second upgrade stores nothing. */
  lemma SecondUpgradeIsNoOp(o: Owner, session: VaultKey, password: Text, e: Envelope, drawn: Fresh, again: Fresh)
    requires o.Lawful() && drawn.Drawn() && |session.raw| == 32 && e.PasswordEnvelope?
    requires var r := MaybeUpgradePassword(o, session, password, e, drawn); r.Ok? && r.value.Some?
    ensures var upgraded := MaybeUpgradePassword(o, session, password, e, drawn).value.value;
            upgraded.PasswordEnvelope? && MaybeUpgradePassword(o, session, password, upgraded, again) == Ok(None)
  {
    UpgradesPasswordExactlyWhen(o, session, password, e, drawn);
  }

  lemma SecondRecoveryUpgradeIsNoOp(o: Owner, session: VaultKey, phrase: Text, e: Envelope, expectedWordCount: Option<nat>, drawn: Fresh, againCount: Option<nat>, again: Fresh)
    requires o.Lawful() && drawn.Drawn() && |session.raw| == 32 && e.RecoveryEnvelope?
    requires var r := MaybeUpgradeRecovery(o, session, phrase, e, expectedWordCount, drawn); r.Ok? && r.value.Some?
    ensures var upgraded := MaybeUpgradeRecovery(o, session, phrase, e, expectedWordCount, drawn).value.value;
            upgraded.RecoveryEnvelope? && MaybeUpgradeRecovery(o, session, phrase, upgraded, againCount, again) == Ok(None)
  {
    UpgradesRecoveryExactlyWhen(o, session, phrase, e, expectedWordCount, drawn);
  }

  lemma AuthorizedInnerExactlyWhen(o: Owner, session: VaultKey, auth: Slot, newKey: Key)
    requires o.Lawful() && |session.raw| == 32 && Matches(auth)
    ensures AuthorizedInner(o, session, auth, newKey).Ok? <==>
            SlotKey(o, auth).Some? && Holds(o.platform.kw, auth.envelope.payload, SlotKey(o, auth).value, session.raw)
    ensures var r := AuthorizedInner(o, session, auth, newKey);
            r.Ok? ==> |r.value| == 40 && OpenInner(o.platform.kw, r.value, newKey) == Some(session.raw)
  {
    if SlotKey(o, auth).Some? && ExtractInner(auth.envelope.payload, SlotKey(o, auth).value).Ok? {
      var inner := ExtractInner(auth.envelope.payload, SlotKey(o, auth).value).value;
      RewrapKeepsTheKey(o.platform.kw, inner, SlotKey(o, auth).value, newKey, session);
    }
  }

  lemma AuthorizedExactlyWhen(o: Owner, session: VaultKey, auth: Slot)
    requires Matches(auth) && !auth.secret.Phrase?
    ensures AuthorizationFailure(o, session, auth).None? <==> Opens(o, auth, session.raw)
  {
  }

  lemma CreatedRecoveryIsCurrent(o: Owner, session: VaultKey, phrase: Text, phraseLength: Option<nat>, salt: Bytes, iv: Bytes, blob: Bytes)
    requires o.Lawful() && |session.raw| == 32 && SafeSalt(salt) && |iv| == MAX_IV_BYTES && |blob| == 40
    requires o.platform.IsSpelled(phrase)
    requires OpenInner(o.platform.kw, blob, DeriveNew(o.platform, StringToBytes(phrase), salt)) == Some(session.raw)
    ensures var r := CreateRecoveryEnvelope(o, session, phrase, phraseLength, salt, iv, Some(blob));
            r.Ok? && r.value.RecoveryEnvelope? && Current(o, Slot(Phrase(phrase), r.value), session.raw)
  {
    var key := DeriveNew(o.platform, StringToBytes(phrase), salt);
    WrappingHoldsTheKey(o.platform.kw, session, key, o.scope, o.profile, iv, Some(blob));
    NewPhraseKey(o, phrase, salt);
    PhraseSlotIsCurrent(o, phrase, CreateRecoveryEnvelope(o, session, phrase, phraseLength, salt, iv, Some(blob)).value, key, session.raw);
  }

  /**
   A new phrase is accepted exactly when it is valid, has the asked length and matches its
   confirmation, and the authorizing slot opens to the session's key and decrypts as stored. The
   canonical phrase returned then opens the new envelope to the same key.
   */
  lemma RotatesRecoveryExactlyWhen(o: Owner, session: VaultKey, auth: Slot, phrase: Text, wordCount: nat, confirmation: Option<Text>, drawn: Fresh)
    requires o.Lawful() && drawn.Drawn() && |session.raw| == 32 && Matches(auth) && !auth.secret.Phrase?
    ensures var r := RotateRecovery(o, session, auth, phrase, wordCount, confirmation, drawn);
            && (r.Ok? <==>
                && o.platform.phraseForm(phrase).Some? && o.platform.wordCount(o.platform.phraseForm(phrase).value) == wordCount
                && (confirmation.Some? ==> o.platform.phraseForm(confirmation.value) == o.platform.phraseForm(phrase))
                && Faithful(o, auth, session.raw))
            && (r.Ok? ==>
                && r.value.1.RecoveryEnvelope? && r.value.1.phraseLength == Some(wordCount)
                && o.platform.phraseForm(phrase) == Some(r.value.0) && Current(o, Slot(Phrase(r.value.0), r.value.1), session.raw))
  {
    AuthorizedExactlyWhen(o, session, auth);
    if PhraseFailure(o, phrase, wordCount, confirmation).None? {
      var normalized := o.platform.phraseForm(phrase).value;
      assert o.platform.IsSpelled(normalized);
      var newKey := DeriveNew(o.platform, StringToBytes(normalized), drawn.salt);
      AuthorizedInnerExactlyWhen(o, session, auth, newKey);
      RoundTrip(drawn.salt);
      var inner := AuthorizedInner(o, session, auth, newKey);
      if inner.Ok? {
        CreatedRecoveryIsCurrent(o, session, normalized, Some(wordCount), drawn.salt, drawn.iv, inner.value);
      }
    }
  }

  /** A confirmation that spells differently is refused, whoever authorizes it; by a slot that opens, for that reason. */
  lemma MistypedConfirmationIsRefused(o: Owner, session: VaultKey, auth: Slot, phrase: Text, wordCount: nat, confirmation: Text, drawn: Fresh)
    requires o.Lawful() && drawn.Drawn() && |session.raw| == 32 && Matches(auth) && !auth.secret.Phrase?
    requires o.platform.phraseForm(confirmation) != o.platform.phraseForm(phrase)
    ensures RotateRecovery(o, session, auth, phrase, wordCount, Some(confirmation), drawn).Err?
    ensures Opens(o, auth, session.raw) && o.platform.phraseForm(phrase).Some? && o.platform.wordCount(o.platform.phraseForm(phrase).value) == wordCount ==>
              RotateRecovery(o, session, auth, phrase, wordCount, Some(confirmation), drawn) == Err(ConfirmationMismatch)
  {
    RotatesRecoveryExactlyWhen(o, session, auth, phrase, wordCount, Some(confirmation), drawn);
    AuthorizedExactlyWhen(o, session, auth);
  }

  /** Why a new phrase is refused: first the authorization, then the phrase, its length and its confirmation. */
  lemma RecoveryRefusedAs(o: Owner, session: VaultKey, auth: Slot, phrase: Text, wordCount: nat, confirmation: Option<Text>, drawn: Fresh)
    requires Matches(auth) && !auth.secret.Phrase?
    ensures var r, spelled := RotateRecovery(o, session, auth, phrase, wordCount, confirmation, drawn), o.platform.phraseForm(phrase);
            && (UnlockSlot(o, auth).Ok? && UnlockSlot(o, auth).value.vaultKey != session.raw ==> r == Err(KeyMismatch))
            && (Opens(o, auth, session.raw) && spelled.None? ==> r == Err(InvalidPhrase))
            && (Opens(o, auth, session.raw) && spelled.Some? && o.platform.wordCount(spelled.value) != wordCount ==> r == Err(WordCountMismatch))
  {
  }

  lemma CreatedPasskeyIsCurrent(o: Owner, vaultKey: VaultKey, prf: Bytes, iv: Bytes, blob: Bytes)
    requires o.Lawful() && |vaultKey.raw| == 32 && |iv| == MAX_IV_BYTES && |blob| == 40 && |prf| >= PRF_BYTES
    requires OpenInner(o.platform.kw, blob, prf[..PRF_BYTES]) == Some(vaultKey.raw)
    ensures var r := CreatePasskeyEnvelope(o, vaultKey, prf[..PRF_BYTES], iv, Some(blob));
            r.Ok? && r.value.PasskeyEnvelope? && Current(o, Slot(Prf(prf), r.value), vaultKey.raw)
  {
    assert prf[..PRF_BYTES][..PRF_BYTES] == prf[..PRF_BYTES];
    WrappingHoldsTheKey(o.platform.kw, vaultKey, prf[..PRF_BYTES], o.scope, o.profile, iv, Some(blob));
  }

  /** An extra passkey needs only an envelope that unlocks, by a phrase of the expected length: the blob is the one routing found. */
  lemma AddsPasskeyExactlyWhen(o: Owner, auth: Slot, expectedWordCount: Option<nat>, prf: Bytes, iv: Bytes, vaultKey: Bytes)
    requires o.Lawful() && |iv| == MAX_IV_BYTES && |vaultKey| == 32 && Matches(auth) && !auth.secret.Prf?
    ensures var r := AddPasskey(o, auth, expectedWordCount, prf, iv);
            && (r.Ok? && r.value.0 == vaultKey <==>
                && |prf| >= PRF_BYTES && Opens(o, auth, vaultKey)
                && (auth.secret.Phrase? && expectedWordCount.Some? ==>
                    o.platform.phraseForm(auth.secret.text).Some? && o.platform.wordCount(o.platform.phraseForm(auth.secret.text).value) == expectedWordCount.value))
            && (r.Ok? && r.value.0 == vaultKey ==> r.value.1.PasskeyEnvelope? && Current(o, Slot(Prf(prf), r.value.1), vaultKey))
  {
    if |prf| >= PRF_BYTES && Opens(o, auth, vaultKey) {
      var key := SlotKey(o, auth).value;
      var unlocked := Unlock(o.platform.kw, auth.envelope.payload, key, o.scope, o.profile).value;
      UnlockedInnerOpens(o, auth.envelope.payload, key);
      RewrapKeepsTheKey(o.platform.kw, unlocked.inner, key, prf[..PRF_BYTES], VaultKey(vaultKey, false));
      var blob := RewrapInner(o.platform.kw, unlocked.inner, key, prf[..PRF_BYTES], VaultKey(vaultKey, false)).value;
      CreatedPasskeyIsCurrent(o, VaultKey(vaultKey, false), prf, iv, blob);
    }
  }

  /** Why a passkey is refused: too short an output first, then an envelope of another kind, then the phrase. */
  lemma AddingRefusedAs(o: Owner, auth: Slot, expectedWordCount: Option<nat>, prf: Bytes, iv: Bytes)
    requires Matches(auth) && !auth.secret.Prf?
    ensures var r := AddPasskey(o, auth, expectedWordCount, prf, iv);
            && (|prf| < 32 ==> r == Err(ShortPrfOutput))
            && (|prf| >= 32 && auth.envelope.kdfMetadata.kdf != Argon2id ==> r == Err(InvalidKdfMetadata))
            && (|prf| >= 32 && auth.envelope.kdfMetadata.kdf == Argon2id && auth.secret.Phrase? && expectedWordCount.Some? ==>
                && (o.platform.phraseForm(auth.secret.text).None? ==> r == Err(InvalidPhrase))
                && (o.platform.phraseForm(auth.secret.text).Some? && o.platform.wordCount(o.platform.phraseForm(auth.secret.text).value) != expectedWordCount.value ==>
                    r == Err(WordCountMismatch)))
  {
  }

  /** The key it reports is the one the authorizing slot opens to. */
  lemma AddedKeyIsTheSlots(o: Owner, auth: Slot, expectedWordCount: Option<nat>, prf: Bytes, iv: Bytes)
    requires Matches(auth) && !auth.secret.Prf? && AddPasskey(o, auth, expectedWordCount, prf, iv).Ok?
    ensures Opens(o, auth, AddPasskey(o, auth, expectedWordCount, prf, iv).value.0)
  {
  }

  lemma UnlockedInnerOpens(o: Owner, p: Payload, key: Key)
    requires Unlock(o.platform.kw, p, key, o.scope, o.profile).Ok?
    ensures var r := Unlock(o.platform.kw, p, key, o.scope, o.profile).value; OpenInner(o.platform.kw, r.inner, key) == Some(r.vaultKey)
  {
    UnlocksExactlyWhen(o.platform.kw, p, key, o.scope, o.profile);
  }

  // ---------------------------------------------------------------- unlockable is not rotatable

  /**
   Unlocking tries several records, re-wrapping only the stored one. So a password that unlocks can
   be rotated exactly when the ciphertext was sealed for the record now stored with it, in an order
   recognised there.
   */
  lemma RotatableExactlyWhenStoredAsSealed(o: Owner, session: VaultKey, current: Text, next: Text, e: Envelope, drawn: Fresh, sealedFor: Aad, x: seq<Property>, inner: Bytes)
    requires o.Lawful() && drawn.Drawn() && |session.raw| == 32 && e.PasswordEnvelope? && current != next
    requires IsOrder(x) && IsOrder(e.payload.order) && SealedAs(e.payload.ciphertext, sealedFor, x)
    requires e.payload.ciphertext.plaintext == StringToBytes(BytesToBase64Url(inner))
    requires Opens(o, Slot(Password(current), e), session.raw)
    ensures RotatePassword(o, session, current, next, e, drawn).Ok? <==> sealedFor == e.payload.aad && Recognised(sealedFor, x, e.payload.order)
  {
    RotatesPasswordExactlyWhen(o, session, current, next, e, drawn);
    var key := PasswordKey(o.platform, current, e.kdfMetadata).value;
    OpensByKey(o, current, e, session.raw, key);
    RoutingExactlyWhen(o.platform.kw, e.payload, key, o.scope, o.profile, sealedFor, x, inner);
    HoldsExactlyWhenSealed(o.platform.kw, e.payload, key, session.raw, sealedFor, x, inner);
    FaithfulPassword(o, current, e, session.raw);
  }

  lemma OpensByKey(o: Owner, password: Text, e: Envelope, vaultKey: Bytes, key: Key)
    requires e.PasswordEnvelope? && Opens(o, Slot(Password(password), e), vaultKey)
    requires PasswordKey(o.platform, password, e.kdfMetadata) == Some(key)
    ensures var r := Unlock(o.platform.kw, e.payload, key, o.scope, o.profile); r.Ok? && r.value.vaultKey == vaultKey
  {
  }

  lemma HoldsExactlyWhenSealed(kw: KeyWrap, p: Payload, key: Key, raw: Bytes, sealedFor: Aad, x: seq<Property>, inner: Bytes)
    requires IsOrder(x) && IsOrder(p.order) && SealedAs(p.ciphertext, sealedFor, x)
    requires p.ciphertext.plaintext == StringToBytes(BytesToBase64Url(inner)) && Openable(kw, p, key, inner)
    requires OpenInner(kw, inner, key) == Some(raw)
    ensures Holds(kw, p, key, raw) <==> sealedFor == p.aad && Recognised(sealedFor, x, p.order)
  {
    EncodedTextReadsBack(inner);
    SealedInnerOpensExactlyAs(kw, p, key, sealedFor, x, inner);
  }

  /** A record whose context was lost after it was sealed in the canonical one. */
  function ContextLost(p: Payload): Payload {
    p.(aad := p.aad.(context := Absent))
  }

  /** Sealed with the key for the scope's canonical record, and stored as the same without its context. */
  predicate HasLostContext(kw: KeyWrap, p: Payload, key: Key, scope: VaultKeyScope, profile: Profile, x: seq<Property>, inner: Bytes) {
    && p.aad == CanonicalAad(scope, profile).(context := Absent) && p.order == WRAP_ORDER
    && SealedAs(p.ciphertext, CanonicalAad(scope, profile), x) && p.ciphertext.plaintext == StringToBytes(BytesToBase64Url(inner))
    && Openable(kw, p, key, inner)
  }

  lemma LosingTheContext(kw: KeyWrap, inner: Bytes, key: Key, scope: VaultKeyScope, profile: Profile, iv: Bytes, x: seq<Property>)
    requires |iv| == MAX_IV_BYTES && |inner| <= 40 && OpenInner(kw, inner, key).Some? && x == CANONICAL_ORDER
    ensures HasLostContext(kw, ContextLost(EncryptInner(inner, key, scope, profile, iv)), key, scope, profile, x, inner)
  {
    EncodedTextReadsBack(inner);
  }

  lemma LostContextOpens(kw: KeyWrap, p: Payload, key: Key, scope: VaultKeyScope, profile: Profile, x: seq<Property>, inner: Bytes)
    requires LegacyEnabled(profile) && x == CANONICAL_ORDER && HasLostContext(kw, p, key, scope, profile, x, inner)
    ensures var r := Unlock(kw, p, key, scope, profile); r.Ok? && OpenInner(kw, inner, key) == Some(r.value.vaultKey)
  {
    WrapOrderIsOrder();
    LibraryOrdersAreOrders(x);
    LibraryOrdersAreRecognised(CanonicalAad(scope, profile), TriedOrder(p, profile));
    RoutingExactlyWhen(kw, p, key, scope, profile, CanonicalAad(scope, profile), x, inner);
  }

  lemma LostContextIsRefused(o: Owner, session: VaultKey, current: Text, next: Text, e: Envelope, key: Key, x: seq<Property>, inner: Bytes, drawn: Fresh)
    requires o.Lawful() && drawn.Drawn() && |session.raw| == 32 && current != next && x == CANONICAL_ORDER && e.PasswordEnvelope?
    requires HasLostContext(o.platform.kw, e.payload, key, o.scope, o.profile, x, inner)
    requires Opens(o, Slot(Password(current), e), session.raw)
    ensures RotatePassword(o, session, current, next, e, drawn).Err?
  {
    WrapOrderIsOrder();
    LibraryOrdersAreOrders(x);
    RotatableExactlyWhenStoredAsSealed(o, session, current, next, e, drawn, CanonicalAad(o.scope, o.profile), x, inner);
  }

  lemma UnlockedByKeyOpens(o: Owner, password: Text, e: Envelope, vaultKey: Bytes, key: Key)
    requires e.PasswordEnvelope? && e.kdfMetadata.kdf == Argon2id && PasswordKey(o.platform, password, e.kdfMetadata) == Some(key)
    requires var r := Unlock(o.platform.kw, e.payload, key, o.scope, o.profile); r.Ok? && r.value.vaultKey == vaultKey
    ensures Opens(o, Slot(Password(password), e), vaultKey)
  {
  }

  /** It happens: stored without the context it was sealed in, an envelope unlocks and cannot be rotated. */
  lemma UnlockableButNotRotatable(o: Owner, session: VaultKey, current: Text, next: Text, salt: Bytes, iv: Bytes, inner: Bytes, drawn: Fresh)
    requires o.Lawful() && drawn.Drawn() && |session.raw| == 32 && current != next
    requires LegacyEnabled(o.profile) && SafeSalt(salt) && |iv| == MAX_IV_BYTES
    requires OpenInner(o.platform.kw, inner, DeriveNew(o.platform, PasswordBytes(o.platform, current), salt)) == Some(session.raw)
    ensures var key := DeriveNew(o.platform, PasswordBytes(o.platform, current), salt);
            var e := PasswordEnvelope(ContextLost(EncryptInner(inner, key, o.scope, o.profile, iv)), Serialize(salt));
            Opens(o, Slot(Password(current), e), session.raw) && RotatePassword(o, session, current, next, e, drawn).Err?
  {
    var key := DeriveNew(o.platform, PasswordBytes(o.platform, current), salt);
    var p, m := ContextLost(EncryptInner(inner, key, o.scope, o.profile, iv)), Serialize(salt);
    NewPasswordKey(o, current, salt);
    OpenedInnerIsShort(o.platform.kw, inner, key);
    LosingTheContext(o.platform.kw, inner, key, o.scope, o.profile, iv, CANONICAL_ORDER);
    LostContextRoundTrip(o, session, current, next, PasswordEnvelope(p, m), key, CANONICAL_ORDER, inner, drawn);
  }

  lemma LostContextRoundTrip(o: Owner, session: VaultKey, current: Text, next: Text, e: Envelope, key: Key, x: seq<Property>, inner: Bytes, drawn: Fresh)
    requires o.Lawful() && drawn.Drawn() && |session.raw| == 32 && current != next && x == CANONICAL_ORDER && e.PasswordEnvelope?
    requires LegacyEnabled(o.profile) && HasLostContext(o.platform.kw, e.payload, key, o.scope, o.profile, x, inner)
    requires e.kdfMetadata.kdf == Argon2id && PasswordKey(o.platform, current, e.kdfMetadata) == Some(key)
    requires OpenInner(o.platform.kw, inner, key) == Some(session.raw)
    ensures Opens(o, Slot(Password(current), e), session.raw) && RotatePassword(o, session, current, next, e, drawn).Err?
  {
    LostContextOpens(o.platform.kw, e.payload, key, o.scope, o.profile, x, inner);
    UnlockedByKeyOpens(o, current, e, session.raw, key);
    LostContextIsRefused(o, session, current, next, e, key, x, inner, drawn);
  }

  // ---------------------------------------------------------------- whole runs

  datatype Action =
    | Rotate(slot: nat, next: Text)
    | Upgrade(slot: nat, expectedWordCount: Option<nat>)
    | Recover(auth: nat, replaced: Option<nat>, phrase: Text, wordCount: nat, confirmation: Option<Text>)
    | Enrol(auth: nat, expectedWordCount: Option<nat>, prf: Bytes)

  /** One call, with the session key and the random bytes it gets. A failed one stores nothing. */
  datatype Call = Call(action: Action, session: VaultKey, drawn: Fresh) {
    predicate Proper() {
      |session.raw| == 32 && drawn.Drawn()
    }
  }

  /** The slot that a call makes, and the one it replaces, if it makes one. */
  datatype Made = Made(slot: Slot, replaced: Option<nat>)

  predicate Usable(slots: seq<Slot>, i: nat) {
    i < |slots| && Matches(slots[i])
  }

  predicate Replaceable(slots: seq<Slot>, replaced: Option<nat>) {
    replaced.Some? ==> Usable(slots, replaced.value) && slots[replaced.value].secret.Phrase?
  }

  function Making(o: Owner, slots: seq<Slot>, call: Call): Option<Made> {
    match call.action
    case Rotate(i, next) =>
      if !Usable(slots, i) || !slots[i].secret.Password? then None else Rotated(o, slots[i], i, next, call.session, call.drawn)
    case Upgrade(i, expected) =>
      if !Usable(slots, i) || slots[i].secret.Prf? then None else Upgraded(o, slots[i], i, expected, call.session, call.drawn)
    case Recover(i, replaced, phrase, wordCount, confirmation) =>
      if !Usable(slots, i) || slots[i].secret.Phrase? || !Replaceable(slots, replaced) then None
      else Recovered(o, slots[i], replaced, phrase, wordCount, confirmation, call.session, call.drawn)
    case Enrol(i, expected, prf) =>
      if !Usable(slots, i) || slots[i].secret.Prf? then None else Enrolled(o, slots[i], expected, prf, call.drawn.iv)
  }

  function Rotated(o: Owner, s: Slot, i: nat, next: Text, session: VaultKey, drawn: Fresh): Option<Made>
    requires Matches(s) && s.secret.Password?
  {
    var r := RotatePassword(o, session, s.secret.text, next, s.envelope, drawn);
    if r.Err? then None else Some(Made(Slot(Password(next), r.value), Some(i)))
  }

  function Upgraded(o: Owner, s: Slot, i: nat, expected: Option<nat>, session: VaultKey, drawn: Fresh): Option<Made>
    requires Matches(s) && !s.secret.Prf?
  {
    var r := UpgradeSlot(o, session, s, expected, drawn);
    if r.Err? || r.value.None? then None else Some(Made(Slot(s.secret, r.value.value), Some(i)))
  }

  function Recovered(o: Owner, s: Slot, replaced: Option<nat>, phrase: Text, wordCount: nat, confirmation: Option<Text>, session: VaultKey, drawn: Fresh): Option<Made>
    requires Matches(s) && !s.secret.Phrase?
  {
    var r := RotateRecovery(o, session, s, phrase, wordCount, confirmation, drawn);
    if r.Err? then None else Some(Made(Slot(Phrase(r.value.0), r.value.1), replaced))
  }

  function Enrolled(o: Owner, s: Slot, expected: Option<nat>, prf: Bytes, iv: Bytes): Option<Made>
    requires Matches(s) && !s.secret.Prf?
  {
    var r := AddPasskey(o, s, expected, prf, iv);
    if r.Err? then None else Some(Made(Slot(Prf(prf), r.value.1), None))
  }

  function UpgradeSlot(o: Owner, session: VaultKey, s: Slot, expected: Option<nat>, drawn: Fresh): Result<Option<Envelope>, Failure>
    requires Matches(s) && !s.secret.Prf?
  {
    if s.secret.Password? then MaybeUpgradePassword(o, session, s.secret.text, s.envelope, drawn)
    else MaybeUpgradeRecovery(o, session, s.secret.text, s.envelope, expected, drawn)
  }

  /** The caller stores what was made in place of what it replaces. */
  function Stored(slots: seq<Slot>, made: Option<Made>): seq<Slot> {
    if made.None? then slots
    else if made.value.replaced.None? then slots + [made.value.slot]
    else if made.value.replaced.value < |slots| then slots[made.value.replaced.value := made.value.slot]
    else slots
  }

  ghost predicate AllFaithful(o: Owner, slots: seq<Slot>, vaultKey: Bytes) {
    forall s <- slots :: Faithful(o, s, vaultKey)
  }

  ghost predicate AllOpen(o: Owner, slots: seq<Slot>, vaultKey: Bytes) {
    forall s <- slots :: Opens(o, s, vaultKey)
  }

  lemma OpensToOne(o: Owner, s: Slot, a: Bytes, b: Bytes)
    requires Opens(o, s, a) && Opens(o, s, b)
    ensures a == b
  {
  }

  lemma RotationMakesCurrent(o: Owner, s: Slot, i: nat, next: Text, session: VaultKey, drawn: Fresh, vaultKey: Bytes)
    requires o.Lawful() && |session.raw| == 32 && drawn.Drawn() && s.secret.Password? && Opens(o, s, vaultKey)
    ensures var made := Rotated(o, s, i, next, session, drawn);
            made.Some? ==> session.raw == vaultKey && Current(o, made.value.slot, vaultKey)
  {
    assert s == Slot(Password(s.secret.text), s.envelope);
    RotatesPasswordExactlyWhen(o, session, s.secret.text, next, s.envelope, drawn);
    if RotatePassword(o, session, s.secret.text, next, s.envelope, drawn).Ok? {
      OpensToOne(o, s, session.raw, vaultKey);
    }
  }

  lemma UpgradeMakesCurrent(o: Owner, s: Slot, i: nat, expected: Option<nat>, session: VaultKey, drawn: Fresh, vaultKey: Bytes)
    requires o.Lawful() && |session.raw| == 32 && drawn.Drawn() && !s.secret.Prf? && Opens(o, s, vaultKey)
    ensures var made := Upgraded(o, s, i, expected, session, drawn);
            made.Some? ==> session.raw == vaultKey && Current(o, made.value.slot, vaultKey)
  {
    assert s == Slot(s.secret, s.envelope);
    if s.secret.Password? {
      UpgradesPasswordExactlyWhen(o, session, s.secret.text, s.envelope, drawn);
    } else {
      UpgradesRecoveryExactlyWhen(o, session, s.secret.text, s.envelope, expected, drawn);
    }
    if Upgraded(o, s, i, expected, session, drawn).Some? {
      OpensToOne(o, s, session.raw, vaultKey);
    }
  }

  lemma RecoveryMakesCurrent(o: Owner, s: Slot, replaced: Option<nat>, phrase: Text, wordCount: nat, confirmation: Option<Text>, session: VaultKey, drawn: Fresh, vaultKey: Bytes)
    requires o.Lawful() && |session.raw| == 32 && drawn.Drawn() && !s.secret.Phrase? && Opens(o, s, vaultKey)
    ensures var made := Recovered(o, s, replaced, phrase, wordCount, confirmation, session, drawn);
            made.Some? ==> session.raw == vaultKey && Current(o, made.value.slot, vaultKey)
  {
    RotatesRecoveryExactlyWhen(o, session, s, phrase, wordCount, confirmation, drawn);
    if RotateRecovery(o, session, s, phrase, wordCount, confirmation, drawn).Ok? {
      OpensToOne(o, s, session.raw, vaultKey);
    }
  }

  lemma EnrolmentMakesCurrent(o: Owner, s: Slot, expected: Option<nat>, prf: Bytes, iv: Bytes, vaultKey: Bytes)
    requires o.Lawful() && |iv| == MAX_IV_BYTES && |vaultKey| == 32 && !s.secret.Prf? && Opens(o, s, vaultKey)
    ensures var made := Enrolled(o, s, expected, prf, iv);
            made.Some? ==> Current(o, made.value.slot, vaultKey)
  {
    if Enrolled(o, s, expected, prf, iv).Some? {
      AddsPasskeyExactlyWhen(o, s, expected, prf, iv, vaultKey);
    }
  }

  /** What each call makes, and when: the slot named must be of its kind and pass; nothing else stops it. */
  lemma RotateMakesExactlyWhen(o: Owner, slots: seq<Slot>, i: nat, next: Text, session: VaultKey, drawn: Fresh)
    requires o.Lawful() && |session.raw| == 32 && drawn.Drawn()
    ensures var made := Making(o, slots, Call(Rotate(i, next), session, drawn));
            && (made.Some? <==> i < |slots| && slots[i].secret.Password? && slots[i].secret.text != next && Faithful(o, slots[i], session.raw))
            && (made.Some? ==> made.value.replaced == Some(i) && made.value.slot.secret == Password(next) && Current(o, made.value.slot, session.raw))
  {
    if Usable(slots, i) && slots[i].secret.Password? {
      assert slots[i] == Slot(Password(slots[i].secret.text), slots[i].envelope);
      RotatesPasswordExactlyWhen(o, session, slots[i].secret.text, next, slots[i].envelope, drawn);
    }
  }

  lemma UpgradeSlotExactlyWhen(o: Owner, session: VaultKey, s: Slot, expected: Option<nat>, drawn: Fresh)
    requires o.Lawful() && |session.raw| == 32 && drawn.Drawn() && Matches(s) && !s.secret.Prf?
    ensures var r := UpgradeSlot(o, session, s, expected, drawn);
            && (r.Ok? && r.value.Some? <==>
                && UpgradeRecommended(s.envelope.kdfMetadata) && Faithful(o, s, session.raw)
                && (s.secret.Phrase? && expected.Some? ==> o.platform.wordCount(o.platform.phraseForm(s.secret.text).value) == expected.value))
            && (r.Ok? && r.value.Some? ==> Current(o, Slot(s.secret, r.value.value), session.raw))
  {
    assert s == Slot(s.secret, s.envelope);
    if s.secret.Password? {
      UpgradesPasswordExactlyWhen(o, session, s.secret.text, s.envelope, drawn);
    } else {
      UpgradesRecoveryExactlyWhen(o, session, s.secret.text, s.envelope, expected, drawn);
    }
  }

  lemma UpgradeMakesExactlyWhen(o: Owner, slots: seq<Slot>, i: nat, expected: Option<nat>, session: VaultKey, drawn: Fresh)
    requires o.Lawful() && |session.raw| == 32 && drawn.Drawn()
    ensures var made := Making(o, slots, Call(Upgrade(i, expected), session, drawn));
            && (made.Some? <==>
                && i < |slots| && !slots[i].secret.Prf? && Faithful(o, slots[i], session.raw) && UpgradeRecommended(slots[i].envelope.kdfMetadata)
                && (slots[i].secret.Phrase? && expected.Some? ==> o.platform.wordCount(o.platform.phraseForm(slots[i].secret.text).value) == expected.value))
            && (made.Some? ==> made.value.replaced == Some(i) && made.value.slot.secret == slots[i].secret && Current(o, made.value.slot, session.raw))
  {
    if Usable(slots, i) && !slots[i].secret.Prf? {
      UpgradeSlotExactlyWhen(o, session, slots[i], expected, drawn);
    }
  }

  lemma RecoverMakesExactlyWhen(o: Owner, slots: seq<Slot>, i: nat, replaced: Option<nat>, phrase: Text, wordCount: nat, confirmation: Option<Text>, session: VaultKey, drawn: Fresh)
    requires o.Lawful() && |session.raw| == 32 && drawn.Drawn()
    ensures var made := Making(o, slots, Call(Recover(i, replaced, phrase, wordCount, confirmation), session, drawn));
            && (made.Some? <==>
                && i < |slots| && !slots[i].secret.Phrase? && Faithful(o, slots[i], session.raw)
                && (replaced.Some? ==> replaced.value < |slots| && Matches(slots[replaced.value]) && slots[replaced.value].secret.Phrase?)
                && o.platform.phraseForm(phrase).Some? && o.platform.wordCount(o.platform.phraseForm(phrase).value) == wordCount
                && (confirmation.Some? ==> o.platform.phraseForm(confirmation.value) == o.platform.phraseForm(phrase)))
            && (made.Some? ==> made.value.replaced == replaced && made.value.slot.secret == Phrase(o.platform.phraseForm(phrase).value) && Current(o, made.value.slot, session.raw))
  {
    if Usable(slots, i) && !slots[i].secret.Phrase? && Replaceable(slots, replaced) {
      RotatesRecoveryExactlyWhen(o, session, slots[i], phrase, wordCount, confirmation, drawn);
    }
  }

  lemma EnrolledExactlyWhen(o: Owner, s: Slot, expected: Option<nat>, prf: Bytes, iv: Bytes, vaultKey: Bytes)
    requires o.Lawful() && |iv| == MAX_IV_BYTES && |vaultKey| == 32 && !s.secret.Prf? && Opens(o, s, vaultKey)
    ensures var made := Enrolled(o, s, expected, prf, iv);
            && (made.Some? <==>
                && |prf| >= PRF_BYTES
                && (s.secret.Phrase? && expected.Some? ==>
                    o.platform.phraseForm(s.secret.text).Some? && o.platform.wordCount(o.platform.phraseForm(s.secret.text).value) == expected.value))
            && (made.Some? ==> made.value.replaced.None? && made.value.slot.secret == Prf(prf) && Current(o, made.value.slot, vaultKey))
  {
    AddsPasskeyExactlyWhen(o, s, expected, prf, iv, vaultKey);
    var r := AddPasskey(o, s, expected, prf, iv);
    if r.Ok? {
      AddedKeyIsTheSlots(o, s, expected, prf, iv);
      OpensToOne(o, s, r.value.0, vaultKey);
    }
  }

  /** The added passkey is of the key its authorizing slot opens to. */
  lemma EnrolMakesExactlyWhen(o: Owner, slots: seq<Slot>, i: nat, expected: Option<nat>, prf: Bytes, session: VaultKey, drawn: Fresh, vaultKey: Bytes)
    requires o.Lawful() && drawn.Drawn() && |vaultKey| == 32 && i < |slots| && Opens(o, slots[i], vaultKey)
    ensures var made := Making(o, slots, Call(Enrol(i, expected, prf), session, drawn));
            && (made.Some? <==>
                && !slots[i].secret.Prf? && |prf| >= PRF_BYTES
                && (slots[i].secret.Phrase? && expected.Some? ==>
                    o.platform.phraseForm(slots[i].secret.text).Some? && o.platform.wordCount(o.platform.phraseForm(slots[i].secret.text).value) == expected.value))
            && (made.Some? ==> made.value.replaced.None? && made.value.slot.secret == Prf(prf) && Current(o, made.value.slot, vaultKey))
  {
    var s := slots[i];
    if !s.secret.Prf? {
      EnrolledExactlyWhen(o, s, expected, prf, drawn.iv, vaultKey);
      EnrolMakes(o, slots, i, expected, prf, session, drawn, Enrolled(o, s, expected, prf, drawn.iv));
    }
  }

  lemma EnrolMakes(o: Owner, slots: seq<Slot>, i: nat, expected: Option<nat>, prf: Bytes, session: VaultKey, drawn: Fresh, made: Option<Made>)
    requires Usable(slots, i) && !slots[i].secret.Prf? && made == Enrolled(o, slots[i], expected, prf, drawn.iv)
    ensures Making(o, slots, Call(Enrol(i, expected, prf), session, drawn)) == made
  {
  }

  /** What is made is stored: in the place of what it replaces, or else as one more. */
  lemma MadeIsStored(slots: seq<Slot>, made: Made)
    requires made.replaced.Some? ==> made.replaced.value < |slots|
    ensures Stored(slots, Some(made)) == if made.replaced.Some? then slots[made.replaced.value := made.slot] else slots + [made.slot]
    ensures made.slot in Stored(slots, Some(made))
  {
    if made.replaced.Some? {
      assert Stored(slots, Some(made))[made.replaced.value] == made.slot;
    }
  }

  /** Whatever a call makes is current and holds the one key; with another session's key it makes nothing. */
  lemma MadeIsCurrent(o: Owner, slots: seq<Slot>, call: Call, vaultKey: Bytes)
    requires o.Lawful() && call.Proper() && |vaultKey| == 32 && AllOpen(o, slots, vaultKey)
    ensures var made := Making(o, slots, call);
            made.Some? ==> Current(o, made.value.slot, vaultKey) && (call.action.Enrol? || call.session.raw == vaultKey)
  {
    if Making(o, slots, call).Some? {
      var i := Target(call.action);
      var s := slots[i];
      assert s in slots && Opens(o, s, vaultKey);
      match call.action
      case Rotate(_, next) => RotationMakesCurrent(o, s, i, next, call.session, call.drawn, vaultKey);
      case Upgrade(_, expected) => UpgradeMakesCurrent(o, s, i, expected, call.session, call.drawn, vaultKey);
      case Recover(_, replaced, phrase, wordCount, confirmation) =>
        RecoveryMakesCurrent(o, s, replaced, phrase, wordCount, confirmation, call.session, call.drawn, vaultKey);
      case Enrol(_, expected, prf) => EnrolmentMakesCurrent(o, s, expected, prf, call.drawn.iv, vaultKey);
    }
  }

  function Target(a: Action): nat {
    match a
    case Rotate(i, _) => i
    case Upgrade(i, _) => i
    case Recover(i, _, _, _, _) => i
    case Enrol(i, _, _) => i
  }

  lemma StoredComesFrom(slots: seq<Slot>, made: Option<Made>, s: Slot)
    requires s in Stored(slots, made)
    ensures s in slots || (made.Some? && s == made.value.slot)
  {
  }

  lemma StoringKeepsOpen(o: Owner, slots: seq<Slot>, made: Option<Made>, vaultKey: Bytes)
    requires AllOpen(o, slots, vaultKey) && (made.Some? ==> Opens(o, made.value.slot, vaultKey))
    ensures AllOpen(o, Stored(slots, made), vaultKey)
  {
    forall s | s in Stored(slots, made)
      ensures Opens(o, s, vaultKey)
    {
      StoredComesFrom(slots, made, s);
    }
  }

  lemma CallKeepsOpen(o: Owner, slots: seq<Slot>, call: Call, vaultKey: Bytes)
    requires o.Lawful() && call.Proper() && |vaultKey| == 32 && AllOpen(o, slots, vaultKey)
    ensures AllOpen(o, Stored(slots, Making(o, slots, call)), vaultKey)
  {
    MadeIsCurrent(o, slots, call, vaultKey);
    var made := Making(o, slots, call);
    if made.Some? {
      CurrentIsFaithful(o, made.value.slot, vaultKey);
    }
    StoringKeepsOpen(o, slots, made, vaultKey);
  }

  function Run(o: Owner, slots: seq<Slot>, calls: seq<Call>): seq<Slot>
    decreases |calls|
  {
    if calls == [] then slots else Run(o, Stored(slots, Making(o, slots, calls[0])), calls[1..])
  }

  /**
   After any sequence of rotations, upgrades and enrolments, by any callers with any session keys,
   from envelopes of any age that open to one vault key, every envelope still opens to that key.
   */
  lemma {:induction false} EveryRunKeepsTheKey(o: Owner, slots: seq<Slot>, calls: seq<Call>, vaultKey: Bytes)
    requires o.Lawful() && |vaultKey| == 32 && AllOpen(o, slots, vaultKey)
    requires forall c <- calls :: c.Proper()
    ensures AllOpen(o, Run(o, slots, calls), vaultKey)
    decreases |calls|
  {
    if calls != [] {
      CallKeepsOpen(o, slots, calls[0], vaultKey);
      EveryRunKeepsTheKey(o, Stored(slots, Making(o, slots, calls[0])), calls[1..], vaultKey);
    }
  }

  ghost predicate OldOrCurrent(o: Owner, slots: seq<Slot>, s: Slot, vaultKey: Bytes) {
    s in slots || Current(o, s, vaultKey)
  }

  lemma OldOrCurrentBefore(o: Owner, slots: seq<Slot>, made: Option<Made>, s: Slot, vaultKey: Bytes)
    requires OldOrCurrent(o, Stored(slots, made), s, vaultKey) && (made.Some? ==> Current(o, made.value.slot, vaultKey))
    ensures OldOrCurrent(o, slots, s, vaultKey)
  {
    if s in Stored(slots, made) {
      StoredComesFrom(slots, made, s);
    }
  }

  /** What a run leaves is what was there or in the current form. */
  lemma {:induction false} RunsOnlyAddCurrent(o: Owner, slots: seq<Slot>, calls: seq<Call>, s: Slot, vaultKey: Bytes)
    requires o.Lawful() && |vaultKey| == 32 && AllOpen(o, slots, vaultKey)
    requires forall c <- calls :: c.Proper()
    requires s in Run(o, slots, calls)
    ensures OldOrCurrent(o, slots, s, vaultKey)
    decreases |calls|
  {
    if calls != [] {
      MadeIsCurrent(o, slots, calls[0], vaultKey);
      CallKeepsOpen(o, slots, calls[0], vaultKey);
      RunsOnlyAddCurrent(o, Stored(slots, Making(o, slots, calls[0])), calls[1..], s, vaultKey);
      OldOrCurrentBefore(o, slots, Making(o, slots, calls[0]), s, vaultKey);
    }
  }

  /** So where every stored record decrypted as stored, it still does. */
  lemma EveryRunKeepsFaith(o: Owner, slots: seq<Slot>, calls: seq<Call>, s: Slot, vaultKey: Bytes)
    requires o.Lawful() && |vaultKey| == 32 && AllOpen(o, slots, vaultKey) && AllFaithful(o, slots, vaultKey)
    requires forall c <- calls :: c.Proper()
    requires s in Run(o, slots, calls)
    ensures Faithful(o, s, vaultKey)
  {
    RunsOnlyAddCurrent(o, slots, calls, s, vaultKey);
    if s !in slots {
      CurrentIsFaithful(o, s, vaultKey);
    }
  }

  lemma StoringTouchesOneSlot(slots: seq<Slot>, made: Option<Made>, j: nat)
    requires j < |slots|
    ensures |Stored(slots, made)| >= |slots|
    ensures Stored(slots, made)[j] == if made.Some? && made.value.replaced == Some(j) then made.value.slot else slots[j]
  {
  }

  lemma OnlyTargetsAreReplaced(o: Owner, slots: seq<Slot>, call: Call)
    ensures var made := Making(o, slots, call);
            made.Some? && made.value.replaced.Some? ==>
              if call.action.Recover? then made.value.replaced == call.action.replaced else made.value.replaced == Some(Target(call.action))
  {
  }

  /** No call loses a slot, and one changes at most the slot it is about. */
  lemma CallTouchesOneSlot(o: Owner, slots: seq<Slot>, call: Call, j: nat)
    requires j < |slots|
    ensures |Stored(slots, Making(o, slots, call))| >= |slots|
    ensures Stored(slots, Making(o, slots, call))[j] != slots[j] ==>
            if call.action.Recover? then call.action.replaced == Some(j) else Target(call.action) == j
  {
    StoringTouchesOneSlot(slots, Making(o, slots, call), j);
    OnlyTargetsAreReplaced(o, slots, call);
  }
}
