/**
 The three ways a vault key is kept: under a password, under a recovery phrase, under a passkey's
 PRF output (src/envelopes/password.ts, src/envelopes/recovery.ts, src/envelopes/passkey-prf.ts).
 */
module Envelopes {
  import opened Prelude
  import opened Unicode
  import opened AesGcm
  import opened VaultKeyEnvelope
  import opened AadRouting
  import opened KeyDerivation

  datatype Envelope =
    | PasswordEnvelope(payload: Payload, kdfMetadata: KdfMetadata)
    | RecoveryEnvelope(payload: Payload, kdfMetadata: KdfMetadata, phraseLength: Option<nat>)
    | PasskeyEnvelope(payload: Payload)

  /** Whose vault it is: the platform, the expected scope and the profile of every call. */
  datatype Owner = Owner(platform: Platform, scope: VaultKeyScope, profile: Profile) {
    ghost predicate Lawful() {
      platform.Lawful()
    }

    function Unlocked(p: Payload, key: Option<Key>): Result<Unwrapped, Failure> {
      if key.None? then Err(InvalidKdfMetadata) else Unlock(platform.kw, p, key.value, scope, profile)
    }
  }

  function UnlockWithPassword(o: Owner, password: Text, e: Envelope): Result<Unwrapped, Failure>
    requires e.PasswordEnvelope?
  {
    if e.kdfMetadata.kdf != Argon2id then Err(InvalidKdfMetadata)
    else o.Unlocked(e.payload, PasswordKey(o.platform, password, e.kdfMetadata))
  }

  function PhraseInputFailure(o: Owner, phrase: Text, expectedWordCount: Option<nat>): Option<Failure> {
    if expectedWordCount.None? then None
    else if o.platform.phraseForm(phrase).None? then Some(InvalidPhrase)
    else if o.platform.wordCount(o.platform.phraseForm(phrase).value) != expectedWordCount.value then Some(WordCountMismatch)
    else None
  }

  function UnlockWithRecovery(o: Owner, phrase: Text, e: Envelope, expectedWordCount: Option<nat>): Result<Unwrapped, Failure>
    requires e.RecoveryEnvelope?
  {
    var failure := PhraseInputFailure(o, phrase, expectedWordCount);
    if failure.Some? then Err(failure.value)
    else if e.kdfMetadata.kdf != Argon2id then Err(InvalidKdfMetadata)
    else if o.platform.phraseForm(phrase).None? then Err(InvalidPhrase)
    else o.Unlocked(e.payload, PhraseKey(o.platform, phrase, e.kdfMetadata))
  }

  /** Every failure behind a passkey reads the same. */
  function UnlockWithPasskey(o: Owner, prf: Bytes, e: Envelope): Result<Unwrapped, Failure>
    requires e.PasskeyEnvelope?
  {
    var r := o.Unlocked(e.payload, PrfKey(prf));
    if r.Err? then Err(PasskeyUnlockFailed) else r
  }

  function CreateRecoveryEnvelope(o: Owner, vaultKey: VaultKey, phrase: Text, phraseLength: Option<nat>, salt: Bytes, iv: Bytes, blob: Option<Bytes>): Result<Envelope, Failure> {
    var spelled := o.platform.phraseForm(phrase);
    if spelled.None? then Err(InvalidPhrase)
    else
      var key := DeriveNew(o.platform, StringToBytes(spelled.value), salt);
      var payload := WrapVaultKey(o.platform.kw, vaultKey, key, o.scope, o.profile, iv, blob);
      if payload.Err? then Err(payload.error) else Ok(RecoveryEnvelope(payload.value, Serialize(salt), phraseLength))
  }

  function CreatePasswordEnvelope(o: Owner, vaultKey: VaultKey, password: Text, salt: Bytes, iv: Bytes, blob: Option<Bytes>): Result<Envelope, Failure> {
    var key := DeriveNew(o.platform, PasswordBytes(o.platform, password), salt);
    var payload := WrapVaultKey(o.platform.kw, vaultKey, key, o.scope, o.profile, iv, blob);
    if payload.Err? then Err(payload.error) else Ok(PasswordEnvelope(payload.value, Serialize(salt)))
  }

  function CreatePasskeyEnvelope(o: Owner, vaultKey: VaultKey, prf: Bytes, iv: Bytes, blob: Option<Bytes>): Result<Envelope, Failure> {
    var key := PrfKey(prf);
    if key.None? then Err(ShortPrfOutput)
    else
      var payload := WrapVaultKey(o.platform.kw, vaultKey, key.value, o.scope, o.profile, iv, blob);
      if payload.Err? then Err(payload.error) else Ok(PasskeyEnvelope(payload.value))
  }

  // ---------------------------------------------------------------- what unlocks

  /** A password unlocks exactly an Argon2id envelope that opens with the key of its normal form. */
  lemma PasswordUnlocksExactlyWhen(o: Owner, password: Text, e: Envelope, u: Unwrapped)
    requires e.PasswordEnvelope?
    ensures UnlockWithPassword(o, password, e) == Ok(u) <==>
            && e.kdfMetadata.kdf == Argon2id
            && DeriveFromMetadata(o.platform, StringToBytes(o.platform.nfkc(password)), e.kdfMetadata).Some?
            && Unlock(o.platform.kw, e.payload, DeriveFromMetadata(o.platform, StringToBytes(o.platform.nfkc(password)), e.kdfMetadata).value, o.scope, o.profile) == Ok(u)
  {
  }

  /** A phrase must be valid, and have as many words as expected, if any number is. */
  lemma PhraseUnlocksExactlyWhen(o: Owner, phrase: Text, e: Envelope, expectedWordCount: Option<nat>, u: Unwrapped)
    requires e.RecoveryEnvelope?
    ensures UnlockWithRecovery(o, phrase, e, expectedWordCount) == Ok(u) <==>
            && e.kdfMetadata.kdf == Argon2id && o.platform.phraseForm(phrase).Some?
            && (expectedWordCount.Some? ==> o.platform.wordCount(o.platform.phraseForm(phrase).value) == expectedWordCount.value)
            && DeriveFromMetadata(o.platform, StringToBytes(o.platform.phraseForm(phrase).value), e.kdfMetadata).Some?
            && Unlock(o.platform.kw, e.payload, DeriveFromMetadata(o.platform, StringToBytes(o.platform.phraseForm(phrase).value), e.kdfMetadata).value, o.scope, o.profile) == Ok(u)
  {
  }

  /** Why one that does not is refused, before anything is derived. */
  lemma PhraseRefusals(o: Owner, phrase: Text, e: Envelope, expectedWordCount: Option<nat>)
    requires e.RecoveryEnvelope?
    ensures o.platform.phraseForm(phrase).None? && (expectedWordCount.Some? || e.kdfMetadata.kdf == Argon2id) ==>
              UnlockWithRecovery(o, phrase, e, expectedWordCount) == Err(InvalidPhrase)
    ensures expectedWordCount.Some? && o.platform.phraseForm(phrase).Some? && o.platform.wordCount(o.platform.phraseForm(phrase).value) != expectedWordCount.value ==>
              UnlockWithRecovery(o, phrase, e, expectedWordCount) == Err(WordCountMismatch)
  {
  }

  /** A passkey unlocks with the first 32 bytes of its output, and tells nothing else apart. */
  lemma PasskeyUnlocksExactlyWhen(o: Owner, prf: Bytes, e: Envelope, u: Unwrapped)
    requires e.PasskeyEnvelope?
    ensures UnlockWithPasskey(o, prf, e) == Ok(u) <==> |prf| >= 32 && Unlock(o.platform.kw, e.payload, prf[..32], o.scope, o.profile) == Ok(u)
    ensures UnlockWithPasskey(o, prf, e).Err? ==> UnlockWithPasskey(o, prf, e) == Err(PasskeyUnlockFailed)
  {
  }

  // ---------------------------------------------------------------- a secret and its envelope

  datatype Secret = Password(text: Text) | Phrase(text: Text) | Prf(output: Bytes)

  /** An envelope together with the secret its holder knows. */
  datatype Slot = Slot(secret: Secret, envelope: Envelope)

  predicate Matches(s: Slot) {
    match s.secret
    case Password(_) => s.envelope.PasswordEnvelope?
    case Phrase(_) => s.envelope.RecoveryEnvelope?
    case Prf(_) => s.envelope.PasskeyEnvelope?
  }

  function UnlockSlot(o: Owner, s: Slot): Result<Unwrapped, Failure>
    requires Matches(s)
  {
    match s.secret
    case Password(text) => UnlockWithPassword(o, text, s.envelope)
    case Phrase(text) => UnlockWithRecovery(o, text, s.envelope, None)
    case Prf(output) => UnlockWithPasskey(o, output, s.envelope)
  }

  function SlotKey(o: Owner, s: Slot): Option<Key>
    requires Matches(s)
  {
    match s.secret
    case Password(text) => PasswordKey(o.platform, text, s.envelope.kdfMetadata)
    case Phrase(text) => PhraseKey(o.platform, text, s.envelope.kdfMetadata)
    case Prf(output) => PrfKey(output)
  }

  predicate Opens(o: Owner, s: Slot, vaultKey: Bytes) {
    Matches(s) && UnlockSlot(o, s).Ok? && UnlockSlot(o, s).value.vaultKey == vaultKey
  }

  /** It opens, and its ciphertext is sealed for the very record stored with it. */
  predicate Faithful(o: Owner, s: Slot, vaultKey: Bytes) {
    Opens(o, s, vaultKey) && SlotKey(o, s).Some? && Holds(o.platform.kw, s.envelope.payload, SlotKey(o, s).value, vaultKey)
  }

  /** The form everything made here has: recommended parameters, canonical record, a 40-byte wrapped key. */
  predicate Current(o: Owner, s: Slot, vaultKey: Bytes) {
    && Matches(s) && SlotKey(o, s).Some?
    && (!s.secret.Prf? ==> !UpgradeRecommended(s.envelope.kdfMetadata))
    && HoldsCurrent(o.platform.kw, s.envelope.payload, SlotKey(o, s).value, vaultKey, o.scope, o.profile)
  }

  lemma CanonicalUnlocks(kw: KeyWrap, p: Payload, key: Key, raw: Bytes, scope: VaultKeyScope, profile: Profile)
    requires Holds(kw, p, key, raw) && p.aad == CanonicalAad(scope, profile)
    ensures Unlock(kw, p, key, scope, profile) == UnwrapVaultKey(kw, p, key)
  {
  }

  lemma CurrentIsFaithful(o: Owner, s: Slot, vaultKey: Bytes)
    requires Current(o, s, vaultKey)
    ensures Faithful(o, s, vaultKey)
  {
    CanonicalUnlocks(o.platform.kw, s.envelope.payload, SlotKey(o, s).value, vaultKey, o.scope, o.profile);
  }

  // ---------------------------------------------------------------- a new envelope opens

  lemma NewPasswordKey(o: Owner, password: Text, salt: Bytes)
    requires SafeSalt(salt)
    ensures PasswordKey(o.platform, password, Serialize(salt)) == Some(DeriveNew(o.platform, PasswordBytes(o.platform, password), salt))
  {
    DerivedAgain(o.platform, PasswordBytes(o.platform, password), salt);
  }

  lemma NewPhraseKey(o: Owner, phrase: Text, salt: Bytes)
    requires SafeSalt(salt) && o.platform.phraseForm(phrase).Some?
    ensures PhraseKey(o.platform, phrase, Serialize(salt)) == Some(DeriveNew(o.platform, StringToBytes(o.platform.phraseForm(phrase).value), salt))
  {
    DerivedAgain(o.platform, StringToBytes(o.platform.phraseForm(phrase).value), salt);
  }

  /** A slot holding the key under its own derived key, in canonical form, opens. */
  lemma CanonicalSlotOpens(o: Owner, s: Slot, vaultKey: Bytes)
    requires Matches(s) && SlotKey(o, s).Some? && Holds(o.platform.kw, s.envelope.payload, SlotKey(o, s).value, vaultKey)
    requires s.envelope.payload.aad == CanonicalAad(o.scope, o.profile)
    requires !s.secret.Prf? ==> s.envelope.kdfMetadata.kdf == Argon2id
    ensures Faithful(o, s, vaultKey)
  {
    CanonicalUnlocks(o.platform.kw, s.envelope.payload, SlotKey(o, s).value, vaultKey, o.scope, o.profile);
  }

  /** A first recovery envelope is made exactly of an exportable key under a valid phrase, and opens with it. */
  lemma CreatesRecoveryExactlyWhen(o: Owner, vaultKey: VaultKey, phrase: Text, phraseLength: Option<nat>, salt: Bytes, iv: Bytes)
    requires o.Lawful() && |vaultKey.raw| == 32 && |iv| == MAX_IV_BYTES && SafeSalt(salt)
    ensures var r := CreateRecoveryEnvelope(o, vaultKey, phrase, phraseLength, salt, iv, None);
            && (r.Ok? <==> vaultKey.extractable && o.platform.phraseForm(phrase).Some?)
            && (r.Ok? ==> r.value.RecoveryEnvelope? && r.value.phraseLength == phraseLength && Faithful(o, Slot(Phrase(phrase), r.value), vaultKey.raw))
  {
    var spelled := o.platform.phraseForm(phrase);
    if spelled.Some? {
      var key := DeriveNew(o.platform, StringToBytes(spelled.value), salt);
      WrappingHoldsTheKey(o.platform.kw, vaultKey, key, o.scope, o.profile, iv, None);
      NewPhraseKey(o, phrase, salt);
      var r := CreateRecoveryEnvelope(o, vaultKey, phrase, phraseLength, salt, iv, None);
      if r.Ok? {
        CanonicalSlotOpens(o, Slot(Phrase(phrase), r.value), vaultKey.raw);
      }
    }
  }

  /** A first passkey envelope, of an exportable key and at least 32 bytes of output. */
  lemma CreatesPasskeyExactlyWhen(o: Owner, vaultKey: VaultKey, prf: Bytes, iv: Bytes)
    requires o.Lawful() && |vaultKey.raw| == 32 && |iv| == MAX_IV_BYTES
    ensures var r := CreatePasskeyEnvelope(o, vaultKey, prf, iv, None);
            && (r.Ok? <==> vaultKey.extractable && |prf| >= 32)
            && (r.Ok? ==> r.value.PasskeyEnvelope? && Faithful(o, Slot(Prf(prf), r.value), vaultKey.raw))
  {
    if |prf| >= 32 {
      WrappingHoldsTheKey(o.platform.kw, vaultKey, prf[..32], o.scope, o.profile, iv, None);
      var r := CreatePasskeyEnvelope(o, vaultKey, prf, iv, None);
      if r.Ok? {
        CanonicalSlotOpens(o, Slot(Prf(prf), r.value), vaultKey.raw);
      }
    }
  }

  /** The first envelope of an exportable key opens with the password it was made for. */
  lemma CreatedPasswordEnvelopeOpens(o: Owner, vaultKey: VaultKey, password: Text, salt: Bytes, iv: Bytes)
    requires o.Lawful() && |vaultKey.raw| == 32 && vaultKey.extractable && |iv| == MAX_IV_BYTES && SafeSalt(salt)
    ensures var r := CreatePasswordEnvelope(o, vaultKey, password, salt, iv, None);
            r.Ok? && Faithful(o, Slot(Password(password), r.value), vaultKey.raw)
  {
    var key := DeriveNew(o.platform, PasswordBytes(o.platform, password), salt);
    WrappingHoldsTheKey(o.platform.kw, vaultKey, key, o.scope, o.profile, iv, None);
    NewPasswordKey(o, password, salt);
    CanonicalSlotOpens(o, Slot(Password(password), CreatePasswordEnvelope(o, vaultKey, password, salt, iv, None).value), vaultKey.raw);
  }
}
