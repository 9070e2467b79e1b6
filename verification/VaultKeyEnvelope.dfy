/**
 User vault keys and the inner blobs that carry them inside an encrypted field
 (src/crypto/user-vault-key-crypto.ts, src/keys/user-vault-key.ts, src/crypto/vault-key-envelope.ts).
 */
module VaultKeyEnvelope {
  import opened Prelude
  import opened Unicode
  import opened Base64Url
  import opened VaultAad
  import opened AesGcm

  /** A `CryptoKey` handle of a vault key. */
  datatype VaultKey = VaultKey(raw: Bytes, extractable: bool)

  predicate IsKeyLength(n: nat) {
    n == 16 || n == 24 || n == 32
  }

  /** The platform's AES-KW: key data and key-encryption key to wrapped bytes, and back. */
  datatype KeyWrap = KeyWrap(wrap: (Bytes, Bytes) -> Bytes, unwrap: (Bytes, Bytes) -> Option<Bytes>) {
    /** Section 2.2 of RFC 3394: unwrapping is the exact inverse of wrapping, which adds eight bytes. */
    ghost predicate Lawful() {
      && (forall raw: Bytes, kek: Bytes :: IsKeyLength(|raw|) ==> Wraps(raw, kek))
      && (forall blob: Bytes, kek: Bytes :: unwrap(blob, kek).Some? ==> Unwraps(blob, kek))
    }

    ghost predicate Wraps(raw: Bytes, kek: Bytes) {
      |wrap(raw, kek)| == |raw| + 8 && unwrap(wrap(raw, kek), kek) == Some(raw)
    }

    ghost predicate Unwraps(blob: Bytes, kek: Bytes)
      requires unwrap(blob, kek).Some?
    {
      IsKeyLength(|unwrap(blob, kek).value|) && blob == wrap(unwrap(blob, kek).value, kek)
    }
  }

  /** A wrapping that meets the laws: eight zero bytes are put at the end. */
  function Padded(raw: Bytes): Bytes {
    raw + [0, 0, 0, 0, 0, 0, 0, 0]
  }

  function Unpadded(blob: Bytes): Option<Bytes> {
    if |blob| >= 8 && IsKeyLength(|blob| - 8) && blob == Padded(blob[..|blob| - 8]) then Some(blob[..|blob| - 8]) else None
  }

  lemma LawsAreSatisfiable()
    ensures KeyWrap((raw: Bytes, kek: Bytes) => Padded(raw), (blob: Bytes, kek: Bytes) => Unpadded(blob)).Lawful()
  {
    var kw := KeyWrap((raw: Bytes, kek: Bytes) => Padded(raw), (blob: Bytes, kek: Bytes) => Unpadded(blob));
    forall raw: Bytes, kek: Bytes | IsKeyLength(|raw|)
      ensures kw.Wraps(raw, kek)
    {
      assert Padded(raw)[..|raw|] == raw;
    }
  }

  datatype Failure =
    | FieldNotDecrypted(error: DecryptError)
    | NotBase64Url
    | InnerNotUnwrapped
    | KeyMismatch
    | NotExtractable
    | ScopeMismatch
    | FieldMismatch
    | ContextMismatch
    | InvalidKdfMetadata
    | InvalidPhrase
    | WordCountMismatch
    | ConfirmationMismatch
    | PasswordUnchanged
    | ShortPrfOutput
    | PasskeyUnlockFailed
    | Cancelled

  // ---------------------------------------------------------------- comparing keys

  const PROBE: Bytes := [
    0x76, 0x61, 0x75, 0x6C, 0x74, 0x2D, 0x63, 0x6F, 0x72, 0x65, 0x2D, 0x75, 0x76, 0x6B, 0x2D,
    0x65, 0x71, 0x75, 0x61, 0x6C, 0x69, 0x74, 0x79, 0x3A, 0x76, 0x31] // "vault-core-uvk-equality:v1"
  const PROBE_IV: Bytes := [0, 0, 0, 0, 0, 0, 0, 0, 0, 0, 0, 0]

  /** Exported bytes are compared when both keys export; else one key must open what the other sealed. */
  predicate UserVaultKeysEqual(a: VaultKey, b: VaultKey)
    ensures UserVaultKeysEqual(a, b) <==> a.raw == b.raw
  {
    if a.extractable && b.extractable then a.raw == b.raw
    else Open(Sealed(a.raw, PROBE_IV, [], PROBE), b.raw, PROBE_IV, []) == Some(PROBE)
  }

  // ---------------------------------------------------------------- inner blobs

  const LEGACY_RAW_BYTES := 32

  /** 32 bytes are a legacy raw key; anything else must unwrap. */
  function OpenInner(kw: KeyWrap, inner: Bytes, kek: Bytes): Option<Bytes> {
    if |inner| == LEGACY_RAW_BYTES then Some(inner) else kw.unwrap(inner, kek)
  }

  /** A wrapped key opens again exactly when it is not a 192-bit one, whose wrapped form looks like a raw key. */
  lemma WrappedOpensExactlyWhen(kw: KeyWrap, raw: Bytes, kek: Bytes)
    requires kw.Lawful() && (|raw| == 16 || |raw| == 24 || |raw| == 32)
    ensures OpenInner(kw, kw.wrap(raw, kek), kek) == Some(raw) <==> |raw| != 24
  {
    assert kw.Wraps(raw, kek);
  }

  lemma OpenedInnerIsShort(kw: KeyWrap, inner: Bytes, kek: Bytes)
    requires kw.Lawful() && OpenInner(kw, inner, kek).Some?
    ensures |inner| <= 40 && IsKeyLength(|OpenInner(kw, inner, kek).value|)
  {
    if |inner| != LEGACY_RAW_BYTES {
      assert kw.Unwraps(inner, kek);
      assert kw.Wraps(kw.unwrap(inner, kek).value, kek);
    }
  }

  function MaterializeInner(kw: KeyWrap, vaultKey: VaultKey, kek: Bytes, blob: Option<Bytes>): Result<Bytes, Failure> {
    if blob.Some? then
      var raw := OpenInner(kw, blob.value, kek);
      if raw.None? then Err(InnerNotUnwrapped)
      else if !UserVaultKeysEqual(VaultKey(raw.value, false), vaultKey) then Err(KeyMismatch)
      else Ok(blob.value)
    else if vaultKey.extractable then Ok(kw.wrap(vaultKey.raw, kek))
    else Err(NotExtractable)
  }

  function RewrapInner(kw: KeyWrap, inner: Bytes, oldKek: Bytes, newKek: Bytes, session: VaultKey): Result<Bytes, Failure> {
    var raw := OpenInner(kw, inner, oldKek);
    if raw.None? then Err(InnerNotUnwrapped)
    else if !UserVaultKeysEqual(VaultKey(raw.value, true), session) then Err(KeyMismatch)
    else Ok(kw.wrap(raw.value, newKek))
  }

  /** Re-wrapping keeps the key, ends every legacy form, and yields nothing for another session's key. */
  lemma RewrapKeepsTheKey(kw: KeyWrap, inner: Bytes, oldKek: Bytes, newKek: Bytes, session: VaultKey)
    requires kw.Lawful() && |session.raw| == 32
    ensures RewrapInner(kw, inner, oldKek, newKek, session).Ok? <==> OpenInner(kw, inner, oldKek) == Some(session.raw)
    ensures var r := RewrapInner(kw, inner, oldKek, newKek, session);
            r.Ok? ==> |r.value| == 40 && OpenInner(kw, r.value, newKek) == Some(session.raw)
  {
    assert kw.Wraps(session.raw, newKek);
  }

  // ---------------------------------------------------------------- envelopes

  datatype VaultKeyScope = VaultKeyScope(userId: Text, resourceId: Text)

  /** Spreading `{ userId, resourceId, field }` and then `context` gives this order. */
  const WRAP_ORDER := LEGACY_ORDER

  function EnvelopeScope(scope: VaultKeyScope): Scope {
    Scope(scope.userId, scope.resourceId, VaultKeyField, None)
  }

  /** The one record every envelope made here is sealed for. */
  function CanonicalAad(scope: VaultKeyScope, profile: Profile): Aad {
    Aad(scope.userId, scope.resourceId, VaultKeyField, Given(profile.aadContextEnvelope))
  }

  function EncryptInner(inner: Bytes, key: Key, scope: VaultKeyScope, profile: Profile, iv: Bytes): Payload {
    EncryptField(BytesToBase64Url(inner), key, EnvelopeScope(scope), profile, iv, WRAP_ORDER)
  }

  /** A derived key pair is one string of bytes imported twice, for AES-GCM and for AES-KW. */
  function WrapVaultKey(kw: KeyWrap, vaultKey: VaultKey, key: Key, scope: VaultKeyScope, profile: Profile, iv: Bytes, blob: Option<Bytes>): Result<Payload, Failure> {
    var inner := MaterializeInner(kw, vaultKey, key, blob);
    if inner.Err? then Err(inner.error) else Ok(EncryptInner(inner.value, key, scope, profile, iv))
  }

  function ExtractInner(p: Payload, key: Key): Result<Bytes, Failure> {
    var text := Decrypted(p, key);
    if text.Err? then Err(FieldNotDecrypted(text.error))
    else
      var inner := Base64UrlToBytes(text.value);
      if inner.None? then Err(NotBase64Url) else Ok(inner.value)
  }

  /** The bytes of the non-extractable handle that unlocking gives, and the blob it came in. */
  datatype Unwrapped = Unwrapped(vaultKey: Bytes, inner: Bytes)

  function UnwrapVaultKey(kw: KeyWrap, p: Payload, key: Key): Result<Unwrapped, Failure> {
    var inner := ExtractInner(p, key);
    if inner.Err? then Err(inner.error)
    else
      var raw := OpenInner(kw, inner.value, key);
      if raw.None? then Err(InnerNotUnwrapped) else Ok(Unwrapped(raw.value, inner.value))
  }

  function RewrapEncryptedVaultKey(kw: KeyWrap, p: Payload, oldKey: Key, newKey: Key, session: VaultKey, scope: VaultKeyScope, profile: Profile, iv: Bytes): Result<Payload, Failure> {
    var inner := ExtractInner(p, oldKey);
    if inner.Err? then Err(inner.error)
    else
      var rewrapped := RewrapInner(kw, inner.value, oldKey, newKey, session);
      if rewrapped.Err? then Err(rewrapped.error) else Ok(EncryptInner(rewrapped.value, newKey, scope, profile, iv))
  }

  lemma WrapOrderIsOrder()
    ensures IsOrder(WRAP_ORDER)
  {
  }

  /** What goes in comes out, for that record and that key. */
  lemma EncryptedInnerComesBack(inner: Bytes, key: Key, scope: VaultKeyScope, profile: Profile, iv: Bytes)
    requires |iv| == MAX_IV_BYTES && |inner| <= 49_152
    ensures ExtractInner(EncryptInner(inner, key, scope, profile, iv), key) == Ok(inner)
    ensures EncryptInner(inner, key, scope, profile, iv).aad == CanonicalAad(scope, profile)
    ensures EncryptInner(inner, key, scope, profile, iv).order == WRAP_ORDER
  {
    WrapOrderIsOrder();
    Base64UrlTextComesBack(inner, key, EnvelopeScope(scope), profile, iv, WRAP_ORDER);
    RoundTrip(inner);
  }

  /** A good envelope: its stored record decrypts, and the inner blob in it opens to the key. */
  predicate Holds(kw: KeyWrap, p: Payload, key: Key, raw: Bytes) {
    UnwrapVaultKey(kw, p, key).Ok? && UnwrapVaultKey(kw, p, key).value.vaultKey == raw
  }

  /** A good envelope in the current form. */
  predicate HoldsCurrent(kw: KeyWrap, p: Payload, key: Key, raw: Bytes, scope: VaultKeyScope, profile: Profile) {
    && Holds(kw, p, key, raw)
    && ExtractInner(p, key).Ok? && |ExtractInner(p, key).value| == 40
    && p.aad == CanonicalAad(scope, profile) && p.order == WRAP_ORDER
  }

  lemma EncryptedInnerHolds(kw: KeyWrap, inner: Bytes, key: Key, raw: Bytes, scope: VaultKeyScope, profile: Profile, iv: Bytes)
    requires kw.Lawful() && |iv| == MAX_IV_BYTES && OpenInner(kw, inner, key) == Some(raw)
    ensures Holds(kw, EncryptInner(inner, key, scope, profile, iv), key, raw)
    ensures |inner| == 40 ==> HoldsCurrent(kw, EncryptInner(inner, key, scope, profile, iv), key, raw, scope, profile)
  {
    OpenedInnerIsShort(kw, inner, key);
    EncryptedInnerComesBack(inner, key, scope, profile, iv);
  }

  /** Wrapping succeeds exactly for an exportable key or a blob that opens to the key, and then holds it. */
  lemma WrappingHoldsTheKey(kw: KeyWrap, vaultKey: VaultKey, key: Key, scope: VaultKeyScope, profile: Profile, iv: Bytes, blob: Option<Bytes>)
    requires kw.Lawful() && |vaultKey.raw| == 32 && |iv| == MAX_IV_BYTES
    ensures WrapVaultKey(kw, vaultKey, key, scope, profile, iv, blob).Ok? <==>
            if blob.Some? then OpenInner(kw, blob.value, key) == Some(vaultKey.raw) else vaultKey.extractable
    ensures var r := WrapVaultKey(kw, vaultKey, key, scope, profile, iv, blob);
            r.Ok? ==> Holds(kw, r.value, key, vaultKey.raw) && r.value.aad == CanonicalAad(scope, profile) && r.value.order == WRAP_ORDER
    ensures var r := WrapVaultKey(kw, vaultKey, key, scope, profile, iv, blob);
            r.Ok? && (blob.Some? ==> |blob.value| == 40) ==> HoldsCurrent(kw, r.value, key, vaultKey.raw, scope, profile)
  {
    assert kw.Wraps(vaultKey.raw, key);
    var inner := MaterializeInner(kw, vaultKey, key, blob);
    if inner.Ok? {
      EncryptedInnerHolds(kw, inner.value, key, vaultKey.raw, scope, profile, iv);
      OpenedInnerIsShort(kw, inner.value, key);
      EncryptedInnerComesBack(inner.value, key, scope, profile, iv);
    }
  }

  /** Why wrapping is refused: nothing to wrap from, a blob that does not open, or one of another key. */
  lemma WrappingRefusedAs(kw: KeyWrap, vaultKey: VaultKey, key: Key, scope: VaultKeyScope, profile: Profile, iv: Bytes, blob: Option<Bytes>)
    ensures var r := WrapVaultKey(kw, vaultKey, key, scope, profile, iv, blob);
            && (r == Err(NotExtractable) <==> blob.None? && !vaultKey.extractable)
            && (r == Err(InnerNotUnwrapped) <==> blob.Some? && OpenInner(kw, blob.value, key).None?)
            && (r == Err(KeyMismatch) <==> blob.Some? && OpenInner(kw, blob.value, key).Some? && OpenInner(kw, blob.value, key) != Some(vaultKey.raw))
  {
  }

  /**
   Re-wrapping an envelope succeeds exactly when its stored record decrypts under the old key to an
   inner blob of the session's key. It then holds that key under the new one, in the current form.
   */
  lemma RewrapsExactlyWhen(kw: KeyWrap, p: Payload, oldKey: Key, newKey: Key, session: VaultKey, scope: VaultKeyScope, profile: Profile, iv: Bytes)
    requires kw.Lawful() && |session.raw| == 32 && |iv| == MAX_IV_BYTES
    ensures RewrapEncryptedVaultKey(kw, p, oldKey, newKey, session, scope, profile, iv).Ok? <==> Holds(kw, p, oldKey, session.raw)
    ensures var r := RewrapEncryptedVaultKey(kw, p, oldKey, newKey, session, scope, profile, iv);
            r.Ok? ==> HoldsCurrent(kw, r.value, newKey, session.raw, scope, profile)
  {
    var inner := ExtractInner(p, oldKey);
    if inner.Ok? {
      RewrapKeepsTheKey(kw, inner.value, oldKey, newKey, session);
      var rewrapped := RewrapInner(kw, inner.value, oldKey, newKey, session);
      if rewrapped.Ok? {
        EncryptedInnerHolds(kw, rewrapped.value, newKey, session.raw, scope, profile, iv);
      }
    }
  }
}
