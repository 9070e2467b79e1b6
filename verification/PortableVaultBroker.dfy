/**
 Unlocking through a broker: a one-use session that unseals the portable unlock key, and the
 cache that is filled only once the broker's receipt is accepted
 (src/browser/portable-vault-broker.ts, src/crypto/portable-vault-broker-envelope.ts).
 */
module PortableVaultBroker {
  import opened Prelude
  import opened Unicode
  import opened JsonText
  import opened Base64Url
  import opened VaultAad
  import opened AesGcm
  import opened VaultKeyEnvelope
  import opened AadRouting
  import opened SensitiveBuffers
  import opened InnerKeyMaterialCache

  type PrivateKey = nat

  datatype SealedPuk = SealedPuk(brokerPublicKey: nat, salt: Text, iv: Text, ciphertext: Text, context: Text)

  /**
   The platform: ECDH shared bits (none for a bad public key), HKDF and AES-GCM opening with salt,
   info, IV and ciphertext, and the two keys derived from a portable unlock key.
   */
  datatype BrokerPlatform = BrokerPlatform(
    kw: KeyWrap,
    sharedBits: (PrivateKey, nat) -> Option<Bytes>,
    open: (Bytes, Bytes, Bytes, Bytes, Bytes) -> Option<Bytes>,
    derive: Bytes -> DerivedKeys)

  const PUK_BYTES := 32
  const ECDH_SALT_BYTES := 32
  const GCM_IV_BYTES := 12
  const SEALED_PUK_BYTES := PUK_BYTES + 16

  /** "vault-broker:puk-seal:v1:" */
  const SEAL_PREFIX: Text := [
    0x76, 0x61, 0x75, 0x6C, 0x74, 0x2D, 0x62, 0x72, 0x6F, 0x6B, 0x65, 0x72, 0x3A,
    0x70, 0x75, 0x6B, 0x2D, 0x73, 0x65, 0x61, 0x6C, 0x3A, 0x76, 0x31, 0x3A]

  type Decoding = Result<Bytes, SizeError>

  /** What the fields of a sealed key decode to, and the HKDF info its context gives. */
  datatype Fields = Fields(salt: Decoding, iv: Decoding, ciphertext: Decoding, info: Bytes) {
    /** Each has exactly the right size. */
    predicate Fit() {
      && salt.Ok? && |salt.value| == ECDH_SALT_BYTES
      && iv.Ok? && |iv.value| == GCM_IV_BYTES
      && ciphertext.Ok? && |ciphertext.value| == SEALED_PUK_BYTES
    }
  }

  function FieldsOf(sealed: SealedPuk): Fields {
    Fields(
      DecodeBounded(sealed.salt, ECDH_SALT_BYTES),
      DecodeBounded(sealed.iv, GCM_IV_BYTES),
      DecodeBounded(sealed.ciphertext, SEALED_PUK_BYTES),
      StringToBytes(SEAL_PREFIX + sealed.context))
  }

  function Opened(platform: BrokerPlatform, sharedBits: Bytes, f: Fields): Option<Bytes> {
    if !f.Fit() then None
    else
      var puk := platform.open(sharedBits, f.salt.value, f.info, f.iv.value, f.ciphertext.value);
      if puk.Some? && |puk.value| == PUK_BYTES then puk else None
  }

  function UnsealedPuk(platform: BrokerPlatform, privateKey: PrivateKey, sealed: SealedPuk): Option<Bytes> {
    var shared := platform.sharedBits(privateKey, sealed.brokerPublicKey);
    if shared.None? then None else Opened(platform, shared.value, FieldsOf(sealed))
  }

  /**
   A seal whose fields are properly encoded opens to a key exactly when they have 32, 12 and 48 bytes
   and the cipher, bound to "vault-broker:puk-seal:v1:" and the seal's own context, gives that key of
   32 bytes.
   */
  lemma UnsealsExactlyWhen(platform: BrokerPlatform, privateKey: PrivateKey, sealed: SealedPuk, salt: Bytes, iv: Bytes, ciphertext: Bytes, puk: Bytes)
    requires sealed.salt == BytesToBase64Url(salt) && sealed.iv == BytesToBase64Url(iv) && sealed.ciphertext == BytesToBase64Url(ciphertext)
    ensures UnsealedPuk(platform, privateKey, sealed) == Some(puk) <==>
            && |salt| == 32 && |iv| == 12 && |ciphertext| == 48 && |puk| == 32
            && platform.sharedBits(privateKey, sealed.brokerPublicKey).Some?
            && platform.open(platform.sharedBits(privateKey, sealed.brokerPublicKey).value, salt, StringToBytes(SEAL_PREFIX + sealed.context), iv, ciphertext) == Some(puk)
  {
    FitExactlyWhen(sealed, salt, iv, ciphertext);
    var f := FieldsOf(sealed);
    var shared := platform.sharedBits(privateKey, sealed.brokerPublicKey);
    assert f.info == StringToBytes(SEAL_PREFIX + sealed.context);
    assert UnsealedPuk(platform, privateKey, sealed) == if shared.None? then None else Opened(platform, shared.value, f);
    if shared.Some? {
      OpenedExactlyWhen(platform, shared.value, f, puk);
    }
  }

  lemma OpenedExactlyWhen(platform: BrokerPlatform, sharedBits: Bytes, f: Fields, puk: Bytes)
    ensures Opened(platform, sharedBits, f) == Some(puk) <==>
            f.Fit() && |puk| == 32 && platform.open(sharedBits, f.salt.value, f.info, f.iv.value, f.ciphertext.value) == Some(puk)
  {
  }

  lemma FitExactlyWhen(sealed: SealedPuk, salt: Bytes, iv: Bytes, ciphertext: Bytes)
    requires sealed.salt == BytesToBase64Url(salt) && sealed.iv == BytesToBase64Url(iv) && sealed.ciphertext == BytesToBase64Url(ciphertext)
    ensures var f := FieldsOf(sealed);
            && (f.Fit() <==> |salt| == 32 && |iv| == 12 && |ciphertext| == 48)
            && (f.Fit() ==> f.salt == Ok(salt) && f.iv == Ok(iv) && f.ciphertext == Ok(ciphertext))
  {
    BoundedAcceptsExactly(salt, ECDH_SALT_BYTES);
    BoundedAcceptsExactly(iv, GCM_IV_BYTES);
    BoundedAcceptsExactly(ciphertext, SEALED_PUK_BYTES);
  }

  lemma SealPrefixIs()
    ensures Spells(SEAL_PREFIX, "vault-broker:puk-seal:v1:")
  {
  }

  /** No two contexts share what a seal is bound to. */
  lemma SealBindsContext(a: SealedPuk, b: SealedPuk)
    requires WellFormed(a.context) && WellFormed(b.context)
    ensures FieldsOf(a).info == FieldsOf(b).info <==> a.context == b.context
  {
    if FieldsOf(a).info == FieldsOf(b).info {
      PlainIsWellFormed(SEAL_PREFIX);
      WellFormedConcat(SEAL_PREFIX, a.context);
      WellFormedConcat(SEAL_PREFIX, b.context);
      EncodingIsInjective(SEAL_PREFIX + a.context, SEAL_PREFIX + b.context);
      assert a.context == (SEAL_PREFIX + a.context)[|SEAL_PREFIX|..];
    }
  }

  // ---------------------------------------------------------------- unsealing

  method DecodeField(d: Decoding) returns (a: Option<Buffer>)
    ensures a.Some? <==> d.Ok?
    ensures a.Some? ==> fresh(a.value) && a.value[..] == d.value
    ensures forall b: Buffer :: fresh(b) && b.Length > 0 ==> a == Some(b)
  {
    if d.Err? {
      return None;
    }
    var buffer := NewBuffer(d.value);
    return Some(buffer);
  }

  /** What unsealing allocates before the key itself. */
  datatype Scratch = Scratch(salt: Option<Buffer>, iv: Option<Buffer>, ciphertext: Option<Buffer>, info: Option<Buffer>) {
    function Buffers(): set<Buffer> {
      Of(salt) + Of(iv) + Of(ciphertext) + Of(info)
    }
  }

  function Of(a: Option<Buffer>): set<Buffer> {
    if a.Some? then {a.value} else {}
  }

  method FillIfAny(a: Option<Buffer>)
    modifies Of(a)
    ensures a.Some? ==> Zeroed(a.value)
    ensures forall b: Buffer :: fresh(b) && b.Length > 0 ==> Zeroed(b)
  {
    if a.Some? {
      Fill(a.value);
    }
  }

  /** The `finally` block of unsealPuk. */
  method FillScratch(used: Scratch)
    modifies used.Buffers()
    ensures forall b <- used.Buffers() :: Zeroed(b)
    ensures forall b: Buffer :: fresh(b) && b.Length > 0 ==> Zeroed(b)
  {
    FillIfAny(used.salt);
    FillIfAny(used.iv);
    FillIfAny(used.ciphertext);
    FillIfAny(used.info);
  }

  /** The fields one after the other, up to the first that does not decode. */
  method DecodeFields(f: Fields) returns (fit: bool, used: Scratch)
    ensures fit <==> f.Fit()
    ensures fit ==>
              && used.salt.Some? && used.salt.value[..] == f.salt.value
              && used.iv.Some? && used.iv.value[..] == f.iv.value
              && used.ciphertext.Some? && used.ciphertext.value[..] == f.ciphertext.value
    ensures used.info.None? && forall b <- used.Buffers() :: fresh(b)
    ensures forall b: Buffer :: fresh(b) && b.Length > 0 ==> b in used.Buffers()
  {
    var salt := DecodeField(f.salt);
    if salt.None? {
      return false, Scratch(None, None, None, None);
    }
    var iv := DecodeField(f.iv);
    if iv.None? {
      return false, Scratch(salt, None, None, None);
    }
    var ciphertext := DecodeField(f.ciphertext);
    if ciphertext.None? {
      return false, Scratch(salt, iv, None, None);
    }
    fit := salt.value.Length == ECDH_SALT_BYTES && iv.value.Length == GCM_IV_BYTES && ciphertext.value.Length == SEALED_PUK_BYTES;
    used := Scratch(salt, iv, ciphertext, None);
  }

  /** The `try` block of unsealPuk. */
  method OpenSealed(platform: BrokerPlatform, sharedBits: Buffer, f: Fields) returns (r: Option<Buffer>, used: Scratch)
    ensures r.Some? <==> Opened(platform, sharedBits[..], f).Some?
    ensures r.Some? ==> fresh(r.value) && Some(r.value[..]) == Opened(platform, sharedBits[..], f)
    ensures forall b <- used.Buffers() :: fresh(b) && Some(b) != r
    ensures forall b: Buffer :: fresh(b) && b.Length > 0 ==> Zeroed(b) || Some(b) == r || b in used.Buffers()
  {
    var fit;
    fit, used := DecodeFields(f);
    if !fit {
      return None, used;
    }
    var info := NewBuffer(f.info);
    r := OpenPlaintext(platform, sharedBits[..], used.salt.value[..], info[..], used.iv.value[..], used.ciphertext.value[..]);
    used := used.(info := Some(info));
  }

  method OpenPlaintext(platform: BrokerPlatform, sharedBits: Bytes, salt: Bytes, info: Bytes, iv: Bytes, ciphertext: Bytes) returns (r: Option<Buffer>)
    ensures var puk := platform.open(sharedBits, salt, info, iv, ciphertext);
            && (r.Some? <==> puk.Some? && |puk.value| == PUK_BYTES)
            && (r.Some? ==> fresh(r.value) && r.value[..] == puk.value)
    ensures forall b: Buffer :: fresh(b) && b.Length > 0 ==> Zeroed(b) || Some(b) == r
  {
    var opening := platform.open(sharedBits, salt, info, iv, ciphertext);
    if opening.None? {
      return None;
    }
    var plaintext := NewBuffer(opening.value);
    if plaintext.Length != PUK_BYTES {
      Fill(plaintext);
      return None;
    }
    return Some(plaintext);
  }

  method UnsealPuk(platform: BrokerPlatform, privateKey: PrivateKey, sealed: SealedPuk) returns (r: Option<Buffer>)
    ensures r.Some? <==> UnsealedPuk(platform, privateKey, sealed).Some?
    ensures r.Some? ==> fresh(r.value) && Some(r.value[..]) == UnsealedPuk(platform, privateKey, sealed)
    ensures forall b: Buffer :: fresh(b) && b.Length > 0 ==> Zeroed(b) || Some(b) == r
  {
    var shared := platform.sharedBits(privateKey, sealed.brokerPublicKey);
    if shared.None? {
      return None;
    }
    var sharedBits := NewBuffer(shared.value);
    var used;
    r, used := OpenSealed(platform, sharedBits, FieldsOf(sealed));
    Fill(sharedBits);
    FillScratch(used);
  }

  class UnlockSession {
    var privateKey: Option<PrivateKey>

    constructor (key: PrivateKey)
      ensures privateKey == Some(key)
      ensures forall b: Buffer :: fresh(b) && b.Length > 0 ==> Zeroed(b)
    {
      privateKey := Some(key);
    }

    method Dispose()
      modifies this
      ensures privateKey.None?
      ensures forall b: Buffer :: fresh(b) && b.Length > 0 ==> Zeroed(b)
    {
      privateKey := None;
    }

    /** The private key is dropped before it is used. */
    method Unseal(platform: BrokerPlatform, sealed: SealedPuk) returns (r: Option<Buffer>)
      modifies this
      ensures privateKey.None?
      ensures r.Some? <==> old(privateKey).Some? && UnsealedPuk(platform, old(privateKey).value, sealed).Some?
      ensures r.Some? ==> fresh(r.value) && Some(r.value[..]) == UnsealedPuk(platform, old(privateKey).value, sealed)
      ensures forall b: Buffer :: fresh(b) && b.Length > 0 ==> Zeroed(b) || Some(b) == r
    {
      if privateKey.None? {
        return None;
      }
      var oneUseKey := privateKey.value;
      privateKey := None;
      r := UnsealPuk(platform, oneUseKey, sealed);
    }

    /** Of any number of attempts the first succeeds if its seal opens, and no other. */
    method UnsealAll(platform: BrokerPlatform, attempts: seq<SealedPuk>) returns (rs: seq<Option<Buffer>>)
      modifies this
      ensures |rs| == |attempts|
      ensures forall i :: 0 <= i < |rs| ==>
                (rs[i].Some? <==> i == 0 && old(privateKey).Some? && UnsealedPuk(platform, old(privateKey).value, attempts[0]).Some?)
    {
      rs := [];
      for i := 0 to |attempts|
        invariant |rs| == i
        invariant i == 0 ==> privateKey == old(privateKey)
        invariant i > 0 ==> privateKey.None?
        invariant forall j :: 0 <= j < i ==>
                    (rs[j].Some? <==> j == 0 && old(privateKey).Some? && UnsealedPuk(platform, old(privateKey).value, attempts[0]).Some?)
      {
        var r := Unseal(platform, attempts[i]);
        rs := rs + [r];
      }
    }
  }

  // ---------------------------------------------------------------- unlocking

  datatype Response = Response(encryptedVaultKey: Payload, sealedPuk: SealedPuk, requestId: Text, completionReceipt: Text)

  datatype Status =
    | Unlocked(vaultKey: Bytes, requestId: Text, completionReceipt: Text)
    | MalformedResponse
    | PukUnsealFailed
    | ReceiptRejected
    | UnwrapFailed
    | Threw

  /** Strict: the record must be the canonical one of the expected scope. */
  function Restored(platform: BrokerPlatform, p: Payload, puk: Bytes, expected: VaultKeyScope, profile: Profile): Result<Unwrapped, Failure> {
    var failure := VaultKeyAadFailure(expected, p.aad, profile);
    if failure.Some? then Err(failure.value) else UnwrapWithKeys(platform.kw, p, platform.derive(puk))
  }

  /**
   A response restores a key exactly when its stored record is the canonical one of the expected scope
   and profile, decrypts as stored under the encryption key, and holds the base64url text of a blob
   that opens to that key under the wrapping key.
   */
  lemma RestoresExactlyWhen(platform: BrokerPlatform, p: Payload, puk: Bytes, expected: VaultKeyScope, profile: Profile, vaultKey: Bytes, inner: Bytes)
    ensures Restored(platform, p, puk, expected, profile) == Ok(Unwrapped(vaultKey, inner)) <==>
            && p.aad == Aad(expected.userId, expected.resourceId, VaultKeyField, Given(profile.aadContextEnvelope))
            && Decrypted(p, platform.derive(puk).encryptionKey).Ok?
            && Base64UrlToBytes(Decrypted(p, platform.derive(puk).encryptionKey).value) == Some(inner)
            && OpenInner(platform.kw, inner, platform.derive(puk).wrappingKey) == Some(vaultKey)
  {
  }

  /** How far the session allows the call: at its start, when caching, and at its end. */
  datatype Allowed = Allowed(start: bool, caching: bool, end: bool)

  /** The part with an operation: restore, verify the receipt, then cache. */
  method RestoreAndCache(platform: BrokerPlatform, cache: Cache, response: Response, puk: Bytes, expected: VaultKeyScope, profile: Profile, receiptAccepted: bool, allowed: Allowed)
    returns (status: Status)
    modifies cache, cache.Owned()
    ensures var u := Restored(platform, response.encryptedVaultKey, puk, expected, profile);
            && (status.Unlocked? <==> u.Ok? && receiptAccepted && allowed.caching && allowed.end)
            && (status.Unlocked? ==> status == Unlocked(u.value.vaultKey, response.requestId, response.completionReceipt))
            && (status.ReceiptRejected? <==> u.Ok? && !receiptAccepted)
            && (cache.cachedEntry != old(cache.cachedEntry) <==> u.Ok? && receiptAccepted && allowed.caching)
            && (cache.cachedEntry != old(cache.cachedEntry) ==>
                cache.cachedEntry.Some? && HoldsRestored(cache.cachedEntry.value, platform, puk, u.value) && fresh(cache.cachedEntry.value.inner)
                && forall b <- old(cache.Owned()) :: Zeroed(b))
    ensures status.Unlocked? || status.ReceiptRejected? || status.UnwrapFailed?
    ensures cache.cachedEntry == old(cache.cachedEntry) ==> forall b <- cache.Owned() :: b[..] == old(b[..])
    ensures forall b: Buffer :: fresh(b) && b.Length > 0 ==> Zeroed(b) || b in cache.Owned()
  {
    var failure := VaultKeyAadFailure(expected, response.encryptedVaultKey.aad, profile);
    if failure.Some? {
      return UnwrapFailed;
    }
    var keys := platform.derive(puk);
    var restored := UnwrapWithInnerMaterial(platform.kw, response.encryptedVaultKey, keys);
    if restored.Err? {
      return UnwrapFailed;
    }
    var inner, vaultKey := restored.value.1, restored.value.0;
    if !receiptAccepted {
      Fill(inner);
      return ReceiptRejected;
    }
    assert InnerMatches(platform.kw, inner[..], VaultKey(vaultKey, false), keys.wrappingKey);
    var notCached := cache.CacheFromEnvelopeDecrypt(platform.kw, inner, keys.wrappingKey, VaultKey(vaultKey, false), allowed.caching, allowed.caching);
    if notCached.Some? || !allowed.end {
      return UnwrapFailed;
    }
    return Unlocked(vaultKey, response.requestId, response.completionReceipt);
  }

  /** The part without: restore the key only. */
  method RestoreOnly(platform: BrokerPlatform, response: Response, puk: Bytes, expected: VaultKeyScope, profile: Profile, allowed: Allowed) returns (status: Status)
    ensures var u := Restored(platform, response.encryptedVaultKey, puk, expected, profile);
            status == if u.Ok? && allowed.end then Unlocked(u.value.vaultKey, response.requestId, response.completionReceipt) else UnwrapFailed
    ensures forall b: Buffer :: fresh(b) && b.Length > 0 ==> Zeroed(b)
  {
    var failure := VaultKeyAadFailure(expected, response.encryptedVaultKey.aad, profile);
    if failure.Some? {
      return UnwrapFailed;
    }
    var vaultKey := UnwrapUserVaultKey(platform.kw, response.encryptedVaultKey, platform.derive(puk));
    return if vaultKey.Ok? && allowed.end then Unlocked(vaultKey.value, response.requestId, response.completionReceipt) else UnwrapFailed;
  }

  /** A call with a session operation, and how its receipt verifier, if any, answers. */
  datatype Receipt = NoOperation | NoVerifier | Verifier(accepts: bool)

  /** The portable unlock key, if there is a response and the private key is still there. */
  function PukOf(platform: BrokerPlatform, privateKey: Option<PrivateKey>, parsed: Option<Response>): Option<Bytes> {
    if privateKey.None? || parsed.None? then None else UnsealedPuk(platform, privateKey.value, parsed.value.sealedPuk)
  }

  /** The vault key and its blob, if the response restores them. */
  function RestoredBy(platform: BrokerPlatform, puk: Option<Bytes>, parsed: Option<Response>, expected: VaultKeyScope, profile: Profile): Option<Unwrapped> {
    if puk.None? || parsed.None? then None
    else
      var u := Restored(platform, parsed.value.encryptedVaultKey, puk.value, expected, profile);
      if u.Ok? then Some(u.value) else None
  }

  /** The entry is the restored blob under the wrapping key it was restored with. */
  ghost predicate HoldsRestored(entry: CacheEntry, platform: BrokerPlatform, puk: Bytes, u: Unwrapped)
    reads entry.inner
  {
    && entry.inner[..] == u.inner && entry.wrappingKey == platform.derive(puk).wrappingKey
    && InnerMatches(platform.kw, u.inner, VaultKey(u.vaultKey, false), entry.wrappingKey)
  }

  /** From an unsealed key on, with its array zeroed at the end: the answers and the cache. */
  method RestoreWith(platform: BrokerPlatform, cache: Cache, response: Response, puk: Buffer, expected: VaultKeyScope, profile: Profile, receipt: Receipt, allowed: Allowed)
    returns (status: Status)
    requires !receipt.NoVerifier? && puk !in cache.Owned()
    modifies cache, cache.Owned(), puk
    ensures var u := RestoredBy(platform, Some(old(puk[..])), Some(response), expected, profile);
            && (status.ReceiptRejected? <==> u.Some? && receipt == Verifier(false))
            && (status.Unlocked? <==> u.Some? && (receipt.NoOperation? || (receipt == Verifier(true) && allowed.caching)) && allowed.end)
            && (status.Unlocked? ==> status == Unlocked(u.value.vaultKey, response.requestId, response.completionReceipt))
    ensures status.ReceiptRejected? || status.Unlocked? || status.UnwrapFailed?
    ensures var u := RestoredBy(platform, Some(old(puk[..])), Some(response), expected, profile);
            if u.Some? && receipt == Verifier(true) && allowed.caching then
              && cache.cachedEntry.Some? && HoldsRestored(cache.cachedEntry.value, platform, old(puk[..]), u.value)
              && fresh(cache.cachedEntry.value.inner) && (forall b <- old(cache.Owned()) :: Zeroed(b))
            else
              cache.cachedEntry == old(cache.cachedEntry) && forall b <- cache.Owned() :: b[..] == old(b[..])
    ensures Zeroed(puk) && forall b: Buffer :: fresh(b) && b.Length > 0 ==> Zeroed(b) || b in cache.Owned()
  {
    if receipt.Verifier? {
      status := RestoreAndCache(platform, cache, response, puk[..], expected, profile, receipt.accepts, allowed);
    } else {
      status := RestoreOnly(platform, response, puk[..], expected, profile, allowed);
    }
    Fill(puk);
  }

  /**
   When each answer is due: a call that may not start throws; of the others, one whose response does
   not parse is malformed, one whose unlock key cannot be unsealed says so, one that restored a key
   and was refused its receipt says so, and any other is unlocked exactly if a key was restored and
   the session still allows it. The cache becomes the restored blob exactly with an accepted receipt
   and while the session allows caching, and is otherwise left alone. The session is used up, and each
   array allocated on the way is all zeros or is the live cache entry's own.
   */
  method UnlockPortableVaultBrokerResponse(platform: BrokerPlatform, cache: Cache, session: UnlockSession, parsed: Option<Response>, expected: VaultKeyScope, profile: Profile, receipt: Receipt, allowed: Allowed)
    returns (status: Status)
    modifies session, cache, cache.Owned()
    ensures var starts := allowed.start && !receipt.NoVerifier?;
            var puk := PukOf(platform, old(session.privateKey), parsed);
            var u := RestoredBy(platform, puk, parsed, expected, profile);
            && (status.Threw? <==> !starts)
            && (status.MalformedResponse? <==> starts && parsed.None?)
            && (status.PukUnsealFailed? <==> starts && parsed.Some? && puk.None?)
            && (status.ReceiptRejected? <==> starts && u.Some? && receipt == Verifier(false))
            && (status.UnwrapFailed? <==>
                && starts && puk.Some?
                && (u.None? || (receipt != Verifier(false) && !allowed.end) || (receipt == Verifier(true) && !allowed.caching)))
            && (status.Unlocked? <==>
                starts && u.Some? && (receipt.NoOperation? || (receipt == Verifier(true) && allowed.caching)) && allowed.end)
            && (status.Unlocked? ==> status == Unlocked(u.value.vaultKey, parsed.value.requestId, parsed.value.completionReceipt))
    ensures var starts := allowed.start && !receipt.NoVerifier?;
            var puk := PukOf(platform, old(session.privateKey), parsed);
            var u := RestoredBy(platform, puk, parsed, expected, profile);
            if starts && u.Some? && receipt == Verifier(true) && allowed.caching then
              && cache.cachedEntry.Some? && HoldsRestored(cache.cachedEntry.value, platform, puk.value, u.value)
              && fresh(cache.cachedEntry.value.inner) && (forall b <- old(cache.Owned()) :: Zeroed(b))
            else
              cache.cachedEntry == old(cache.cachedEntry) && forall b <- cache.Owned() :: b[..] == old(b[..])
    ensures session.privateKey == if status.Threw? then old(session.privateKey) else None
    ensures forall b: Buffer :: fresh(b) && b.Length > 0 ==> Zeroed(b) || b in cache.Owned()
  {
    if !allowed.start || receipt.NoVerifier? {
      return Threw;
    }
    if parsed.None? {
      session.Dispose();
      return MalformedResponse;
    }
    var puk := session.Unseal(platform, parsed.value.sealedPuk);
    if puk.None? {
      return PukUnsealFailed;
    }
    status := RestoreWith(platform, cache, parsed.value, puk.value, expected, profile, receipt, allowed);
  }

  // ---------------------------------------------------------------- enrolment

  function WrapWithKeys(platform: BrokerPlatform, vaultKey: VaultKey, puk: Bytes, scope: VaultKeyScope, profile: Profile, iv: Bytes, blob: Option<Bytes>): Result<Payload, Failure> {
    var keys := platform.derive(puk);
    var inner := MaterializeInner(platform.kw, vaultKey, keys.wrappingKey, blob);
    if inner.Err? then Err(inner.error) else Ok(EncryptInner(inner.value, keys.encryptionKey, scope, profile, iv))
  }

  function WrapFromMaterial(platform: BrokerPlatform, vaultKey: VaultKey, puk: Bytes, scope: VaultKeyScope, profile: Profile, iv: Bytes, inner: Bytes, wrappingKey: Key): Result<Payload, Failure> {
    var rewrapped := RewrapInner(platform.kw, inner, wrappingKey, platform.derive(puk).wrappingKey, vaultKey);
    if rewrapped.Err? then Err(rewrapped.error) else WrapWithKeys(platform, vaultKey, puk, scope, profile, iv, Some(rewrapped.value))
  }

  /**
   Cached material makes a package exactly when it is the session key's, and the package gives that
   key back, by a 40-byte blob, to whoever has the portable unlock key and expects that scope.
   */
  lemma PackageUnlocksExactlyWhen(platform: BrokerPlatform, vaultKey: VaultKey, puk: Bytes, scope: VaultKeyScope, profile: Profile, iv: Bytes, inner: Bytes, wrappingKey: Key)
    requires platform.kw.Lawful() && |vaultKey.raw| == 32 && |iv| == MAX_IV_BYTES
    ensures var r := WrapFromMaterial(platform, vaultKey, puk, scope, profile, iv, inner, wrappingKey);
            && (r.Ok? <==> InnerMatches(platform.kw, inner, vaultKey, wrappingKey))
            && (r.Ok? ==>
                var u := Restored(platform, r.value, puk, scope, profile);
                u.Ok? && u.value.vaultKey == vaultKey.raw && |u.value.inner| == 40)
  {
    var keys := platform.derive(puk);
    RewrapKeepsTheKey(platform.kw, inner, wrappingKey, keys.wrappingKey, vaultKey);
    var rewrapped := RewrapInner(platform.kw, inner, wrappingKey, keys.wrappingKey, vaultKey);
    if rewrapped.Ok? {
      EncryptedInnerComesBack(rewrapped.value, keys.encryptionKey, scope, profile, iv);
    }
  }

  /** With nothing cached, exactly an exportable key makes a package, and that gives the key back. */
  lemma ExportedPackageUnlocksExactlyWhen(platform: BrokerPlatform, vaultKey: VaultKey, puk: Bytes, scope: VaultKeyScope, profile: Profile, iv: Bytes)
    requires platform.kw.Lawful() && |vaultKey.raw| == 32 && |iv| == MAX_IV_BYTES
    ensures var r := WrapWithKeys(platform, vaultKey, puk, scope, profile, iv, None);
            && (r.Ok? <==> vaultKey.extractable)
            && (r.Ok? ==>
                var u := Restored(platform, r.value, puk, scope, profile);
                u.Ok? && u.value.vaultKey == vaultKey.raw && |u.value.inner| == 40)
  {
    var keys := platform.derive(puk);
    var inner := platform.kw.wrap(vaultKey.raw, keys.wrappingKey);
    WrappedOpensExactlyWhen(platform.kw, vaultKey.raw, keys.wrappingKey);
    assert platform.kw.Wraps(vaultKey.raw, keys.wrappingKey);
    EncryptedInnerComesBack(inner, keys.encryptionKey, scope, profile, iv);
    if vaultKey.extractable {
      RestoresExactlyWhen(platform, EncryptInner(inner, keys.encryptionKey, scope, profile, iv), puk, scope, profile, vaultKey.raw, inner);
    }
  }

  /** createPortableVaultBrokerEncryptedVaultKeyFromCachedMaterial: the re-wrapped blob is zeroed. */
  method WrapFromCachedMaterial(platform: BrokerPlatform, vaultKey: VaultKey, puk: Bytes, scope: VaultKeyScope, profile: Profile, iv: Bytes, inner: Bytes, wrappingKey: Key)
    returns (r: Result<Payload, Failure>)
    ensures r == WrapFromMaterial(platform, vaultKey, puk, scope, profile, iv, inner, wrappingKey)
    ensures forall b: Buffer :: fresh(b) && b.Length > 0 ==> Zeroed(b)
  {
    var rewrapped := RewrapInner(platform.kw, inner, wrappingKey, platform.derive(puk).wrappingKey, vaultKey);
    if rewrapped.Err? {
      return Err(rewrapped.error);
    }
    var rewrappedInner := NewBuffer(rewrapped.value);
    r := WrapWithKeys(platform, vaultKey, puk, scope, profile, iv, Some(rewrappedInner[..]));
    Fill(rewrappedInner);
  }

  /**
   With `drawn` as the fresh portable unlock key: on success it is the one array left, and belongs to
   the package; on failure nothing is left, and cached material that failed is dropped.
   */
  method EnrolWithSessionCache(platform: BrokerPlatform, cache: Cache, vaultKey: VaultKey, drawn: Bytes, scope: VaultKeyScope, profile: Profile, iv: Bytes, before: bool, after: bool)
    returns (r: Result<(Buffer, Payload), Failure>)
    modifies cache, cache.Owned()
    ensures r.Ok? ==> before && after && fresh(r.value.0) && r.value.0[..] == drawn && cache.cachedEntry == old(cache.cachedEntry)
    ensures var package :=
              if old(cache.cachedEntry).Some?
              then WrapFromMaterial(platform, vaultKey, drawn, scope, profile, iv, old(cache.cachedEntry.value.inner[..]), old(cache.cachedEntry.value.wrappingKey))
              else WrapWithKeys(platform, vaultKey, drawn, scope, profile, iv, None);
            && (r.Ok? <==> before && after && package.Ok?)
            && (r.Ok? ==> package == Ok(r.value.1))
            && (r.Err? ==> r.error == if before && after then package.error else Cancelled)
    ensures r.Err? && before && after ==> cache.cachedEntry.None? && forall b <- old(cache.Owned()) :: Zeroed(b)
    ensures !before || !after ==> cache.cachedEntry == old(cache.cachedEntry)
    ensures forall b: Buffer :: fresh(b) && b.Length > 0 ==> Zeroed(b) || (r.Ok? && b == r.value.0)
  {
    if !before {
      return Err(Cancelled);
    }
    var puk := NewBuffer(drawn);
    var wrapped;
    if cache.cachedEntry.Some? {
      wrapped := WrapFromCachedMaterial(platform, vaultKey, puk[..], scope, profile, iv, cache.cachedEntry.value.inner[..], cache.cachedEntry.value.wrappingKey);
    } else {
      wrapped := WrapWithKeys(platform, vaultKey, puk[..], scope, profile, iv, None);
    }
    if wrapped.Ok? && after {
      return Ok((puk, wrapped.value));
    }
    Fill(puk);
    if !after {
      return Err(Cancelled);
    }
    cache.ClearCachedEntry();
    return Err(wrapped.error);
  }
}
