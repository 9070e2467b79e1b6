/**
 The one array of inner key material that outlives an unlock, as an array
 (src/session/inner-key-material-cache.ts) and what is wrapped from it (src/envelopes/passkey-prf.ts).
 `before` and `after` say whether the session still allows the call, before and after its `await`.
 */
module InnerKeyMaterialCache {
  import opened Prelude
  import opened AesGcm
  import opened VaultKeyEnvelope
  import opened KeyDerivation
  import opened Envelopes
  import opened SensitiveBuffers
  import Rotation

  datatype CacheEntry = CacheEntry(inner: Buffer, wrappingKey: Key)

  /** assertInnerVaultKeyBlobMatchesVaultKey */
  predicate InnerMatches(kw: KeyWrap, inner: Bytes, session: VaultKey, wrappingKey: Key) {
    var raw := OpenInner(kw, inner, wrappingKey);
    raw.Some? && UserVaultKeysEqual(VaultKey(raw.value, false), session)
  }

  class Cache {
    var cachedEntry: Option<CacheEntry>

    constructor ()
      ensures cachedEntry.None?
    {
      cachedEntry := None;
    }

    ghost function Owned(): set<Buffer>
      reads this
    {
      if cachedEntry.Some? then {cachedEntry.value.inner} else {}
    }

    method ClearCachedEntry()
      modifies this, Owned()
      ensures cachedEntry.None?
      ensures forall b <- old(Owned()) :: Zeroed(b)
      ensures forall b: Buffer :: fresh(b) && b.Length > 0 ==> Zeroed(b)
    {
      if cachedEntry.Some? {
        Fill(cachedEntry.value.inner);
      }
      cachedEntry := None;
    }

    /**
     On failure the caller's array is zeroed. On success it is the cache's, and what the cache held is
     zeroed first: handing in the array the cache already holds leaves zeros cached.
     */
    method CacheFromEnvelopeDecrypt(kw: KeyWrap, inner: Buffer, wrappingKey: Key, session: VaultKey, before: bool, after: bool)
      returns (failure: Option<Failure>)
      modifies this, inner, Owned()
      ensures failure.None? <==> before && after && InnerMatches(kw, old(inner[..]), session, wrappingKey)
      ensures failure == Some(KeyMismatch) <==> before && !InnerMatches(kw, old(inner[..]), session, wrappingKey)
      ensures failure.Some? ==> failure.value in {KeyMismatch, Cancelled} && Zeroed(inner) && cachedEntry == old(cachedEntry)
      ensures failure.Some? ==> forall b <- old(Owned()) :: b != inner ==> b[..] == old(b[..])
      ensures failure.None? ==> cachedEntry == Some(CacheEntry(inner, wrappingKey))
      ensures failure.None? ==> if inner in old(Owned()) then Zeroed(inner) else inner[..] == old(inner[..])
      ensures failure.None? ==> forall b <- old(Owned()) :: Zeroed(b)
      ensures forall b: Buffer :: fresh(b) && b.Length > 0 ==> Zeroed(b)
    {
      failure :=
        if !before then Some(Cancelled)
        else if !InnerMatches(kw, inner[..], session, wrappingKey) then Some(KeyMismatch)
        else if !after then Some(Cancelled)
        else None;
      if failure.Some? {
        Fill(inner);
        return;
      }
      ClearCachedEntry();
      cachedEntry := Some(CacheEntry(inner, wrappingKey));
    }

    method CacheFromPasskeyEnvelope(kw: KeyWrap, p: Payload, prf: Buffer, prfEncryptionKey: Key, session: VaultKey, before: bool, after: bool)
      returns (failure: Option<Failure>)
      modifies this, Owned()
      ensures var inner := ExtractInner(p, prfEncryptionKey);
              failure.None? <==>
              before && after && prf.Length >= 32 && inner.Ok? && InnerMatches(kw, inner.value, session, old(prf[..32]))
      ensures failure.None? ==>
                && cachedEntry.Some? && cachedEntry.value.wrappingKey == old(prf[..32]) && fresh(cachedEntry.value.inner)
                && ExtractInner(p, prfEncryptionKey) == Ok(cachedEntry.value.inner[..])
                && forall b <- old(Owned()) :: Zeroed(b)
      ensures failure.Some? ==> cachedEntry == old(cachedEntry) && forall b <- Owned() :: b[..] == old(b[..])
      ensures forall b: Buffer :: fresh(b) && b.Length > 0 ==> Zeroed(b) || b in Owned()
    {
      if !before {
        return Some(Cancelled);
      }
      var wrappingKey := ImportPrfKey(prf);
      if wrappingKey.None? {
        return Some(ShortPrfOutput);
      }
      var inner := ExtractInnerBlob(p, prfEncryptionKey);
      if inner.Err? {
        return Some(inner.error);
      }
      assert prf[..][..32] == prf[..32];
      failure := CacheFromEnvelopeDecrypt(kw, inner.value, wrappingKey.value, session, before, after);
    }

    predicate CachedMatches(kw: KeyWrap, session: VaultKey)
      requires cachedEntry.Some?
      reads this, Owned()
    {
      InnerMatches(kw, cachedEntry.value.inner[..], session, cachedEntry.value.wrappingKey)
    }

    /** The blob to wrap from: the caller's, or the cached one if it still matches; a stale one is dropped. */
    method ResolveInnerVaultKeyBlobForWrap(kw: KeyWrap, session: VaultKey, blob: Option<Buffer>, before: bool, after: bool)
      returns (r: Result<Option<Buffer>, Failure>)
      modifies this, Owned()
      ensures blob.Some? ==> r == Ok(blob)
      ensures blob.None? && (!before || (old(cachedEntry).Some? && !after)) ==> r == Err(Cancelled)
      ensures blob.None? && before && old(cachedEntry).None? ==> r == Ok(None)
      ensures blob.None? && before && after && old(cachedEntry).Some? ==>
                r == if InnerMatches(kw, old(cachedEntry.value.inner[..]), session, old(cachedEntry.value.wrappingKey)) then Ok(Some(old(cachedEntry.value.inner)))
                     else Err(KeyMismatch)
      ensures r == Err(KeyMismatch) ==> cachedEntry.None? && forall b <- old(Owned()) :: Zeroed(b)
      ensures r != Err(KeyMismatch) ==> cachedEntry == old(cachedEntry) && forall b <- Owned() :: b[..] == old(b[..])
    {
      if blob.Some? {
        return Ok(blob);
      }
      if !before {
        return Err(Cancelled);
      }
      if cachedEntry.None? {
        return Ok(None);
      }
      if !after {
        return Err(Cancelled);
      }
      if !CachedMatches(kw, session) {
        ClearCachedEntry();
        return Err(KeyMismatch);
      }
      return Ok(Some(cachedEntry.value.inner));
    }

    /** createPasskeyPrfEnvelopeWithSessionCache: a failure to wrap from the cache drops the cache. */
    method CreatePasskeyEnvelopeWithSessionCache(o: Owner, session: VaultKey, prf: Buffer, blob: Option<Buffer>, iv: Bytes, before: bool, after: bool)
      returns (r: Result<Envelope, Failure>)
      modifies this, Owned()
      ensures var envelope :=
                if blob.Some? then CreatePasskeyEnvelope(o, session, old(prf[..]), iv, Some(old(blob.value[..])))
                else if old(cachedEntry).Some? then FromMaterial(o, session, old(prf[..]), old(cachedEntry.value.inner[..]), old(cachedEntry.value.wrappingKey), iv)
                else CreatePasskeyEnvelope(o, session, old(prf[..]), iv, None);
              r == if !before then Err(Cancelled)
                   else if after || (blob.Some? && envelope.Err?) then envelope
                   else Err(Cancelled)
      ensures r.Ok? || !before || !after || blob.Some? ==> cachedEntry == old(cachedEntry)
      ensures r.Ok? ==> forall b <- Owned() :: b[..] == old(b[..])
      ensures r.Err? && before && after && blob.None? ==> cachedEntry.None? && forall b <- old(Owned()) :: Zeroed(b)
    {
      if !before {
        return Err(Cancelled);
      }
      var envelope :=
        if blob.Some? then CreatePasskeyEnvelope(o, session, prf[..], iv, Some(blob.value[..]))
        else if cachedEntry.Some? then FromMaterial(o, session, prf[..], cachedEntry.value.inner[..], cachedEntry.value.wrappingKey, iv)
        else CreatePasskeyEnvelope(o, session, prf[..], iv, None);
      if blob.Some? && envelope.Err? {
        return envelope;
      }
      if !after {
        return Err(Cancelled);
      }
      if envelope.Err? && blob.None? && cachedEntry.Some? {
        ClearCachedEntry();
      }
      return envelope;
    }
  }

  function FromMaterial(o: Owner, session: VaultKey, prf: Bytes, inner: Bytes, wrappingKey: Key, iv: Bytes): Result<Envelope, Failure> {
    var key := PrfKey(prf);
    if key.None? then Err(ShortPrfOutput)
    else
      var rewrapped := RewrapInner(o.platform.kw, inner, wrappingKey, key.value, session);
      if rewrapped.Err? then Err(rewrapped.error) else CreatePasskeyEnvelope(o, session, prf, iv, Some(rewrapped.value))
  }

  /** Cached material makes a new passkey envelope exactly when it is the session key's; that envelope opens to it. */
  lemma CachedMaterialEnrolsExactlyWhen(o: Owner, session: VaultKey, prf: Bytes, inner: Bytes, wrappingKey: Key, iv: Bytes)
    requires o.Lawful() && |session.raw| == 32 && |iv| == MAX_IV_BYTES
    ensures var r := FromMaterial(o, session, prf, inner, wrappingKey, iv);
            && (r.Ok? <==> |prf| >= PRF_BYTES && InnerMatches(o.platform.kw, inner, session, wrappingKey))
            && (r.Ok? ==> r.value.PasskeyEnvelope? && Current(o, Slot(Prf(prf), r.value), session.raw))
  {
    if |prf| >= PRF_BYTES {
      var key := prf[..PRF_BYTES];
      RewrapKeepsTheKey(o.platform.kw, inner, wrappingKey, key, session);
      var rewrapped := RewrapInner(o.platform.kw, inner, wrappingKey, key, session);
      if rewrapped.Ok? {
        WrappingHoldsTheKey(o.platform.kw, session, key, o.scope, o.profile, iv, Some(rewrapped.value));
      }
    }
  }
}
