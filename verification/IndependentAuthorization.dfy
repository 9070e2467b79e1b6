/**
 An extra passkey envelope after unlocking with the password or the phrase, with every byte array
 on the way (src/envelopes/passkey-prf-independent-authorization.ts).
 */
module IndependentAuthorization {
  import opened Prelude
  import opened VaultAad
  import opened AesGcm
  import opened VaultKeyEnvelope
  import opened AadRouting
  import opened KeyDerivation
  import opened Envelopes
  import opened Rotation
  import opened SensitiveBuffers

  class Buffers {
    var sensitive: seq<Buffer>

    constructor ()
      ensures sensitive == []
      ensures forall b: Buffer :: fresh(b) && b.Length > 0 ==> Zeroed(b)
    {
      sensitive := [];
    }

    method Push(b: Buffer)
      modifies this
      ensures sensitive == old(sensitive) + [b]
      ensures forall c: Buffer :: c in sensitive <==> c in old(sensitive) || c == b
      ensures forall b: Buffer :: fresh(b) && b.Length > 0 ==> Zeroed(b)
    {
      sensitive := sensitive + [b];
    }

    /** The callback given to the routing: the decrypted blob is remembered before it is tried. */
    method TryCandidate(kw: KeyWrap, candidate: Payload, key: Key) returns (r: Result<(Bytes, Buffer), Failure>)
      modifies this
      ensures r.Ok? <==> UnwrapVaultKey(kw, candidate, key).Ok?
      ensures r.Ok? ==> r.value.1 in sensitive && Ok(Unwrapped(r.value.0, r.value.1[..])) == UnwrapVaultKey(kw, candidate, key)
      ensures r.Err? ==> Err(r.error) == UnwrapVaultKey(kw, candidate, key)
      ensures (forall b <- old(sensitive) :: b in sensitive) && forall b <- sensitive :: b in old(sensitive) || fresh(b)
      ensures forall b: Buffer :: fresh(b) && b.Length > 0 ==> b in sensitive || Zeroed(b)
    {
      var inner := ExtractInnerBlob(candidate, key);
      if inner.Err? {
        return Err(inner.error);
      }
      Push(inner.value);
      r := Tried(kw, candidate, key, inner.value);
    }

    method Tried(kw: KeyWrap, candidate: Payload, key: Key, inner: Buffer) returns (r: Result<(Bytes, Buffer), Failure>)
      requires ExtractInner(candidate, key) == Ok(inner[..])
      ensures r.Ok? <==> UnwrapVaultKey(kw, candidate, key).Ok?
      ensures r.Ok? ==> r.value.1 == inner && Ok(Unwrapped(r.value.0, inner[..])) == UnwrapVaultKey(kw, candidate, key)
      ensures r.Err? ==> Err(r.error) == UnwrapVaultKey(kw, candidate, key)
      ensures forall b: Buffer :: fresh(b) && b.Length > 0 ==> Zeroed(b)
    {
      var vaultKey := OpenInner(kw, inner[..], key);
      r := if vaultKey.None? then Err(InnerNotUnwrapped) else Ok((vaultKey.value, inner));
    }

    /** The fallback loop of the routing, with that callback. */
    method TryCandidates(kw: KeyWrap, key: Key, expected: VaultKeyScope, candidates: seq<Payload>) returns (r: Result<(Bytes, Buffer), Failure>)
      requires candidates != []
      modifies this
      ensures r.Ok? <==> FirstUnlocked(kw, key, expected, candidates).Ok?
      ensures r.Ok? ==> r.value.1 in sensitive && Ok(Unwrapped(r.value.0, r.value.1[..])) == FirstUnlocked(kw, key, expected, candidates)
      ensures r.Err? ==> Err(r.error) == FirstUnlocked(kw, key, expected, candidates)
      ensures (forall b <- old(sensitive) :: b in sensitive) && forall b <- sensitive :: b in old(sensitive) || fresh(b)
      ensures forall b: Buffer :: fresh(b) && b.Length > 0 ==> b in sensitive || Zeroed(b)
    {
      var lastError := InnerNotUnwrapped;
      for i := 0 to |candidates|
        invariant i < |candidates| ==> FirstUnlocked(kw, key, expected, candidates) == FirstUnlocked(kw, key, expected, candidates[i..])
        invariant i == |candidates| ==> FirstUnlocked(kw, key, expected, candidates) == Err(lastError)
        invariant (forall b <- old(sensitive) :: b in sensitive) && forall b <- sensitive :: b in old(sensitive) || fresh(b)
        invariant forall b: Buffer :: fresh(b) && b.Length > 0 ==> b in sensitive || Zeroed(b)
      {
        assert candidates[i..][1..] == candidates[i + 1..];
        var failure := ScopeFailure(expected, candidates[i].aad);
        if failure.Some? {
          lastError := failure.value;
        } else {
          var attempt := TryCandidate(kw, candidates[i], key);
          if attempt.Ok? {
            return attempt;
          }
          lastError := attempt.error;
        }
      }
      return Err(lastError);
    }

    method UnlockSource(kw: KeyWrap, p: Payload, key: Key, expected: VaultKeyScope, profile: Profile) returns (r: Result<(Bytes, Buffer), Failure>)
      modifies this
      ensures r.Ok? <==> Unlock(kw, p, key, expected, profile).Ok?
      ensures r.Ok? ==> r.value.1 in sensitive && Ok(Unwrapped(r.value.0, r.value.1[..])) == Unlock(kw, p, key, expected, profile)
      ensures r.Err? ==> Err(r.error) == Unlock(kw, p, key, expected, profile)
      ensures (forall b <- old(sensitive) :: b in sensitive) && forall b <- sensitive :: b in old(sensitive) || fresh(b)
      ensures forall b: Buffer :: fresh(b) && b.Length > 0 ==> b in sensitive || Zeroed(b)
    {
      if IsLegacyVaultKeyEnvelope(p, profile) {
        if !LegacyEnabled(profile) || !IsVaultKeyAadContextAllowed(p.aad.context, profile) {
          return Err(ContextMismatch);
        }
        var failure := ScopeFailure(expected, p.aad);
        if failure.Some? {
          return Err(failure.value);
        }
        r := TryCandidates(kw, key, expected, Candidates(p, profile));
      } else {
        var normalized := NormalizeEnvelopeAadContext(p, profile);
        var failure := VaultKeyAadFailure(expected, normalized.aad, profile);
        if failure.Some? {
          return Err(failure.value);
        }
        r := TryCandidate(kw, normalized, key);
      }
    }

    /** The `finally` block. */
    method FillAll()
      modifies set b | b in sensitive
      ensures forall b <- sensitive :: Zeroed(b)
      ensures forall b: Buffer :: fresh(b) && b.Length > 0 ==> Zeroed(b)
    {
      for i := 0 to |sensitive|
        invariant forall j :: 0 <= j < i ==> Zeroed(sensitive[j])
        invariant forall b: Buffer :: fresh(b) && b.Length > 0 ==> Zeroed(b)
      {
        Fill(sensitive[i]);
      }
    }
  }

  /** The `try` block: unlock, re-wrap, create. */
  method Authorized(buffers: Buffers, o: Owner, auth: Slot, expectedWordCount: Option<nat>, prfSnapshot: Buffer, iv: Bytes)
    returns (r: Result<(Bytes, Envelope), Failure>)
    requires Matches(auth) && !auth.secret.Prf? && prfSnapshot.Length == PRF_BYTES
    requires auth.envelope.kdfMetadata.kdf == Argon2id
    modifies buffers
    ensures r == AddPasskey(o, auth, expectedWordCount, old(prfSnapshot[..]), iv)
    ensures (forall b <- old(buffers.sensitive) :: b in buffers.sensitive) && forall b <- buffers.sensitive :: b in old(buffers.sensitive) || fresh(b)
    ensures forall b: Buffer :: fresh(b) && b.Length > 0 ==> b in buffers.sensitive || Zeroed(b)
  {
    if auth.secret.Phrase? {
      var failure := PhraseInputFailure(o, auth.secret.text, expectedWordCount);
      if failure.Some? {
        return Err(failure.value);
      }
    }
    var key := SlotKey(o, auth);
    if key.None? {
      return Err(InvalidKdfMetadata);
    }
    var source := buffers.UnlockSource(o.platform.kw, auth.envelope.payload, key.value, o.scope, o.profile);
    if source.Err? {
      return Err(source.error);
    }
    var vaultKey := VaultKey(source.value.0, false);
    var prfKey := ImportPrfKey(prfSnapshot);
    var rewrapped := RewrapInner(o.platform.kw, source.value.1[..], key.value, prfKey.value, vaultKey);
    if rewrapped.Err? {
      return Err(rewrapped.error);
    }
    var rewrappedInner := NewBuffer(rewrapped.value);
    buffers.Push(rewrappedInner);
    assert buffers.sensitive[|buffers.sensitive| - 1] == rewrappedInner;
    assert prfSnapshot[..][..PRF_BYTES] == prfSnapshot[..];
    var envelope := CreatePasskeyEnvelope(o, vaultKey, prfSnapshot[..], iv, Some(rewrappedInner[..]));
    r := if envelope.Err? then Err(envelope.error) else Ok((vaultKey.raw, envelope.value));
  }

  /** `try` and `finally`. */
  method AuthorizedThenFilled(buffers: Buffers, o: Owner, auth: Slot, expectedWordCount: Option<nat>, prfSnapshot: Buffer, iv: Bytes)
    returns (r: Result<(Bytes, Envelope), Failure>)
    requires Matches(auth) && !auth.secret.Prf? && prfSnapshot.Length == PRF_BYTES
    requires buffers.sensitive == [prfSnapshot]
    modifies buffers, prfSnapshot
    ensures r == if auth.envelope.kdfMetadata.kdf != Argon2id then Err(InvalidKdfMetadata) else AddPasskey(o, auth, expectedWordCount, old(prfSnapshot[..]), iv)
    ensures Zeroed(prfSnapshot)
    ensures forall b: Buffer :: fresh(b) && b.Length > 0 ==> Zeroed(b)
  {
    ghost var before := buffers.sensitive;
    assert prfSnapshot in before && forall b <- before :: b == prfSnapshot;
    if auth.envelope.kdfMetadata.kdf != Argon2id {
      r := Err(InvalidKdfMetadata);
    } else {
      r := Authorized(buffers, o, auth, expectedWordCount, prfSnapshot, iv);
    }
    assert forall b <- buffers.sensitive :: b in before || fresh(b);
    buffers.FillAll();
  }

  /**
   It gives exactly the key and envelope that Rotation.AddPasskey describes, and on every exit,
   normal or failing, each array allocated on the way, for the PRF snapshot, every candidate blob
   and the re-wrapped one, is all zeros. The caller's own PRF output is not touched.
   */
  method CreatePasskeyPrfEnvelopeAfterIndependentAuthorization(o: Owner, auth: Slot, expectedWordCount: Option<nat>, prfOutput: Buffer, iv: Bytes)
    returns (r: Result<(Bytes, Envelope), Failure>)
    requires Matches(auth) && !auth.secret.Prf?
    ensures r == AddPasskey(o, auth, expectedWordCount, prfOutput[..], iv)
    ensures forall b: Buffer :: fresh(b) && b.Length > 0 ==> Zeroed(b)
  {
    if prfOutput.Length < PRF_BYTES {
      return Err(ShortPrfOutput);
    }
    var prfSnapshot := NewBuffer(prfOutput[..PRF_BYTES]);
    OnlyTheFirstBytesCount(o, auth, expectedWordCount, prfOutput[..], iv);
    assert prfOutput[..][..PRF_BYTES] == prfOutput[..PRF_BYTES];
    var buffers := new Buffers();
    buffers.Push(prfSnapshot);
    r := AuthorizedThenFilled(buffers, o, auth, expectedWordCount, prfSnapshot, iv);
  }

  lemma OnlyTheFirstBytesCount(o: Owner, auth: Slot, expectedWordCount: Option<nat>, prf: Bytes, iv: Bytes)
    requires Matches(auth) && !auth.secret.Prf? && |prf| >= PRF_BYTES
    ensures AddPasskey(o, auth, expectedWordCount, prf, iv) == AddPasskey(o, auth, expectedWordCount, prf[..PRF_BYTES], iv)
    ensures auth.envelope.kdfMetadata.kdf != Argon2id ==> AddPasskey(o, auth, expectedWordCount, prf, iv) == Err(InvalidKdfMetadata)
  {
    assert prf[..PRF_BYTES][..PRF_BYTES] == prf[..PRF_BYTES];
  }
}
