/**
 Byte arrays that hold key material, and the functions that decrypt into them: what they return,
 and what they have overwritten with zeros when they return (src/crypto/vault-key-envelope.ts,
 src/crypto/prf-key.ts, src/crypto/encoding.ts).
 */
module SensitiveBuffers {
  import opened Prelude
  import opened Base64Url
  import opened AesGcm
  import opened VaultKeyEnvelope
  import opened KeyDerivation

  type Buffer = array<Byte>

  ghost predicate Zeroed(a: Buffer)
    reads a
  {
    forall i :: 0 <= i < a.Length ==> a[i] == 0
  }

  /** `bytes.fill(0)` */
  method Fill(a: Buffer)
    modifies a
    ensures Zeroed(a)
    ensures forall b: Buffer :: fresh(b) && b.Length > 0 ==> Zeroed(b)
  {
    for i := 0 to a.Length
      invariant forall j :: 0 <= j < i ==> a[j] == 0
      invariant forall b: Buffer :: fresh(b) && b.Length > 0 ==> Zeroed(b)
    {
      a[i] := 0;
    }
  }

  method NewBuffer(s: Bytes) returns (a: Buffer)
    ensures fresh(a) && a[..] == s
    ensures forall b: Buffer :: fresh(b) && b.Length > 0 ==> b == a
  {
    a := new Byte[|s|](i requires 0 <= i < |s| => s[i]);
  }

  /** importPrfAesKey: the key is imported from a snapshot that is zeroed whatever happens. */
  method ImportPrfKey(prf: Buffer) returns (key: Option<Key>)
    ensures key == PrfKey(prf[..])
    ensures forall b: Buffer :: fresh(b) && b.Length > 0 ==> Zeroed(b)
  {
    if prf.Length < PRF_BYTES {
      return None;
    }
    var snapshot := NewBuffer(prf[..PRF_BYTES]);
    assert prf[..][..PRF_BYTES] == prf[..PRF_BYTES];
    key := Some(snapshot[..]);
    Fill(snapshot);
  }

  method ExtractInnerBlob(p: Payload, key: Key) returns (r: Result<Buffer, Failure>)
    ensures r.Ok? <==> ExtractInner(p, key).Ok?
    ensures r.Ok? ==> fresh(r.value) && Ok(r.value[..]) == ExtractInner(p, key)
    ensures r.Err? ==> Err(r.error) == ExtractInner(p, key)
    ensures forall b: Buffer :: fresh(b) && b.Length > 0 ==> Zeroed(b) || (r.Ok? && b == r.value)
  {
    var inner := ExtractInner(p, key);
    if inner.Err? {
      return Err(inner.error);
    }
    var bytes := NewBuffer(inner.value);
    return Ok(bytes);
  }

  /** A key pair need not be one string of bytes imported twice. */
  datatype DerivedKeys = DerivedKeys(encryptionKey: Key, wrappingKey: Key)

  function UnwrapWithKeys(kw: KeyWrap, p: Payload, keys: DerivedKeys): Result<Unwrapped, Failure> {
    var inner := ExtractInner(p, keys.encryptionKey);
    if inner.Err? then Err(inner.error)
    else
      var raw := OpenInner(kw, inner.value, keys.wrappingKey);
      if raw.None? then Err(InnerNotUnwrapped) else Ok(Unwrapped(raw.value, inner.value))
  }

  /** The key and the blob it came in; on failure the blob is zeroed. */
  method UnwrapWithInnerMaterial(kw: KeyWrap, p: Payload, keys: DerivedKeys) returns (r: Result<(Bytes, Buffer), Failure>)
    ensures r.Ok? <==> UnwrapWithKeys(kw, p, keys).Ok?
    ensures r.Ok? ==> fresh(r.value.1) && Ok(Unwrapped(r.value.0, r.value.1[..])) == UnwrapWithKeys(kw, p, keys)
    ensures r.Err? ==> Err(r.error) == UnwrapWithKeys(kw, p, keys)
    ensures forall b: Buffer :: fresh(b) && b.Length > 0 ==> Zeroed(b) || (r.Ok? && b == r.value.1)
  {
    var inner := ExtractInnerBlob(p, keys.encryptionKey);
    if inner.Err? {
      return Err(inner.error);
    }
    var vaultKey := OpenInner(kw, inner.value[..], keys.wrappingKey);
    if vaultKey.None? {
      Fill(inner.value);
      return Err(InnerNotUnwrapped);
    }
    return Ok((vaultKey.value, inner.value));
  }

  /** The key alone; nothing of the blob is left. */
  method UnwrapUserVaultKey(kw: KeyWrap, p: Payload, keys: DerivedKeys) returns (r: Result<Bytes, Failure>)
    ensures r == var u := UnwrapWithKeys(kw, p, keys); if u.Ok? then Ok(u.value.vaultKey) else Err(u.error)
    ensures forall b: Buffer :: fresh(b) && b.Length > 0 ==> Zeroed(b)
  {
    var unwrapped := UnwrapWithInnerMaterial(kw, p, keys);
    if unwrapped.Err? {
      return Err(unwrapped.error);
    }
    r := Ok(unwrapped.value.0);
    Fill(unwrapped.value.1);
  }
}
