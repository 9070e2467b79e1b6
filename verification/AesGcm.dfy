/**
 Field encryption under an ideal authenticated cipher (src/crypto/aes-gcm.ts): a ciphertext
 is the record of what was sealed, and opens only under the same key, IV and AAD bytes.
 */
module AesGcm {
  import opened Prelude
  import opened Unicode
  import opened JsonText
  import opened VaultAad
  import opened Base64Url

  /** A raw AES key. */
  type Key = Bytes

  /** Forged stands for any bytes that no holder of the key has sealed. */
  datatype Ciphertext = Sealed(key: Key, iv: Bytes, aad: Bytes, plaintext: Bytes) | Forged(length: nat)

  const TAG_BYTES := 16

  function Length(c: Ciphertext): nat {
    if c.Sealed? then |c.plaintext| + TAG_BYTES else c.length
  }

  /** `crypto.subtle.decrypt` */
  function Open(c: Ciphertext, key: Key, iv: Bytes, aad: Bytes): Option<Bytes> {
    if c.Sealed? && c.key == key && c.iv == iv && c.aad == aad then Some(c.plaintext) else None
  }

  const MAX_IV_BYTES := 12
  const MAX_CIPHERTEXT_BYTES := 64 * 1024 + 16

  /** `order` is the order in which the stored AAD object holds its properties. */
  datatype Payload = Payload(iv: Bytes, ciphertext: Ciphertext, aad: Aad, order: seq<Property>)

  datatype Profile = Profile(aadContextVault: Text, aadContextEnvelope: Text, legacyVaultKeyUnlock: Option<bool>, legacyVaultKeyAadContexts: Option<seq<Text>>)

  datatype Scope = Scope(userId: Text, resourceId: Text, field: VaultField, context: Option<Text>)

  function ResolveAadContext(scope: Scope, profile: Profile): Text {
    if scope.context.Some? then scope.context.value
    else if scope.field == VaultKeyField then profile.aadContextEnvelope
    else profile.aadContextVault
  }

  function AadOf(scope: Scope, profile: Profile): Aad {
    Aad(scope.userId, scope.resourceId, scope.field, Given(ResolveAadContext(scope, profile)))
  }

  /** `iv` is the random IV drawn; `order` follows the caller's scope object. */
  function EncryptField(plaintext: Text, key: Key, scope: Scope, profile: Profile, iv: Bytes, order: seq<Property>): Payload {
    var aad := AadOf(scope, profile);
    Payload(iv, Sealed(key, iv, StringToBytes(CanonicalAadString(aad)), StringToBytes(plaintext)), aad, order)
  }

  datatype DecryptError = TooLarge | NotAuthentic

  /** The size checks are made on the base64url form; by Base64Url.BoundedAcceptsExactly they bound the bytes. */
  predicate WithinBounds(p: Payload) {
    |p.iv| <= MAX_IV_BYTES && Length(p.ciphertext) <= MAX_CIPHERTEXT_BYTES
  }

  predicate OpensUnder(c: Ciphertext, key: Key, iv: Bytes, candidates: seq<Bytes>) {
    c.Sealed? && c.key == key && c.iv == iv && c.aad in candidates
  }

  function Decrypted(p: Payload, key: Key): Result<Text, DecryptError> {
    if !WithinBounds(p) then Err(TooLarge)
    else if OpensUnder(p.ciphertext, key, p.iv, AadByteCandidates(p.aad, p.order)) then Ok(BytesToString(p.ciphertext.plaintext))
    else Err(NotAuthentic)
  }

  /** The candidates are tried in turn and the last failure is remembered. */
  method TryCandidates(c: Ciphertext, key: Key, iv: Bytes, candidates: seq<Bytes>) returns (r: Result<Bytes, DecryptError>)
    ensures r.Ok? <==> OpensUnder(c, key, iv, candidates)
    ensures r == if r.Ok? then Ok(c.plaintext) else Err(NotAuthentic)
  {
    var lastError := NotAuthentic;
    for i := 0 to |candidates|
      invariant lastError == NotAuthentic
      invariant forall j :: 0 <= j < i ==> Open(c, key, iv, candidates[j]).None?
    {
      var plaintext := Open(c, key, iv, candidates[i]);
      if plaintext.Some? {
        return Ok(plaintext.value);
      }
      lastError := NotAuthentic;
    }
    return Err(lastError);
  }

  method DecryptField(p: Payload, key: Key) returns (r: Result<Text, DecryptError>)
    ensures r == Decrypted(p, key)
  {
    if !WithinBounds(p) {
      return Err(TooLarge);
    }
    var bytes := TryCandidates(p.ciphertext, key, p.iv, AadByteCandidates(p.aad, p.order));
    r := if bytes.Ok? then Ok(BytesToString(bytes.value)) else Err(bytes.error);
  }

  // ---------------------------------------------------------------- what decrypts

  predicate SizeOk(plaintext: Text, iv: Bytes) {
    |iv| <= MAX_IV_BYTES && |StringToBytes(plaintext)| <= 64 * 1024
  }

  /**
   What is sealed and stored: the text's UTF-8, for the scope's own record in the canonical order. Its
   context is the scope's if it names one, and otherwise the profile's, which has one for vault keys and
   one for everything else.
   */
  lemma SealsForItsScope(plaintext: Text, key: Key, scope: Scope, profile: Profile, iv: Bytes, order: seq<Property>)
    ensures var p := EncryptField(plaintext, key, scope, profile, iv, order);
            && p.iv == iv && p.order == order
            && p.aad.userId == scope.userId && p.aad.resourceId == scope.resourceId && p.aad.field == scope.field
            && (scope.context.Some? ==> p.aad.context == Given(scope.context.value))
            && (scope.context.None? && scope.field.VaultKeyField? ==> p.aad.context == Given(profile.aadContextEnvelope))
            && (scope.context.None? && !scope.field.VaultKeyField? ==> p.aad.context == Given(profile.aadContextVault))
            && p.ciphertext == Sealed(key, iv, StringToBytes(Stringify(p.aad, [ContextName, FieldName, ResourceIdName, UserIdName])), StringToBytes(plaintext))
  {
  }

  /** Why one that does not open is refused: its IV has more than 12 bytes, or its text more than 64 KiB and a tag, or it is not authentic. */
  lemma RefusedAs(p: Payload, key: Key)
    ensures Decrypted(p, key) == Err(TooLarge) <==> |p.iv| > 12 || Length(p.ciphertext) > 65_552
    ensures Decrypted(p, key) == Err(NotAuthentic) <==>
            && |p.iv| <= 12 && Length(p.ciphertext) <= 65_552
            && !(p.ciphertext.Sealed? && p.ciphertext.key == key && p.ciphertext.iv == p.iv && p.ciphertext.aad in AadByteCandidates(p.aad, p.order))
  {
  }

  /** Sealed for a record written in the order `x`. */
  predicate SealedAs(c: Ciphertext, a: Aad, x: seq<Property>) {
    c.Sealed? && c.aad == StringToBytes(Stringify(a, x))
  }

  /** What is sealed for one record opens exactly as that record, in an order recognised there, under that key. */
  lemma SealedOpensExactlyAs(sealedFor: Aad, x: seq<Property>, p: Payload, key: Key)
    requires IsOrder(x) && IsOrder(p.order) && SealedAs(p.ciphertext, sealedFor, x)
    ensures Decrypted(p, key).Ok? <==>
            && WithinBounds(p) && key == p.ciphertext.key && p.iv == p.ciphertext.iv
            && p.aad == sealedFor && Recognised(sealedFor, x, p.order)
    ensures Decrypted(p, key).Ok? ==> Decrypted(p, key).value == BytesToString(p.ciphertext.plaintext)
  {
    WrittenBelongsTo(sealedFor, x, p.aad, p.order);
  }

  /** In the orders the library itself writes, the order does not matter. */
  lemma LibrarySealedOpensExactlyAs(sealedFor: Aad, x: seq<Property>, p: Payload, key: Key)
    requires IsOrder(p.order) && (x == CANONICAL_ORDER || x == LEGACY_ORDER) && SealedAs(p.ciphertext, sealedFor, x)
    ensures Decrypted(p, key).Ok? <==> WithinBounds(p) && key == p.ciphertext.key && p.iv == p.ciphertext.iv && p.aad == sealedFor
    ensures Decrypted(p, key).Ok? ==> Decrypted(p, key).value == BytesToString(p.ciphertext.plaintext)
  {
    LibraryOrdersAreOrders(x);
    LibraryOrdersAreRecognised(sealedFor, p.order);
    SealedOpensExactlyAs(sealedFor, x, p, key);
  }

  lemma LibraryOrdersAreOrders(x: seq<Property>)
    requires x == CANONICAL_ORDER || x == LEGACY_ORDER
    ensures IsOrder(x)
  {
  }

  lemma CanonicallySealedOpensExactlyAs(sealedFor: Aad, canonical: seq<Property>, p: Payload, key: Key)
    requires canonical == CANONICAL_ORDER && IsOrder(p.order)
    requires p.ciphertext.Sealed? && p.ciphertext.aad == StringToBytes(CanonicalAadString(sealedFor))
    ensures Decrypted(p, key).Ok? <==> WithinBounds(p) && key == p.ciphertext.key && p.iv == p.ciphertext.iv && p.aad == sealedFor
    ensures Decrypted(p, key).Ok? ==> Decrypted(p, key).value == BytesToString(p.ciphertext.plaintext)
  {
    LibrarySealedOpensExactlyAs(sealedFor, canonical, p, key);
  }

  /**
   A ciphertext made for one record opens, of all records, only for that one, in whatever order
   it is stored, under the right key, if it is not too long.
   */
  lemma OpensOnlyForItsAad(plaintext: Text, key: Key, scope: Scope, profile: Profile, iv: Bytes, order: seq<Property>,
                           otherKey: Key, other: Payload)
    requires IsOrder(other.order) && other.iv == iv
    requires other.ciphertext == EncryptField(plaintext, key, scope, profile, iv, order).ciphertext
    ensures Decrypted(other, otherKey).Ok? <==> SizeOk(plaintext, iv) && otherKey == key && other.aad == AadOf(scope, profile)
    ensures Decrypted(other, otherKey).Ok? ==> Decrypted(other, otherKey).value == BytesToString(StringToBytes(plaintext))
  {
    CanonicallySealedOpensExactlyAs(AadOf(scope, profile), CANONICAL_ORDER, other, otherKey);
  }

  /**
   Decrypting undoes encrypting exactly for the texts that fit in 64 KiB of UTF-8, have no lone
   surrogate and do not begin with a byte order mark. Encryption itself refuses nothing.
   */
  lemma RoundTripExactlyWhen(plaintext: Text, key: Key, scope: Scope, profile: Profile, iv: Bytes, order: seq<Property>)
    requires IsOrder(order) && |iv| == MAX_IV_BYTES
    ensures Decrypted(EncryptField(plaintext, key, scope, profile, iv, order), key) == Ok(plaintext) <==>
            |StringToBytes(plaintext)| <= 64 * 1024 && WellFormed(plaintext) && !HasBom(plaintext)
  {
    var p := EncryptField(plaintext, key, scope, profile, iv, order);
    OpensOnlyForItsAad(plaintext, key, scope, profile, iv, order, key, p);
    TextSurvivesExactlyWhen(plaintext);
  }

  lemma EncodedTextReadsBack(b: Bytes)
    ensures BytesToString(StringToBytes(BytesToBase64Url(b))) == BytesToBase64Url(b)
    ensures |b| <= 49_152 ==> |StringToBytes(BytesToBase64Url(b))| <= 64 * 1024
  {
    var t := BytesToBase64Url(b);
    EncodeIsSymbols(b);
    EncodedLength(b);
    assert forall i :: 0 <= i < |t| ==> t[i] == UrlSymbol(Sextets(b)[i]) < 0x80;
    AsciiBytes(t);
    PlainIsWellFormed(t);
    TextSurvivesExactlyWhen(t);
  }

  /** What is stored in envelopes, base64url text of at most 64 KiB, always comes back. */
  lemma {:induction false} Base64UrlTextComesBack(b: Bytes, key: Key, scope: Scope, profile: Profile, iv: Bytes, order: seq<Property>)
    requires IsOrder(order) && |iv| == MAX_IV_BYTES && |b| <= 49_152
    ensures Decrypted(EncryptField(BytesToBase64Url(b), key, scope, profile, iv, order), key) == Ok(BytesToBase64Url(b))
  {
    var t := BytesToBase64Url(b);
    EncodedTextReadsBack(b);
    TextSurvivesExactlyWhen(t);
    RoundTripExactlyWhen(t, key, scope, profile, iv, order);
  }

  lemma {:induction false} AsciiBytes(t: Text)
    requires forall i :: 0 <= i < |t| ==> t[i] < 0x80
    ensures |StringToBytes(t)| == |t|
  {
    if t != [] {
      assert Scalars(t) == [t[0]] + Scalars(t[1..]);
      assert StringToBytes(t) == EncodeScalar(t[0]) + StringToBytes(t[1..]) by {
        assert Scalars(t)[1..] == Scalars(t[1..]);
      }
      AsciiBytes(t[1..]);
    }
  }
}
