/**
 Key derivation from passwords and recovery phrases, and when stored parameters are out of date
 (src/kdf/argon2id.ts, src/kdf/params.ts, src/crypto/policy.ts).
 */
module KeyDerivation {
  import opened Prelude
  import opened Unicode
  import opened Base64Url
  import opened AesGcm
  import opened VaultKeyEnvelope

  datatype Kdf = Argon2id | OtherKdf
  datatype KdfVersion = KdfV1 | KdfV2

  datatype KdfMetadata = KdfMetadata(kdf: Kdf, version: KdfVersion, salt: Text, memory: int, iterations: int, parallelism: int)

  /**
   What the code takes from elsewhere: AES-KW, Argon2id (password, salt, memory, iterations,
   parallelism), NFKC normalisation, and the canonical spelling of a valid BIP39 phrase.
   */
  datatype Platform = Platform(
    kw: KeyWrap,
    argon2id: (Bytes, Bytes, int, int, int) -> Bytes,
    nfkc: Text -> Text,
    phraseForm: Text -> Option<Text>,
    wordCount: Text -> nat)
  {
    ghost predicate Lawful() {
      kw.Lawful() && forall phrase: Text :: phraseForm(phrase).Some? ==> IsSpelled(phraseForm(phrase).value)
    }

    /** Spelling a canonical phrase changes nothing. */
    predicate IsSpelled(phrase: Text) {
      phraseForm(phrase) == Some(phrase)
    }
  }

  lemma PlatformLawsAreSatisfiable(argon2id: (Bytes, Bytes, int, int, int) -> Bytes, nfkc: Text -> Text, wordCount: Text -> nat)
    ensures Platform(KeyWrap((raw: Bytes, kek: Bytes) => Padded(raw), (blob: Bytes, kek: Bytes) => Unpadded(blob)), argon2id, nfkc, phrase => Some(phrase), wordCount).Lawful()
  {
    LawsAreSatisfiable();
  }

  const RECOMMENDED_MEMORY := 131072
  const RECOMMENDED_ITERATIONS := 4
  const RECOMMENDED_PARALLELISM := 1
  const SALT_BYTES := 16
  const MAX_SALT_TEXT := 128

  predicate SafeParams(m: KdfMetadata) {
    8192 <= m.memory <= 262144 && 1 <= m.iterations <= 10 && 1 <= m.parallelism <= 4
  }

  predicate SafeSalt(salt: Bytes) {
    16 <= |salt| <= 64
  }

  function Serialize(salt: Bytes): KdfMetadata {
    KdfMetadata(Argon2id, KdfV2, BytesToBase64Url(salt), RECOMMENDED_MEMORY, RECOMMENDED_ITERATIONS, RECOMMENDED_PARALLELISM)
  }

  function DeriveNew(platform: Platform, secret: Bytes, salt: Bytes): Key {
    platform.argon2id(secret, salt, RECOMMENDED_MEMORY, RECOMMENDED_ITERATIONS, RECOMMENDED_PARALLELISM)
  }

  function DeriveFromMetadata(platform: Platform, secret: Bytes, m: KdfMetadata): Option<Key> {
    if |m.salt| > MAX_SALT_TEXT || !SafeParams(m) then None
    else
      var salt := Base64UrlToBytes(m.salt);
      if salt.None? || !SafeSalt(salt.value) then None
      else Some(platform.argon2id(secret, salt.value, m.memory, m.iterations, m.parallelism))
  }

  /** What was derived for a new envelope is derived again from the metadata stored with it. */
  lemma DerivedAgain(platform: Platform, secret: Bytes, salt: Bytes)
    requires SafeSalt(salt)
    ensures DeriveFromMetadata(platform, secret, Serialize(salt)) == Some(DeriveNew(platform, secret, salt))
  {
    RoundTrip(salt);
    EncodedLength(salt);
  }

  predicate IsRecommended(m: KdfMetadata) {
    && m.kdf == Argon2id && m.version == KdfV2
    && m.memory == RECOMMENDED_MEMORY && m.iterations == RECOMMENDED_ITERATIONS && m.parallelism == RECOMMENDED_PARALLELISM
  }

  /** The stored parameters are not the recommended ones. */
  predicate UpgradeRecommended(m: KdfMetadata) {
    !IsRecommended(m)
  }

  function PasswordBytes(platform: Platform, password: Text): Bytes {
    StringToBytes(platform.nfkc(password))
  }

  function PasswordKey(platform: Platform, password: Text, m: KdfMetadata): Option<Key> {
    DeriveFromMetadata(platform, PasswordBytes(platform, password), m)
  }

  function PhraseKey(platform: Platform, phrase: Text, m: KdfMetadata): Option<Key> {
    var spelled := platform.phraseForm(phrase);
    if spelled.None? then None else DeriveFromMetadata(platform, StringToBytes(spelled.value), m)
  }

  const PRF_BYTES := 32

  /** The first 32 bytes of a PRF output are the key. */
  function PrfKey(prf: Bytes): Option<Key> {
    if |prf| < PRF_BYTES then None else Some(prf[..PRF_BYTES])
  }

  // ---------------------------------------------------------------- what is derived, and when

  /** An upgrade is recommended for everything but Argon2id, kdf-v2, with 128 MiB, 4 passes and 1 lane. */
  lemma UpgradeRecommendedExactlyWhen(m: KdfMetadata)
    ensures UpgradeRecommended(m) <==>
            m.kdf.OtherKdf? || m.version.KdfV1? || m.memory != 131072 || m.iterations != 4 || m.parallelism != 1
  {
  }

  /** New metadata say so, and keep the salt. */
  lemma NewMetadataAre(salt: Bytes)
    ensures Serialize(salt).kdf.Argon2id? && Serialize(salt).version.KdfV2?
    ensures Serialize(salt).memory == 131072 && Serialize(salt).iterations == 4 && Serialize(salt).parallelism == 1
    ensures Base64UrlToBytes(Serialize(salt).salt) == Some(salt)
  {
    RoundTrip(salt);
  }

  /**
   A key is derived exactly when the parameters are within bounds and the salt, of at most 128
   characters, decodes to 16 to 64 bytes; and then it is Argon2id of the secret under them.
   */
  lemma DerivesExactlyWhen(platform: Platform, secret: Bytes, m: KdfMetadata, salt: Bytes, key: Key)
    requires Base64UrlToBytes(m.salt) == Some(salt)
    ensures DeriveFromMetadata(platform, secret, m) == Some(key) <==>
            && 8192 <= m.memory <= 262144 && 1 <= m.iterations <= 10 && 1 <= m.parallelism <= 4
            && |m.salt| <= 128 && 16 <= |salt| <= 64
            && key == platform.argon2id(secret, salt, m.memory, m.iterations, m.parallelism)
  {
  }

  lemma UndecodableSaltDerivesNothing(platform: Platform, secret: Bytes, m: KdfMetadata)
    requires Base64UrlToBytes(m.salt).None?
    ensures DeriveFromMetadata(platform, secret, m).None?
  {
  }

  /** The secret is the UTF-8 of the normalised password, or of the canonical phrase. */
  lemma SecretsAre(platform: Platform, text: Text, m: KdfMetadata)
    ensures PasswordKey(platform, text, m) == DeriveFromMetadata(platform, StringToBytes(platform.nfkc(text)), m)
    ensures PhraseKey(platform, text, m) ==
            if platform.phraseForm(text).Some? then DeriveFromMetadata(platform, StringToBytes(platform.phraseForm(text).value), m) else None
  {
  }

  /** A passkey's key is its first 32 bytes; less makes none. */
  lemma PrfKeyIsFirstBytes(prf: Bytes, key: Key)
    ensures PrfKey(prf) == Some(key) <==> |key| == 32 && key <= prf
  {
    assert key <= prf ==> prf[..|key|] == key;
  }
}
