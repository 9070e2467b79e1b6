/**
 Which records an envelope's ciphertext may have been sealed for, and in which order they are
 tried (src/envelopes/legacy-vault-key-unlock.ts, src/validation/aad-assert.ts,
 src/validation/envelope-aad-normalize.ts).
 */
module AadRouting {
  import opened Prelude
  import opened Unicode
  import opened Base64Url
  import opened VaultAad
  import opened AesGcm
  import opened VaultKeyEnvelope

  predicate LegacyEnabled(profile: Profile) {
    profile.legacyVaultKeyUnlock != Some(false)
  }

  predicate AllowListed(text: Text, profile: Profile) {
    profile.legacyVaultKeyAadContexts.Some? && text in profile.legacyVaultKeyAadContexts.value
  }

  predicate IsVaultKeyAadContextAllowed(context: Context, profile: Profile) {
    if context == Given(profile.aadContextEnvelope) then true
    else if !LegacyEnabled(profile) then false
    else if !context.Given? then true
    else AllowListed(context.text, profile)
  }

  predicate IsLegacyVaultKeyEnvelope(p: Payload, profile: Profile) {
    p.aad.field == VaultKeyField && p.aad.context != Given(profile.aadContextEnvelope)
  }

  function ScopeFailure(expected: VaultKeyScope, aad: Aad): Option<Failure> {
    if aad.userId != expected.userId || aad.resourceId != expected.resourceId then Some(ScopeMismatch)
    else if aad.field != VaultKeyField then Some(FieldMismatch)
    else None
  }

  function VaultKeyAadFailure(expected: VaultKeyScope, aad: Aad, profile: Profile): Option<Failure> {
    if ScopeFailure(expected, aad).Some? then ScopeFailure(expected, aad)
    else if aad.context != Given(profile.aadContextEnvelope) then Some(ContextMismatch)
    else None
  }

  // ---------------------------------------------------------------- candidates

  function AddContext(cs: seq<Context>, c: Context): seq<Context> {
    if c in cs then cs else cs + [c]
  }

  function Contexts(stored: Context, profile: Profile): (cs: seq<Context>)
    ensures |cs| >= 2
  {
    var cs := AddContext([Given(profile.aadContextEnvelope)], Absent);
    if stored.NullContext? then AddContext(cs, NullContext)
    else if stored.Given? && AllowListed(stored.text, profile) then AddContext(cs, stored)
    else cs
  }

  /** A property taken out and spread in again goes last. */
  function ContextLast(order: seq<Property>): seq<Property> {
    WithoutContext(order) + [ContextName]
  }

  function Candidate(p: Payload, context: Context): Payload {
    p.(aad := p.aad.(context := context), order := ContextLast(p.order))
  }

  function Candidates(p: Payload, profile: Profile): (cs: seq<Payload>)
    ensures |cs| == |Contexts(p.aad.context, profile)|
    ensures forall i :: 0 <= i < |cs| ==> cs[i] == Candidate(p, Contexts(p.aad.context, profile)[i])
  {
    var contexts := Contexts(p.aad.context, profile);
    seq(|contexts|, i requires 0 <= i < |contexts| => Candidate(p, contexts[i]))
  }

  /** The scope check is repeated on every candidate. */
  function Attempt(kw: KeyWrap, key: Key, expected: VaultKeyScope, c: Payload): Result<Unwrapped, Failure> {
    var failure := ScopeFailure(expected, c.aad);
    if failure.Some? then Err(failure.value) else UnwrapVaultKey(kw, c, key)
  }

  /** The first candidate that unlocks, or else the failure of the last. */
  function FirstUnlocked(kw: KeyWrap, key: Key, expected: VaultKeyScope, cs: seq<Payload>): Result<Unwrapped, Failure>
    requires cs != []
  {
    var r := Attempt(kw, key, expected, cs[0]);
    if r.Ok? || |cs| == 1 then r else FirstUnlocked(kw, key, expected, cs[1..])
  }

  function Fallback(kw: KeyWrap, p: Payload, key: Key, expected: VaultKeyScope, profile: Profile): Result<Unwrapped, Failure> {
    if ScopeFailure(expected, p.aad).Some? then Err(ScopeFailure(expected, p.aad).value)
    else if !IsVaultKeyAadContextAllowed(p.aad.context, profile) then Err(ContextMismatch)
    else FirstUnlocked(kw, key, expected, Candidates(p, profile))
  }

  method UnwrapVaultKeyWithLegacyAadFallback(kw: KeyWrap, p: Payload, key: Key, expected: VaultKeyScope, profile: Profile)
    returns (r: Result<Unwrapped, Failure>)
    ensures r == Fallback(kw, p, key, expected, profile)
  {
    var failure := ScopeFailure(expected, p.aad);
    if failure.Some? {
      return Err(failure.value);
    }
    if !IsVaultKeyAadContextAllowed(p.aad.context, profile) {
      return Err(ContextMismatch);
    }
    r := TryCandidates(kw, key, expected, Candidates(p, profile));
  }

  /** The fallback loop. */
  method TryCandidates(kw: KeyWrap, key: Key, expected: VaultKeyScope, candidates: seq<Payload>) returns (r: Result<Unwrapped, Failure>)
    requires candidates != []
    ensures r == FirstUnlocked(kw, key, expected, candidates)
  {
    var lastError := InnerNotUnwrapped;
    for i := 0 to |candidates|
      invariant i < |candidates| ==> FirstUnlocked(kw, key, expected, candidates) == FirstUnlocked(kw, key, expected, candidates[i..])
      invariant i == |candidates| ==> FirstUnlocked(kw, key, expected, candidates) == Err(lastError)
    {
      var attempt := Attempt(kw, key, expected, candidates[i]);
      assert candidates[i..][1..] == candidates[i + 1..];
      if attempt.Ok? {
        return attempt;
      }
      lastError := attempt.error;
    }
    return Err(lastError);
  }

  /** A vault-key record without a context gets the canonical one; a string is left alone. */
  function NormalizeEnvelopeAadContext(p: Payload, profile: Profile): Payload {
    if p.aad.field != VaultKeyField || p.aad.context.Given? then p
    else
      p.(aad := p.aad.(context := Given(profile.aadContextEnvelope)),
         order := if p.aad.context.Absent? then ContextLast(p.order) else p.order)
  }

  function Unlock(kw: KeyWrap, p: Payload, key: Key, expected: VaultKeyScope, profile: Profile): Result<Unwrapped, Failure> {
    if IsLegacyVaultKeyEnvelope(p, profile) then
      if !LegacyEnabled(profile) || !IsVaultKeyAadContextAllowed(p.aad.context, profile) then Err(ContextMismatch)
      else Fallback(kw, p, key, expected, profile)
    else
      var normalized := NormalizeEnvelopeAadContext(p, profile);
      var failure := VaultKeyAadFailure(expected, normalized.aad, profile);
      if failure.Some? then Err(failure.value) else UnwrapVaultKey(kw, normalized, key)
  }

  method UnlockVaultKeyEnvelopeWithAadRouting(kw: KeyWrap, p: Payload, key: Key, expected: VaultKeyScope, profile: Profile)
    returns (r: Result<Unwrapped, Failure>)
    ensures r == Unlock(kw, p, key, expected, profile)
  {
    var legacyEnabled := LegacyEnabled(profile);
    if !legacyEnabled && IsLegacyVaultKeyEnvelope(p, profile) {
      return Err(ContextMismatch);
    }
    if legacyEnabled && IsLegacyVaultKeyEnvelope(p, profile) {
      if !IsVaultKeyAadContextAllowed(p.aad.context, profile) {
        return Err(ContextMismatch);
      }
      r := UnwrapVaultKeyWithLegacyAadFallback(kw, p, key, expected, profile);
      return;
    }
    var normalized := NormalizeEnvelopeAadContext(p, profile);
    var failure := VaultKeyAadFailure(expected, normalized.aad, profile);
    if failure.Some? {
      return Err(failure.value);
    }
    return UnwrapVaultKey(kw, normalized, key);
  }

  // ---------------------------------------------------------------- what the routing admits

  /** The contexts a ciphertext may have been sealed under, given the stored one. */
  predicate Admits(profile: Profile, stored: Context, sealedUnder: Context) {
    if stored == Given(profile.aadContextEnvelope) then sealedUnder == stored
    else
      && LegacyEnabled(profile)
      && (stored.Given? ==> AllowListed(stored.text, profile))
      && (sealedUnder == Given(profile.aadContextEnvelope) || sealedUnder == Absent || sealedUnder == stored)
  }

  lemma ContextsAre(stored: Context, profile: Profile, c: Context)
    requires stored != Given(profile.aadContextEnvelope) && IsVaultKeyAadContextAllowed(stored, profile)
    ensures c in Contexts(stored, profile) <==> Admits(profile, stored, c)
  {
  }

  /** What trying each candidate alone gives. */
  function Attempts(kw: KeyWrap, key: Key, expected: VaultKeyScope, cs: seq<Payload>): (rs: seq<Result<Unwrapped, Failure>>)
    ensures |rs| == |cs| && forall i :: 0 <= i < |cs| ==> rs[i] == Attempt(kw, key, expected, cs[i])
  {
    seq(|cs|, i requires 0 <= i < |cs| => Attempt(kw, key, expected, cs[i]))
  }

  function FirstOk(rs: seq<Result<Unwrapped, Failure>>): (r: Result<Unwrapped, Failure>)
    requires rs != []
    ensures r in rs && (r.Ok? <==> exists x :: x in rs && x.Ok?)
  {
    if rs[0].Ok? || |rs| == 1 then rs[0] else FirstOk(rs[1..])
  }

  lemma {:induction false} FirstUnlockedIsFirstOk(kw: KeyWrap, key: Key, expected: VaultKeyScope, cs: seq<Payload>, rs: seq<Result<Unwrapped, Failure>>)
    requires cs != [] && rs == Attempts(kw, key, expected, cs)
    ensures FirstUnlocked(kw, key, expected, cs) == FirstOk(rs)
    decreases |cs|
  {
    if rs[0].Err? && |cs| > 1 {
      assert rs[1..] == Attempts(kw, key, expected, cs[1..]);
      FirstUnlockedIsFirstOk(kw, key, expected, cs[1..], rs[1..]);
    }
  }

  lemma FirstUnlockedExactlyWhen(kw: KeyWrap, key: Key, expected: VaultKeyScope, cs: seq<Payload>)
    requires cs != []
    ensures FirstUnlocked(kw, key, expected, cs).Ok? <==> exists c :: c in cs && Attempt(kw, key, expected, c).Ok?
    ensures exists c :: c in cs && FirstUnlocked(kw, key, expected, cs) == Attempt(kw, key, expected, c)
  {
    var rs := Attempts(kw, key, expected, cs);
    FirstUnlockedIsFirstOk(kw, key, expected, cs, rs);
    var i :| 0 <= i < |rs| && rs[i] == FirstOk(rs);
    assert cs[i] in cs;
    forall c | c in cs && Attempt(kw, key, expected, c).Ok?
      ensures FirstOk(rs).Ok?
    {
      var j :| 0 <= j < |cs| && cs[j] == c;
      assert rs[j] in rs;
    }
  }

  lemma CandidatesAreRouted(p: Payload, profile: Profile, q: Payload)
    requires p.aad.context != Given(profile.aadContextEnvelope) && IsVaultKeyAadContextAllowed(p.aad.context, profile)
    ensures q in Candidates(p, profile) <==> exists c :: Admits(profile, p.aad.context, c) && q == Candidate(p, c)
  {
    var cs, contexts := Candidates(p, profile), Contexts(p.aad.context, profile);
    if q in cs {
      var i :| 0 <= i < |cs| && cs[i] == q;
      ContextsAre(p.aad.context, profile, contexts[i]);
    }
    forall c | Admits(profile, p.aad.context, c) && q == Candidate(p, c)
      ensures q in cs
    {
      ContextsAre(p.aad.context, profile, c);
      var i :| 0 <= i < |contexts| && contexts[i] == c;
      assert cs[i] == q;
    }
  }

  lemma CandidatesExactlyWhen(kw: KeyWrap, p: Payload, key: Key, expected: VaultKeyScope, profile: Profile)
    requires p.aad.context != Given(profile.aadContextEnvelope) && IsVaultKeyAadContextAllowed(p.aad.context, profile)
    requires ScopeFailure(expected, p.aad).None?
    ensures var r := FirstUnlocked(kw, key, expected, Candidates(p, profile));
            && (r.Ok? <==> exists c :: Admits(profile, p.aad.context, c) && UnwrapVaultKey(kw, Candidate(p, c), key).Ok?)
            && exists c :: Admits(profile, p.aad.context, c) && r == UnwrapVaultKey(kw, Candidate(p, c), key)
  {
    var cs := Candidates(p, profile);
    FirstUnlockedExactlyWhen(kw, key, expected, cs);
    forall q
      ensures q in cs <==> exists c :: Admits(profile, p.aad.context, c) && q == Candidate(p, c)
    {
      CandidatesAreRouted(p, profile, q);
    }
    forall c
      ensures Attempt(kw, key, expected, Candidate(p, c)) == UnwrapVaultKey(kw, Candidate(p, c), key)
    {
    }
  }

  /** The record as a candidate would have it. */
  function Routed(p: Payload, profile: Profile, c: Context): Payload {
    if p.aad.context == Given(profile.aadContextEnvelope) then p else Candidate(p, c)
  }

  /** Unlocking succeeds exactly when scope and field match and the record opens under an admitted context. */
  lemma UnlocksExactlyWhen(kw: KeyWrap, p: Payload, key: Key, expected: VaultKeyScope, profile: Profile)
    ensures Unlock(kw, p, key, expected, profile).Ok? <==>
            && ScopeFailure(expected, p.aad).None?
            && exists c :: Admits(profile, p.aad.context, c) && UnwrapVaultKey(kw, Routed(p, profile, c), key).Ok?
    ensures Unlock(kw, p, key, expected, profile).Ok? ==>
            exists c :: Admits(profile, p.aad.context, c) && Unlock(kw, p, key, expected, profile) == UnwrapVaultKey(kw, Routed(p, profile, c), key)
  {
    if ScopeFailure(expected, p.aad).None? {
      if p.aad.context == Given(profile.aadContextEnvelope) {
        assert Admits(profile, p.aad.context, p.aad.context);
      } else if IsVaultKeyAadContextAllowed(p.aad.context, profile) {
        CandidatesExactlyWhen(kw, p, key, expected, profile);
      }
    }
  }

  // ---------------------------------------------------------------- the profile's settings

  /** The canonical context is always allowed; any other only with legacy unlock, and a string only if it is listed. */
  lemma AllowedExactlyWhen(context: Context, profile: Profile)
    ensures IsVaultKeyAadContextAllowed(context, profile) <==>
            || context == Given(profile.aadContextEnvelope)
            || (profile.legacyVaultKeyUnlock != Some(false)
                && (context.Given? ==> profile.legacyVaultKeyAadContexts.Some? && context.text in profile.legacyVaultKeyAadContexts.value))
  {
  }

  lemma AdmitsExactlyWhen(profile: Profile, stored: Context, sealedUnder: Context)
    ensures Admits(profile, stored, sealedUnder) <==>
            && IsVaultKeyAadContextAllowed(stored, profile)
            && (sealedUnder == stored
                || (stored != Given(profile.aadContextEnvelope) && (sealedUnder == Given(profile.aadContextEnvelope) || sealedUnder == Absent)))
  {
  }

  lemma InScopeExactlyWhen(expected: VaultKeyScope, aad: Aad)
    ensures ScopeFailure(expected, aad).None? <==> aad.userId == expected.userId && aad.resourceId == expected.resourceId && aad.field == VaultKeyField
    ensures ScopeFailure(expected, aad) == Some(FieldMismatch) <==>
            aad.userId == expected.userId && aad.resourceId == expected.resourceId && aad.field != VaultKeyField
  {
  }

  /** A profile that does not say allows legacy unlock. */
  lemma LegacyUnlockIsTheDefault(kw: KeyWrap, p: Payload, key: Key, expected: VaultKeyScope, profile: Profile)
    requires profile.legacyVaultKeyUnlock.None?
    ensures Unlock(kw, p, key, expected, profile) == Unlock(kw, p, key, expected, profile.(legacyVaultKeyUnlock := Some(true)))
  {
    var on := profile.(legacyVaultKeyUnlock := Some(true));
    assert Contexts(p.aad.context, profile) == Contexts(p.aad.context, on);
    assert Candidates(p, profile) == Candidates(p, on);
  }

  /** One that forbids it unlocks exactly canonical records, as they are stored. */
  lemma WithoutLegacyUnlocksExactlyWhen(kw: KeyWrap, p: Payload, key: Key, expected: VaultKeyScope, profile: Profile)
    requires profile.legacyVaultKeyUnlock == Some(false)
    ensures Unlock(kw, p, key, expected, profile).Ok? <==>
            p.aad == Aad(expected.userId, expected.resourceId, VaultKeyField, Given(profile.aadContextEnvelope)) && UnwrapVaultKey(kw, p, key).Ok?
    ensures Unlock(kw, p, key, expected, profile).Ok? ==> Unlock(kw, p, key, expected, profile) == UnwrapVaultKey(kw, p, key)
  {
  }

  /** The fallback repeats both checks, the scope's first. */
  lemma FallbackRefusedAs(kw: KeyWrap, p: Payload, key: Key, expected: VaultKeyScope, profile: Profile)
    ensures p.aad.userId != expected.userId || p.aad.resourceId != expected.resourceId ==> Fallback(kw, p, key, expected, profile) == Err(ScopeMismatch)
    ensures ScopeFailure(expected, p.aad).None? && !IsVaultKeyAadContextAllowed(p.aad.context, profile) ==>
              Fallback(kw, p, key, expected, profile) == Err(ContextMismatch)
  {
  }

  /** Normalising gives a vault-key record without a context, or with a null one, the canonical context, and changes nothing else. */
  lemma NormalizedIs(p: Payload, profile: Profile)
    ensures var q := NormalizeEnvelopeAadContext(p, profile);
            && q.iv == p.iv && q.ciphertext == p.ciphertext
            && q.aad == p.aad.(context := if p.aad.field == VaultKeyField && !p.aad.context.Given? then Given(profile.aadContextEnvelope) else p.aad.context)
            && (q.order != p.order ==> p.aad.field == VaultKeyField && p.aad.context.Absent? && q.order == ContextLast(p.order))
  {
  }

  /** A vault-key record whose context is not allowed is refused for its context, whatever else is wrong. */
  lemma DisallowedContextIsRefused(kw: KeyWrap, p: Payload, key: Key, expected: VaultKeyScope, profile: Profile)
    requires p.aad.field == VaultKeyField && !IsVaultKeyAadContextAllowed(p.aad.context, profile)
    ensures Unlock(kw, p, key, expected, profile) == Err(ContextMismatch)
  {
  }

  // ---------------------------------------------------------------- what it was sealed for

  lemma {:induction false} WithoutContextKeepsOthers(order: seq<Property>)
    ensures multiset(WithoutContext(order)) == multiset(order)[ContextName := 0]
  {
    if order == [] {
    } else {
      WithoutContextKeepsOthers(order[1..]);
      assert order == [order[0]] + order[1..];
    }
  }

  lemma ContextLastIsOrder(order: seq<Property>)
    requires IsOrder(order)
    ensures IsOrder(ContextLast(order))
  {
    WithoutContextKeepsOthers(order);
    assert multiset(ContextLast(order)) == multiset(WithoutContext(order)) + multiset{ContextName};
  }

  /** The orders in which a sealed record is recognised once it is stored as `p`. */
  function TriedOrder(p: Payload, profile: Profile): seq<Property> {
    if p.aad.context == Given(profile.aadContextEnvelope) then p.order else ContextLast(p.order)
  }

  lemma UnwrapOfText(kw: KeyWrap, q: Payload, key: Key, inner: Bytes)
    requires Decrypted(q, key).Ok? ==> Decrypted(q, key).value == BytesToBase64Url(inner)
    ensures var r := UnwrapVaultKey(kw, q, key);
            && (r.Ok? <==> Decrypted(q, key).Ok? && OpenInner(kw, inner, key).Some?)
            && (r.Ok? ==> OpenInner(kw, inner, key) == Some(r.value.vaultKey) && r.value.inner == inner)
  {
    RoundTrip(inner);
  }

  /** What has to be right whatever the record: size, key, IV and inner blob. */
  predicate Openable(kw: KeyWrap, p: Payload, key: Key, inner: Bytes) {
    p.ciphertext.Sealed? && WithinBounds(p) && key == p.ciphertext.key && p.iv == p.ciphertext.iv && OpenInner(kw, inner, key).Some?
  }

  lemma SealedInnerOpensExactlyAs(kw: KeyWrap, q: Payload, key: Key, sealedFor: Aad, x: seq<Property>, inner: Bytes)
    requires IsOrder(x) && IsOrder(q.order) && SealedAs(q.ciphertext, sealedFor, x)
    requires BytesToString(q.ciphertext.plaintext) == BytesToBase64Url(inner)
    ensures var r := UnwrapVaultKey(kw, q, key);
            && (r.Ok? <==> Openable(kw, q, key, inner) && sealedFor == q.aad && Recognised(sealedFor, x, q.order))
            && (r.Ok? ==> OpenInner(kw, inner, key) == Some(r.value.vaultKey) && r.value.inner == inner)
  {
    SealedOpensExactlyAs(sealedFor, x, q, key);
    UnwrapOfText(kw, q, key, inner);
  }

  lemma RoutedIs(p: Payload, profile: Profile, c: Context, q: Payload)
    requires IsOrder(p.order) && Admits(profile, p.aad.context, c) && q == Routed(p, profile, c)
    ensures q == Payload(p.iv, p.ciphertext, p.aad.(context := c), TriedOrder(p, profile)) && IsOrder(q.order)
  {
    ContextLastIsOrder(p.order);
  }

  lemma RoutedOpensExactlyWhen(kw: KeyWrap, p: Payload, key: Key, profile: Profile, sealedFor: Aad, x: seq<Property>, inner: Bytes, c: Context)
    requires IsOrder(x) && IsOrder(p.order) && SealedAs(p.ciphertext, sealedFor, x)
    requires Admits(profile, p.aad.context, c) && BytesToString(p.ciphertext.plaintext) == BytesToBase64Url(inner)
    ensures var r := UnwrapVaultKey(kw, Routed(p, profile, c), key);
            && (r.Ok? <==> Openable(kw, p, key, inner) && sealedFor == p.aad.(context := c) && Recognised(sealedFor, x, TriedOrder(p, profile)))
            && (r.Ok? ==> OpenInner(kw, inner, key) == Some(r.value.vaultKey) && r.value.inner == inner)
  {
    var q := Routed(p, profile, c);
    RoutedIs(p, profile, c, q);
    SealedInnerOpensExactlyAs(kw, q, key, sealedFor, x, inner);
  }

  /**
   Sound and complete, for a ciphertext sealed for any record written in any order: the envelope
   unlocks exactly when it is stored under the expected scope as a vault key, with the key and IV it
   was sealed with, its inner blob opens, and it was sealed for its own record, in an order that is
   recognised, in the canonical context or, from any other allowed stored context, in the canonical,
   no, or the stored context.
   */
  lemma RoutingExactlyWhen(kw: KeyWrap, p: Payload, key: Key, expected: VaultKeyScope, profile: Profile, sealedFor: Aad, x: seq<Property>, inner: Bytes)
    requires IsOrder(x) && IsOrder(p.order) && SealedAs(p.ciphertext, sealedFor, x)
    requires p.ciphertext.plaintext == StringToBytes(BytesToBase64Url(inner))
    ensures Unlock(kw, p, key, expected, profile).Ok? <==>
            && ScopeFailure(expected, p.aad).None? && Openable(kw, p, key, inner)
            && sealedFor == p.aad.(context := sealedFor.context) && Admits(profile, p.aad.context, sealedFor.context)
            && Recognised(sealedFor, x, TriedOrder(p, profile))
    ensures Unlock(kw, p, key, expected, profile).Ok? ==>
            var r := Unlock(kw, p, key, expected, profile).value;
            OpenInner(kw, inner, key) == Some(r.vaultKey) && r.inner == inner
  {
    UnlocksExactlyWhen(kw, p, key, expected, profile);
    EncodedTextReadsBack(inner);
    forall c | Admits(profile, p.aad.context, c)
      ensures var r := UnwrapVaultKey(kw, Routed(p, profile, c), key);
              && (r.Ok? <==> Openable(kw, p, key, inner) && sealedFor == p.aad.(context := c) && Recognised(sealedFor, x, TriedOrder(p, profile)))
              && (r.Ok? ==> OpenInner(kw, inner, key) == Some(r.value.vaultKey) && r.value.inner == inner)
    {
      RoutedOpensExactlyWhen(kw, p, key, profile, sealedFor, x, inner, c);
    }
  }

  // ---------------------------------------------------------------- stored as it was sealed

  lemma {:induction false} NothingToLeaveOut(order: seq<Property>)
    requires ContextName !in order
    ensures WithoutContext(order) == order
  {
    if order != [] {
      NothingToLeaveOut(order[1..]);
    }
  }

  lemma {:induction false} WithoutContextConcat(p: seq<Property>, q: seq<Property>)
    ensures WithoutContext(p + q) == WithoutContext(p) + WithoutContext(q)
  {
    if p == [] {
      assert p + q == q;
    } else {
      assert (p + q)[0] == p[0] && (p + q)[1..] == p[1..] + q;
      WithoutContextConcat(p[1..], q);
    }
  }

  lemma MovingTheContextKeepsTheRest(order: seq<Property>)
    ensures WithoutContext(ContextLast(order)) == WithoutContext(order)
  {
    WithoutContextConcat(WithoutContext(order), [ContextName]);
    NothingToLeaveOut(WithoutContext(order));
  }

  lemma LegacyOrderEndsInContext(own: seq<Property>)
    requires own == LEGACY_ORDER
    ensures ContextLast(own) == own
  {
    assert own == [UserIdName, ResourceIdName, FieldName] + [ContextName];
    WithoutContextConcat([UserIdName, ResourceIdName, FieldName], [ContextName]);
    NothingToLeaveOut([UserIdName, ResourceIdName, FieldName]);
  }

  /** The fallback still reads a record in its own order exactly when nothing is moved, or the order is canonical. */
  lemma OwnOrderRecognisedExactlyWhen(a: Aad, own: seq<Property>)
    ensures Recognised(a, own, ContextLast(own)) <==> a.context.Absent? || own == CANONICAL_ORDER || ContextLast(own) == own
  {
    InTriedOrders(ContextLast(own));
    if a.context.Absent? {
      MovingTheContextKeepsTheRest(own);
    } else if own == LEGACY_ORDER {
      LegacyOrderEndsInContext(own);
    }
  }

  /**
   An envelope sealed for the very text of its stored record unlocks with its key exactly when the
   scope matches, the context is allowed, and it is canonical, or missing, or the order of the
   stored record is the canonical one or has the context last.
   */
  lemma StoredAsSealedUnlocksExactlyWhen(kw: KeyWrap, p: Payload, key: Key, expected: VaultKeyScope, profile: Profile, inner: Bytes)
    requires IsOrder(p.order) && SealedAs(p.ciphertext, p.aad, p.order)
    requires p.ciphertext.plaintext == StringToBytes(BytesToBase64Url(inner)) && Openable(kw, p, key, inner)
    ensures Unlock(kw, p, key, expected, profile).Ok? <==>
            && ScopeFailure(expected, p.aad).None? && IsVaultKeyAadContextAllowed(p.aad.context, profile)
            && (p.aad.context == Given(profile.aadContextEnvelope) || p.aad.context.Absent?
                || p.order == CANONICAL_ORDER || ContextLast(p.order) == p.order)
  {
    RoutingExactlyWhen(kw, p, key, expected, profile, p.aad, p.order, inner);
    OwnOrderRecognisedExactlyWhen(p.aad, p.order);
    LibraryOrdersAreRecognised(p.aad, p.order);
    AllowedIsAdmitted(p.aad.context, profile);
  }

  lemma AllowedIsAdmitted(stored: Context, profile: Profile)
    ensures IsVaultKeyAadContextAllowed(stored, profile) <==> Admits(profile, stored, stored)
  {
  }

  /** One sealed in an order the library writes unlocks, however it is stored, exactly when scope and context are right. */
  lemma LibrarySealedUnlocksExactlyWhen(kw: KeyWrap, p: Payload, key: Key, expected: VaultKeyScope, profile: Profile, x: seq<Property>, inner: Bytes)
    requires IsOrder(p.order) && (x == CANONICAL_ORDER || x == LEGACY_ORDER) && SealedAs(p.ciphertext, p.aad, x)
    requires p.ciphertext.plaintext == StringToBytes(BytesToBase64Url(inner)) && Openable(kw, p, key, inner)
    ensures Unlock(kw, p, key, expected, profile).Ok? <==>
            ScopeFailure(expected, p.aad).None? && IsVaultKeyAadContextAllowed(p.aad.context, profile)
  {
    LibraryOrdersAreOrders(x);
    RoutingExactlyWhen(kw, p, key, expected, profile, p.aad, x, inner);
    LibraryOrdersAreRecognised(p.aad, TriedOrder(p, profile));
    AllowedIsAdmitted(p.aad.context, profile);
  }

  lemma OpenedUnderOneOrder(q: Payload, key: Key) returns (x: seq<Property>)
    requires IsOrder(q.order) && Decrypted(q, key).Ok?
    ensures x in Orders(q.order) && IsOrder(x) && q.ciphertext.Sealed? && q.ciphertext.key == key && q.ciphertext.aad == StringToBytes(Stringify(q.aad, x))
  {
    CandidatesAre(q.aad, Orders(q.order), q.ciphertext.aad);
    x :| x in Orders(q.order) && q.ciphertext.aad == StringToBytes(Stringify(q.aad, x));
    OrdersAreOrders(q.order, x);
  }

  /** Whatever the bytes are, one that unlocks was sealed with the key for the stored record in an admitted context. */
  lemma UnlockIsSound(kw: KeyWrap, p: Payload, key: Key, expected: VaultKeyScope, profile: Profile)
    requires IsOrder(p.order) && Unlock(kw, p, key, expected, profile).Ok?
    ensures p.aad.userId == expected.userId && p.aad.resourceId == expected.resourceId && p.aad.field == VaultKeyField
    ensures p.ciphertext.Sealed? && p.ciphertext.key == key
    ensures exists c, x :: Admits(profile, p.aad.context, c) && IsOrder(x) && p.ciphertext.aad == StringToBytes(Stringify(p.aad.(context := c), x))
  {
    UnlocksExactlyWhen(kw, p, key, expected, profile);
    var c :| Admits(profile, p.aad.context, c) && UnwrapVaultKey(kw, Routed(p, profile, c), key).Ok?;
    var q := Routed(p, profile, c);
    ContextLastIsOrder(p.order);
    var x := OpenedUnderOneOrder(q, key);
    assert q.aad == p.aad.(context := c);
  }

  // ---------------------------------------------------------------- a stored order that is not tried

  /** An order `JSON.stringify` may have met in a stored record, with the context first. */
  const CONTEXT_FIRST := [ContextName, UserIdName, ResourceIdName, FieldName]

  lemma ContextFirstMoves(own: seq<Property>)
    requires own == CONTEXT_FIRST
    ensures IsOrder(own) && own != CANONICAL_ORDER && ContextLast(own) != own
  {
    assert own[0] == ContextName && own[1] == UserIdName;
    assert CANONICAL_ORDER[1] == FieldName;
    var moved := ContextLast(own);
    assert moved[|moved| - 1] == ContextName && own[|own| - 1] == FieldName;
  }

  /**
   It happens: sealed for the text of its own stored record, context first, an envelope opens as it is
   stored; but the fallback moves the context to the end of every candidate, so with a null or
   allow-listed context it never unlocks.
   */
  lemma StoredOrderIsForgotten(kw: KeyWrap, p: Payload, own: seq<Property>, expected: VaultKeyScope, profile: Profile, inner: Bytes)
    requires own == CONTEXT_FIRST && p.order == own && SealedAs(p.ciphertext, p.aad, own)
    requires p.aad.context != Given(profile.aadContextEnvelope) && p.aad.context != Absent
    requires p.ciphertext.plaintext == StringToBytes(BytesToBase64Url(inner)) && Openable(kw, p, p.ciphertext.key, inner)
    ensures UnwrapVaultKey(kw, p, p.ciphertext.key).Ok? && Unlock(kw, p, p.ciphertext.key, expected, profile).Err?
  {
    ContextFirstMoves(own);
    StoredAsSealedUnlocksExactlyWhen(kw, p, p.ciphertext.key, expected, profile, inner);
    LibraryOrdersAreRecognised(p.aad, own);
    EncodedTextReadsBack(inner);
    SealedInnerOpensExactlyAs(kw, p, p.ciphertext.key, p.aad, own, inner);
  }
}
