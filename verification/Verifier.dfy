/** The relying party's checks: the shared envelope, the three nonce-spending verifications, and the
    delegation, revocation and succession checks. */
module Verifier {
  import opened Wrappers
  import opened Words
  import opened Statements
  import opened NonceStore

  const MAX_AGE_CEILING_SECS: u64 := 3_600
  const NONCE_SKEW_SECS: u64 := 300

  datatype AuthError =
    | AudienceMismatch | StaleOrFutureProof | Expired | BadSignature | NonceAlreadyUsed | ActionMismatch
    | RequestMismatch | RequestDigestNotChecked | NotDelegated | NotAuthorised | Revoked | Malformed

  /** What ML-DSA verification answers: a verdict, or that the key or signature cannot be decoded. */
  datatype Verdict = Verified | NotVerified | Undecodable

  /** Signature verification: public key, purpose, message, signature. */
  type SigCheck = (Bytes, Bytes, Bytes, Bytes) -> Verdict

  datatype VerifyParams = VerifyParams(expectedAudience: Bytes, now: u64, maxAgeSecs: u64)

  // ── The shared envelope ────────────────────────────────────────────────────

  function CheckEnvelope(audience: Bytes, issuedAt: u64, expiresAt: u64, params: VerifyParams): Outcome<AuthError> {
    if audience == [] then Fail(Malformed)
    else if audience != params.expectedAudience then Fail(AudienceMismatch)
    else if issuedAt > params.now then Fail(StaleOrFutureProof)
    else if SatSub64(params.now, issuedAt) > Min(params.maxAgeSecs, MAX_AGE_CEILING_SECS) then Fail(StaleOrFutureProof)
    else if expiresAt <= params.now then Fail(Expired)
    else Pass
  }

  /** How long a claimed nonce is kept, from the statement alone. */
  function NonceRetention(issuedAt: u64, expiresAt: u64): u64 {
    SatAdd64(Min(expiresAt, SatAdd64(issuedAt, MAX_AGE_CEILING_SECS)), NONCE_SKEW_SECS)
  }

  /** The clock values at which a statement is inside its window for a verifier with `maxAgeSecs`. */
  predicate InWindow(issuedAt: u64, expiresAt: u64, maxAgeSecs: u64, now: u64) {
    issuedAt <= now < expiresAt && now <= issuedAt + Min(maxAgeSecs, MAX_AGE_CEILING_SECS)
  }

  lemma EnvelopeIsTheWindow(audience: Bytes, issuedAt: u64, expiresAt: u64, params: VerifyParams)
    ensures CheckEnvelope(audience, issuedAt, expiresAt, params).Pass? <==>
              (audience != [] && audience == params.expectedAudience
               && InWindow(issuedAt, expiresAt, params.maxAgeSecs, params.now))
  {
  }

  /** A verifier whose clock reads `now` can accept the statement while the store's clock reads
      `storeTime`: how far the store may run ahead. When the statement's own expiry binds, a lag equal
      to the skew is still safe; when the age ceiling binds it is not. */
  predicate WithinSkew(issuedAt: u64, expiresAt: u64, now: u64, storeTime: u64) {
    storeTime < now + NONCE_SKEW_SECS
    || (storeTime == now + NONCE_SKEW_SECS && expiresAt <= issuedAt + MAX_AGE_CEILING_SECS)
  }

  /** The retention arithmetic, sharp. A claimed nonce is still remembered at `storeTime` for every
      acceptance inside the skew, whatever `max_age_secs` the verifier uses. And the skew cannot be
      relaxed: for each statement with a nonempty window, the verifier's last accepting second lags the
      store by exactly the first excluded value when the entry may go. */
  lemma RetentionIsSharp(issuedAt: u64, expiresAt: u64, maxAgeSecs: u64, now: u64, storeTime: u64)
    requires InWindow(issuedAt, expiresAt, maxAgeSecs, now)
    ensures WithinSkew(issuedAt, expiresAt, now, storeTime) && storeTime < U64_MAX
        ==> storeTime < NonceRetention(issuedAt, expiresAt)
    ensures issuedAt + MAX_AGE_CEILING_SECS + NONCE_SKEW_SECS < U64_MAX ==>
              var last := if expiresAt <= issuedAt + MAX_AGE_CEILING_SECS then expiresAt - 1 else issuedAt + MAX_AGE_CEILING_SECS;
              && InWindow(issuedAt, expiresAt, MAX_AGE_CEILING_SECS, last)
              && !WithinSkew(issuedAt, expiresAt, last, NonceRetention(issuedAt, expiresAt))
              && WithinSkew(issuedAt, expiresAt, last, NonceRetention(issuedAt, expiresAt) - 1)
  {
  }

  // ── Nonce-spending verifications ───────────────────────────────────────────

  /** The arguments of one nonce claim. */
  datatype Claim = Claim(purpose: Bytes, key: Bytes, nonce: Bytes32, issuedAt: u64, expiresAt: u64) {
    function StoreKey(H: Hash): Bytes32 { NonceKey(H, purpose, key, nonce) }
    function Retention(): u64 { NonceRetention(issuedAt, expiresAt) }
  }

  /** What a claim does to the store: a fresh key is added with the claim's own retention, a spent
      one changes nothing. */
  function ClaimIn(H: Hash, seen: map<Bytes32, u64>, c: Claim): (Outcome<AuthError>, map<Bytes32, u64>) {
    var k := c.StoreKey(H);
    if k in seen then (Fail(NonceAlreadyUsed), seen) else (Pass, seen[k := c.Retention()])
  }

  /** A verification that ends in a nonce claim, with everything its caller passes. */
  datatype Request =
    | LoginRequest(proof: LoginProof, params: VerifyParams, expectedDigest: Option<Bytes32>)
    | StepUpRequest(step: StepUpProof, params: VerifyParams, actionDigest: Bytes32)
    | ApprovalRequest(delegation: Delegation, approval: Approval, params: VerifyParams, principals: set<Bytes>,
                      revoked: set<Bytes>, requestDigest: Bytes32, action: Bytes, amount: u128)
  {
    function Presented(): Statement {
      match this
      case LoginRequest(p, _, _) => Login(p)
      case StepUpRequest(p, _, _) => StepUp(p)
      case ApprovalRequest(_, p, _, _, _, _, _, _) => Approve(p)
    }

    function ToClaim(): Claim {
      match this
      case LoginRequest(p, _, _) => Claim(AuthLoginV1(), p.publicKey, p.nonce, p.issuedAt, p.expiresAt)
      case StepUpRequest(p, _, _) => Claim(AuthStepUpV1(), p.publicKey, p.nonce, p.issuedAt, p.expiresAt)
      case ApprovalRequest(_, p, _, _, _, _, _, _) => Claim(AuthApprovalV1(), p.principalKey, p.nonce, p.issuedAt, p.expiresAt)
    }

    /** Everything that happens before the nonce claim. */
    function FreeChecks(V: SigCheck, H: Hash): Outcome<AuthError> {
      match this
      case LoginRequest(p, params, expected) => LoginChecks(V, p, params, expected)
      case StepUpRequest(p, params, digest) => StepUpChecks(V, p, params, digest)
      case ApprovalRequest(d, p, params, principals, revoked, digest, action, amount) =>
        ApprovalChecks(V, H, d, p, params, principals, revoked, digest, action, amount)
    }
  }

  function CheckSignature(V: SigCheck, key: Bytes, purpose: Bytes, message: Bytes, signature: Bytes): Outcome<AuthError> {
    match V(key, purpose, message, signature)
    case Undecodable => Fail(Malformed)
    case NotVerified => Fail(BadSignature)
    case Verified => Pass
  }

  /** A proof bound to a request is checked only against that request, and an unbound one only where
      no request was asked for. */
  function CheckRequestDigest(expected: Option<Bytes32>, signed: Option<Bytes32>): Outcome<AuthError> {
    match (expected, signed)
    case (None, None) => Pass
    case (None, Some(_)) => Fail(RequestDigestNotChecked)
    case (Some(_), None) => Fail(RequestMismatch)
    case (Some(e), Some(s)) => if s == e then Pass else Fail(RequestMismatch)
  }

  function LoginChecks(V: SigCheck, p: LoginProof, params: VerifyParams, expected: Option<Bytes32>): Outcome<AuthError> {
    if p.publicKey == [] || p.signature == [] then Fail(Malformed)
    else
      var envelope := CheckEnvelope(p.audience, p.issuedAt, p.expiresAt, params);
      if envelope.Fail? then envelope else
      var digest := CheckRequestDigest(expected, p.requestDigest);
      if digest.Fail? then digest else
      CheckSignature(V, p.publicKey, AuthLoginV1(), p.SigningBytes(), p.signature)
  }

  function StepUpChecks(V: SigCheck, p: StepUpProof, params: VerifyParams, expected: Bytes32): Outcome<AuthError> {
    if p.publicKey == [] || p.signature == [] then Fail(Malformed)
    else
      var envelope := CheckEnvelope(p.audience, p.issuedAt, p.expiresAt, params);
      if envelope.Fail? then envelope
      else if p.actionDigest != expected then Fail(ActionMismatch)
      else CheckSignature(V, p.publicKey, AuthStepUpV1(), p.SigningBytes(), p.signature)
  }

  function CheckParties(d: Delegation, principals: set<Bytes>, revoked: set<Bytes>): Outcome<AuthError> {
    if d.principalKey !in principals then Fail(NotAuthorised)
    else if d.principalKey in revoked || d.delegateKey in revoked then Fail(Revoked)
    else Pass
  }

  function ApprovalChecks(V: SigCheck, H: Hash, d: Delegation, p: Approval, params: VerifyParams, principals: set<Bytes>,
                          revoked: set<Bytes>, requestDigest: Bytes32, action: Bytes, amount: u128): Outcome<AuthError>
  {
    var parties := CheckParties(d, principals, revoked);
    if parties.Fail? then parties else
    var live := VerifyDelegation(V, d, params.expectedAudience, params.now);
    if live.Fail? then live
    else if p.principalKey == [] || p.signature == [] then Fail(Malformed)
    else if p.principalKey != d.principalKey then Fail(NotAuthorised)
    else
      var envelope := CheckEnvelope(p.audience, p.issuedAt, p.expiresAt, params);
      if envelope.Fail? then envelope
      else if p.delegationId != d.Id(H) || p.requestDigest != requestDigest || p.action != action || p.amount != amount
      then Fail(ActionMismatch)
      else CheckSignature(V, p.principalKey, AuthApprovalV1(), p.SigningBytes(), p.signature)
  }

  // ── Delegation, revocation and succession ──────────────────────────────────

  function VerifyDelegation(V: SigCheck, d: Delegation, expectedAudience: Bytes, now: u64): Outcome<AuthError> {
    if d.principalKey == [] || d.delegateKey == [] || d.signature == [] || d.audience == [] then Fail(Malformed)
    else if d.audience != expectedAudience then Fail(AudienceMismatch)
    else if now < d.notBefore || now >= d.expiresAt then Fail(Expired)
    else CheckSignature(V, d.principalKey, AuthDelegationV1(), d.SigningBytes(), d.signature)
  }

  datatype RemainingObligations = RemainingObligations(
    cumulativeCeiling: Option<u128>, windowSecs: Option<u64>, humanApprovalRequired: bool)
  {
    predicate IsClear() { cumulativeCeiling.None? && !humanApprovalRequired }
  }

  function Authorise(V: SigCheck, d: Delegation, expectedAudience: Bytes, principals: set<Bytes>, revoked: set<Bytes>,
                     delegateKey: Bytes, action: Bytes, amount: Option<u128>, now: u64)
    : Result<RemainingObligations, AuthError>
  {
    var parties := CheckParties(d, principals, revoked);
    if parties.Fail? then Err(parties.error) else
    var live := VerifyDelegation(V, d, expectedAudience, now);
    if live.Fail? then Err(live.error)
    else if d.delegateKey != delegateKey then Err(NotDelegated)
    else if action !in d.bounds.actions then Err(NotDelegated)
    else
      var b := d.bounds;
      var setsAnAmountBound := b.maxPerInvocation.Some? || b.maxTotal.Some? || b.approvalRequiredAbove.Some?;
      if amount.None? && setsAnAmountBound then Err(NotDelegated)
      else if amount.Some? && (b.maxPerInvocation.None? || amount.value > b.maxPerInvocation.value) then Err(NotDelegated)
      else Ok(RemainingObligations(b.maxTotal, b.windowSecs,
                amount.Some? && b.approvalRequiredAbove.Some? && amount.value > b.approvalRequiredAbove.value))
  }

  function VerifyRevocation(V: SigCheck, r: Revocation, expectedAudience: Bytes, authorityKeys: set<Bytes>): Outcome<AuthError> {
    if r.subjectKey == [] || r.signerKey == [] || r.signature == [] || r.audience == [] then Fail(Malformed)
    else if r.audience != expectedAudience then Fail(AudienceMismatch)
    else if r.revokedBy.ByHolder? && r.signerKey != r.subjectKey then Fail(NotAuthorised)
    else if r.revokedBy.ByAuthority? && r.signerKey !in authorityKeys then Fail(NotAuthorised)
    else CheckSignature(V, r.signerKey, AuthRevocationV1(), r.SigningBytes(), r.signature)
  }

  function VerifySuccession(V: SigCheck, s: Succession, expectedAudience: Bytes): Outcome<AuthError> {
    if s.fromKey == [] || s.toKey == [] || s.signature == [] || s.audience == [] then Fail(Malformed)
    else if s.audience != expectedAudience then Fail(AudienceMismatch)
    else if s.fromKey == s.toKey then Fail(Malformed)
    else CheckSignature(V, s.fromKey, AuthSuccessionV1(), s.SigningBytes(), s.signature)
  }

  function RetiredKey(V: SigCheck, s: Succession, expectedAudience: Bytes): Result<Bytes, AuthError> {
    var verified := VerifySuccession(V, s, expectedAudience);
    if verified.Fail? then Err(verified.error) else Ok(s.fromKey)
  }

  // ── The verifications against a store ──────────────────────────────────────

  datatype AuthMethod = ByLoginProof | ByStepUp

  datatype AuthenticatedIdentity = AuthenticatedIdentity(
    publicKey: Bytes, audience: Bytes, proven: bool, how: AuthMethod, sessionCommitment: Option<Bytes32>)

  method ComputeNonceKey(H: Hash, purpose: Bytes, key: Bytes, nonce: Bytes32) returns (k: Bytes32)
    ensures k == NonceKey(H, purpose, key, nonce)
  {
    hide NonceKeyLabel;
    var input := PushLenPrefixed([], NonceKeyLabel());
    input := PushLenPrefixed(input, purpose);
    input := PushLenPrefixed(input, key);
    input := PushLenPrefixed(input, nonce);
    assert input == NonceKeyPreimage(purpose, key, nonce) by {
      hide LenPrefixed;
      assert input + [] == input;
      assert LenPrefixed(nonce) + [] == LenPrefixed(nonce);
    }
    return H(input);
  }

  /** Spends a nonce in the store under the claim's own key and retention. */
  method ClaimNonce(store: InMemoryNonceStore, H: Hash, purpose: Bytes, key: Bytes, nonce: Bytes32,
                    issuedAt: u64, expiresAt: u64) returns (r: Outcome<AuthError>)
    modifies store
    ensures (r, store.seen) == ClaimIn(H, old(store.seen), Claim(purpose, key, nonce, issuedAt, expiresAt))
  {
    hide NonceKey, NonceRetention;
    var k := ComputeNonceKey(H, purpose, key, nonce);
    var claimed := store.Claim(k, NonceRetention(issuedAt, expiresAt));
    r := if claimed then Pass else Fail(NonceAlreadyUsed);
  }

  /** The outcome of a verification and the store it leaves: a failed check leaves the store alone. */
  function Settle(V: SigCheck, H: Hash, seen: map<Bytes32, u64>, request: Request): (Outcome<AuthError>, map<Bytes32, u64>) {
    var free := request.FreeChecks(V, H);
    if free.Fail? then (free, seen) else ClaimIn(H, seen, request.ToClaim())
  }

  method VerifyLoginInner(V: SigCheck, H: Hash, p: LoginProof, params: VerifyParams, expected: Option<Bytes32>,
                          store: InMemoryNonceStore) returns (r: Result<AuthenticatedIdentity, AuthError>)
    modifies store
    ensures var (outcome, seen) := Settle(V, H, old(store.seen), LoginRequest(p, params, expected));
            && store.seen == seen
            && r == if outcome.Fail? then Err(outcome.error)
                    else Ok(AuthenticatedIdentity(p.publicKey, p.audience, true, ByLoginProof, p.sessionCommitment))
  {
    if p.publicKey == [] || p.signature == [] {
      return Err(Malformed);
    }
    var envelope := CheckEnvelope(p.audience, p.issuedAt, p.expiresAt, params);
    if envelope.Fail? {
      return Err(envelope.error);
    }
    var digest := CheckRequestDigest(expected, p.requestDigest);
    if digest.Fail? {
      return Err(digest.error);
    }
    var message := p.SigningInput();
    var signed := CheckSignature(V, p.publicKey, AuthLoginV1(), message, p.signature);
    if signed.Fail? {
      return Err(signed.error);
    }
    var claimed := ClaimNonce(store, H, AuthLoginV1(), p.publicKey, p.nonce, p.issuedAt, p.expiresAt);
    if claimed.Fail? {
      return Err(claimed.error);
    }
    return Ok(AuthenticatedIdentity(p.publicKey, p.audience, true, ByLoginProof, p.sessionCommitment));
  }

  method VerifyLogin(V: SigCheck, H: Hash, p: LoginProof, params: VerifyParams, store: InMemoryNonceStore)
    returns (r: Result<AuthenticatedIdentity, AuthError>)
    modifies store
    ensures p.requestDigest.Some? ==> r.Err? && store.seen == old(store.seen)
    ensures store.seen == Settle(V, H, old(store.seen), LoginRequest(p, params, None)).1
    ensures r.Ok? <==> LoginChecks(V, p, params, None).Pass? && LoginRequest(p, params, None).ToClaim().StoreKey(H) !in old(store.seen)
    ensures var outcome := Settle(V, H, old(store.seen), LoginRequest(p, params, None)).0;
            r == if outcome.Fail? then Err(outcome.error)
                 else Ok(AuthenticatedIdentity(p.publicKey, params.expectedAudience, true, ByLoginProof, p.sessionCommitment))
  {
    r := VerifyLoginInner(V, H, p, params, None, store);
  }

  method VerifyLoginForRequest(V: SigCheck, H: Hash, p: LoginProof, params: VerifyParams, expected: Bytes32,
                               store: InMemoryNonceStore) returns (r: Result<AuthenticatedIdentity, AuthError>)
    modifies store
    ensures p.requestDigest != Some(expected) ==> r.Err? && store.seen == old(store.seen)
    ensures store.seen == Settle(V, H, old(store.seen), LoginRequest(p, params, Some(expected))).1
    ensures r.Ok? <==> (LoginChecks(V, p, params, Some(expected)).Pass?
                        && LoginRequest(p, params, Some(expected)).ToClaim().StoreKey(H) !in old(store.seen))
    ensures var outcome := Settle(V, H, old(store.seen), LoginRequest(p, params, Some(expected))).0;
            r == if outcome.Fail? then Err(outcome.error)
                 else Ok(AuthenticatedIdentity(p.publicKey, params.expectedAudience, true, ByLoginProof, p.sessionCommitment))
  {
    r := VerifyLoginInner(V, H, p, params, Some(expected), store);
  }

  method VerifyStepUp(V: SigCheck, H: Hash, p: StepUpProof, params: VerifyParams, expected: Bytes32,
                      store: InMemoryNonceStore) returns (r: Result<AuthenticatedIdentity, AuthError>)
    modifies store
    ensures var (outcome, seen) := Settle(V, H, old(store.seen), StepUpRequest(p, params, expected));
            && store.seen == seen
            && r == if outcome.Fail? then Err(outcome.error)
                    else Ok(AuthenticatedIdentity(p.publicKey, p.audience, true, ByStepUp, None))
  {
    if p.publicKey == [] || p.signature == [] {
      return Err(Malformed);
    }
    var envelope := CheckEnvelope(p.audience, p.issuedAt, p.expiresAt, params);
    if envelope.Fail? {
      return Err(envelope.error);
    }
    if p.actionDigest != expected {
      return Err(ActionMismatch);
    }
    var message := p.SigningInput();
    var signed := CheckSignature(V, p.publicKey, AuthStepUpV1(), message, p.signature);
    if signed.Fail? {
      return Err(signed.error);
    }
    var claimed := ClaimNonce(store, H, AuthStepUpV1(), p.publicKey, p.nonce, p.issuedAt, p.expiresAt);
    if claimed.Fail? {
      return Err(claimed.error);
    }
    return Ok(AuthenticatedIdentity(p.publicKey, p.audience, true, ByStepUp, None));
  }

  method CheckApproval(V: SigCheck, H: Hash, d: Delegation, p: Approval, params: VerifyParams, principals: set<Bytes>,
                       revoked: set<Bytes>, requestDigest: Bytes32, action: Bytes, amount: u128,
                       store: InMemoryNonceStore) returns (r: Outcome<AuthError>)
    modifies store
    ensures (r, store.seen) == Settle(V, H, old(store.seen),
              ApprovalRequest(d, p, params, principals, revoked, requestDigest, action, amount))
  {
    var parties := CheckParties(d, principals, revoked);
    if parties.Fail? {
      return parties;
    }
    var live := VerifyDelegation(V, d, params.expectedAudience, params.now);
    if live.Fail? {
      return live;
    }
    if p.principalKey == [] || p.signature == [] {
      return Fail(Malformed);
    }
    if p.principalKey != d.principalKey {
      return Fail(NotAuthorised);
    }
    var envelope := CheckEnvelope(p.audience, p.issuedAt, p.expiresAt, params);
    if envelope.Fail? {
      return envelope;
    }
    if p.delegationId != d.Id(H) || p.requestDigest != requestDigest || p.action != action || p.amount != amount {
      return Fail(ActionMismatch);
    }
    var message := p.SigningInput();
    var signed := CheckSignature(V, p.principalKey, AuthApprovalV1(), message, p.signature);
    if signed.Fail? {
      return signed;
    }
    r := ClaimNonce(store, H, AuthApprovalV1(), p.principalKey, p.nonce, p.issuedAt, p.expiresAt);
  }

  // ── Nonce accounting ───────────────────────────────────────────────────────

  /** Every refusal leaves the store as it was; every success adds exactly one fresh key, with the retention the
      statement alone gives. */
  lemma WhatSettlingDoes(V: SigCheck, H: Hash, seen: map<Bytes32, u64>, request: Request)
    ensures var (outcome, after) := Settle(V, H, seen, request);
            var c := request.ToClaim();
            && (outcome.Fail? ==> after == seen)
            && (outcome.Pass? ==> c.StoreKey(H) !in seen && after == seen[c.StoreKey(H) := c.Retention()])
  {
    hide Request.FreeChecks, Request.ToClaim, Claim.StoreKey, Claim.Retention;
  }

  /** The store after a sequence of requests, settled one after the other. */
  function SettleAll(V: SigCheck, H: Hash, seen: map<Bytes32, u64>, requests: seq<Request>): map<Bytes32, u64> {
    if requests == [] then seen else
    var n := |requests| - 1;
    Settle(V, H, SettleAll(V, H, seen, requests[..n]), requests[n]).1
  }

  function Accepted(V: SigCheck, H: Hash, seen: map<Bytes32, u64>, requests: seq<Request>): seq<Request> {
    if requests == [] then [] else
    var n := |requests| - 1;
    var before := Accepted(V, H, seen, requests[..n]);
    if Settle(V, H, SettleAll(V, H, seen, requests[..n]), requests[n]).0.Pass? then before + [requests[n]] else before
  }

  /** `after` is `seen` with one entry for each accepted request: under a key no other has, kept for as long as its own
      statement says. */
  predicate HoldsExactly(H: Hash, seen: map<Bytes32, u64>, after: map<Bytes32, u64>, accepted: seq<Request>) {
    && |after| == |seen| + |accepted|
    && (forall k :: k in seen ==> k in after && after[k] == seen[k])
    && (forall k :: k in after ==> k in seen || exists r :: r in accepted && r.ToClaim().StoreKey(H) == k)
    && (forall i :: 0 <= i < |accepted| ==>
          var c := accepted[i].ToClaim();
          c.StoreKey(H) !in seen && c.StoreKey(H) in after && after[c.StoreKey(H)] == c.Retention())
    && (forall i, j :: 0 <= i < j < |accepted| ==> accepted[i].ToClaim().StoreKey(H) != accepted[j].ToClaim().StoreKey(H))
  }

  lemma OneMoreEntry(H: Hash, seen: map<Bytes32, u64>, after: map<Bytes32, u64>, accepted: seq<Request>, r: Request)
    requires HoldsExactly(H, seen, after, accepted) && r.ToClaim().StoreKey(H) !in after
    ensures HoldsExactly(H, seen, after[r.ToClaim().StoreKey(H) := r.ToClaim().Retention()], accepted + [r])
  {
    hide Request.ToClaim, Claim.StoreKey, Claim.Retention;
    var k := r.ToClaim().StoreKey(H);
    assert |after[k := r.ToClaim().Retention()]| == |after| + 1;
    assert forall q :: q in accepted ==> q in accepted + [r];
    assert r in accepted + [r];
  }

  /** Over any sequence of requests the store grows by exactly the accepted ones; nothing else is added, changed or
      lost. */
  lemma {:induction false} StoreHoldsExactlyTheAccepted(V: SigCheck, H: Hash, seen: map<Bytes32, u64>, requests: seq<Request>)
    ensures HoldsExactly(H, seen, SettleAll(V, H, seen, requests), Accepted(V, H, seen, requests))
  {
    if requests != [] {
      var n := |requests| - 1;
      var before := SettleAll(V, H, seen, requests[..n]);
      StoreHoldsExactlyTheAccepted(V, H, seen, requests[..n]);
      WhatSettlingDoes(V, H, before, requests[n]);
      hide Settle, HoldsExactly, Request.ToClaim, Claim.StoreKey, Claim.Retention;
      if Settle(V, H, before, requests[n]).0.Pass? {
        OneMoreEntry(H, seen, before, Accepted(V, H, seen, requests[..n]), requests[n]);
      }
    }
  }

  /** Requests by different signers, under different purposes or with different nonces do not interfere:
      settled in either order they get the same outcomes and leave the same store, unless the hash
      collides on their two nonce-key pre-images. */
  lemma RequestsWithDifferentNoncesCommute(V: SigCheck, H: Hash, seen: map<Bytes32, u64>, r1: Request, r2: Request)
    requires var c, e := r1.ToClaim(), r2.ToClaim();
             (c.purpose, c.key, c.nonce) != (e.purpose, e.key, e.nonce)
    requires var c, e := r1.ToClaim(), r2.ToClaim();
             !Collision(H, NonceKeyPreimage(c.purpose, c.key, c.nonce), NonceKeyPreimage(e.purpose, e.key, e.nonce))
    ensures var (o1, s1) := Settle(V, H, seen, r1);
            var (o2, s2) := Settle(V, H, seen, r2);
            var (o12, s12) := Settle(V, H, s1, r2);
            var (o21, s21) := Settle(V, H, s2, r1);
            o12 == o2 && o21 == o1 && s12 == s21
  {
    var c, e := r1.ToClaim(), r2.ToClaim();
    assert Fits(c.purpose) && Fits(e.purpose) by {
      assert |AuthLoginV1()| == 20 && |AuthStepUpV1()| == 22 && |AuthApprovalV1()| == 23;
    }
    NonceKeysDoNotInterfere(H, c.purpose, c.key, c.nonce, e.purpose, e.key, e.nonce);
    assert c.StoreKey(H) != e.StoreKey(H);
    hide Request.FreeChecks, Request.ToClaim, Claim.StoreKey, Claim.Retention;
  }

  // ── Statements only remove authority ───────────────────────────────────────

  /** Success is antitone in the revoked keys and monotone in the recognised principals, and the
      obligations left to the caller do not depend on either. */
  lemma RevocationOnlyRemovesAuthority(V: SigCheck, d: Delegation, audience: Bytes, principals: set<Bytes>,
                                       revoked: set<Bytes>, principals': set<Bytes>, revoked': set<Bytes>,
                                       delegateKey: Bytes, action: Bytes, amount: Option<u128>, now: u64)
    requires principals <= principals' && revoked' <= revoked
    ensures var narrow := Authorise(V, d, audience, principals, revoked, delegateKey, action, amount, now);
            var wide := Authorise(V, d, audience, principals', revoked', delegateKey, action, amount, now);
            && (narrow.Ok? ==> wide == narrow)
            && (d.principalKey in revoked || d.delegateKey in revoked ==> narrow.Err?)
  {
  }

  /** So is success of an approval's checks, and what they let through to the claim does not depend on either. */
  lemma RevocationOnlyRemovesApproval(V: SigCheck, H: Hash, d: Delegation, p: Approval, params: VerifyParams,
                                      principals: set<Bytes>, revoked: set<Bytes>, principals': set<Bytes>, revoked': set<Bytes>,
                                      digest: Bytes32, action: Bytes, amount: u128)
    requires principals <= principals' && revoked' <= revoked
    ensures ApprovalChecks(V, H, d, p, params, principals, revoked, digest, action, amount).Pass?
        ==> ApprovalChecks(V, H, d, p, params, principals', revoked', digest, action, amount).Pass?
    ensures d.principalKey in revoked || d.delegateKey in revoked
        ==> ApprovalChecks(V, H, d, p, params, principals, revoked, digest, action, amount).Fail?
    ensures ApprovalRequest(d, p, params, principals, revoked, digest, action, amount).ToClaim()
         == ApprovalRequest(d, p, params, principals', revoked', digest, action, amount).ToClaim()
  {
    hide VerifyDelegation, CheckEnvelope, CheckSignature, Delegation.Id;
  }
}
