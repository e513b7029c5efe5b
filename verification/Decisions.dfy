/** What the relying party decides, for every statement anyone may present: each decision as one table of refusals, in
    order, over the presented fields and the documented numbers, and the exact conditions of success. */
module Decisions {
  import opened Wrappers
  import opened Words
  import opened Statements
  import opened Verifier

  /** A nonce is kept until the statement expires or turns 3,600 seconds old, and 300 seconds more. */
  lemma RetentionInNumbers(issuedAt: u64, expiresAt: u64)
    ensures var until := if expiresAt <= issuedAt + 3_600 then expiresAt else issuedAt + 3_600;
            NonceRetention(issuedAt, expiresAt) == if until + 300 > U64_MAX then U64_MAX else until + 300
  {
  }

  // ── Shared rows ────────────────────────────────────────────────────────────

  function TimeRows(issuedAt: u64, expiresAt: u64, params: VerifyParams, otherwise: Outcome<AuthError>): Outcome<AuthError> {
    var age := params.now - issuedAt;
    Refuse(age < 0 || age > params.maxAgeSecs || age > 3_600, StaleOrFutureProof,
    Refuse(params.now >= expiresAt, Expired, otherwise))
  }

  function SignatureRows(v: Verdict, otherwise: Outcome<AuthError>): Outcome<AuthError> {
    Refuse(v == Undecodable, Malformed, Refuse(v == NotVerified, BadSignature, otherwise))
  }

  predicate InTime(issuedAt: u64, expiresAt: u64, params: VerifyParams) {
    && issuedAt <= params.now < expiresAt
    && params.now <= issuedAt + params.maxAgeSecs && params.now <= issuedAt + 3_600
  }

  // ── Logins and step-ups ────────────────────────────────────────────────────

  lemma LoginDecision(V: SigCheck, H: Hash, seen: map<Bytes32, u64>, p: LoginProof, params: VerifyParams, expected: Option<Bytes32>)
    ensures Settle(V, H, seen, LoginRequest(p, params, expected)).0 ==
              Refuse(p.publicKey == [] || p.signature == [] || p.audience == [], Malformed,
              Refuse(p.audience != params.expectedAudience, AudienceMismatch,
              TimeRows(p.issuedAt, p.expiresAt, params,
              Refuse(expected.None? && p.requestDigest.Some?, RequestDigestNotChecked,
              Refuse(p.requestDigest != expected, RequestMismatch,
              SignatureRows(V(p.publicKey, AuthLoginV1(), p.SigningBytes(), p.signature),
              Refuse(NonceKey(H, AuthLoginV1(), p.publicKey, p.nonce) in seen, NonceAlreadyUsed, Pass)))))))
  {
    hide AuthLoginV1, LoginProof.SigningBytes, NonceKey;
  }

  lemma LoginAcceptedExactlyWhen(V: SigCheck, H: Hash, seen: map<Bytes32, u64>, p: LoginProof, params: VerifyParams, expected: Option<Bytes32>)
    ensures Settle(V, H, seen, LoginRequest(p, params, expected)).0.Pass? <==>
              (&& p.publicKey != [] && p.signature != [] && p.audience != [] && p.audience == params.expectedAudience
               && InTime(p.issuedAt, p.expiresAt, params) && p.requestDigest == expected
               && V(p.publicKey, AuthLoginV1(), p.SigningBytes(), p.signature) == Verified
               && NonceKey(H, AuthLoginV1(), p.publicKey, p.nonce) !in seen)
  {
    LoginDecision(V, H, seen, p, params, expected);
    hide Settle, AuthLoginV1, LoginProof.SigningBytes, NonceKey;
  }

  lemma StepUpDecision(V: SigCheck, H: Hash, seen: map<Bytes32, u64>, p: StepUpProof, params: VerifyParams, expected: Bytes32)
    ensures Settle(V, H, seen, StepUpRequest(p, params, expected)).0 ==
              Refuse(p.publicKey == [] || p.signature == [] || p.audience == [], Malformed,
              Refuse(p.audience != params.expectedAudience, AudienceMismatch,
              TimeRows(p.issuedAt, p.expiresAt, params,
              Refuse(p.actionDigest != expected, ActionMismatch,
              SignatureRows(V(p.publicKey, AuthStepUpV1(), p.SigningBytes(), p.signature),
              Refuse(NonceKey(H, AuthStepUpV1(), p.publicKey, p.nonce) in seen, NonceAlreadyUsed, Pass))))))
  {
    hide AuthStepUpV1, StepUpProof.SigningBytes, NonceKey;
  }

  lemma StepUpAcceptedExactlyWhen(V: SigCheck, H: Hash, seen: map<Bytes32, u64>, p: StepUpProof, params: VerifyParams, expected: Bytes32)
    ensures Settle(V, H, seen, StepUpRequest(p, params, expected)).0.Pass? <==>
              (&& p.publicKey != [] && p.signature != [] && p.audience != [] && p.audience == params.expectedAudience
               && InTime(p.issuedAt, p.expiresAt, params) && p.actionDigest == expected
               && V(p.publicKey, AuthStepUpV1(), p.SigningBytes(), p.signature) == Verified
               && NonceKey(H, AuthStepUpV1(), p.publicKey, p.nonce) !in seen)
  {
    StepUpDecision(V, H, seen, p, params, expected);
    hide Settle, AuthStepUpV1, StepUpProof.SigningBytes, NonceKey;
  }

  // ── Delegations ────────────────────────────────────────────────────────────

  function DelegationRows(V: SigCheck, d: Delegation, audience: Bytes, now: u64, otherwise: Outcome<AuthError>): Outcome<AuthError> {
    Refuse(d.principalKey == [] || d.delegateKey == [] || d.signature == [] || d.audience == [], Malformed,
    Refuse(d.audience != audience, AudienceMismatch,
    Refuse(!(d.notBefore <= now < d.expiresAt), Expired,
    SignatureRows(V(d.principalKey, AuthDelegationV1(), d.SigningBytes(), d.signature), otherwise))))
  }

  function PartyRows(d: Delegation, principals: set<Bytes>, revoked: set<Bytes>, otherwise: Outcome<AuthError>): Outcome<AuthError> {
    Refuse(d.principalKey !in principals, NotAuthorised,
    Refuse(d.principalKey in revoked || d.delegateKey in revoked, Revoked, otherwise))
  }

  /** Verified, live, for this audience, from a recognised principal, with neither key revoked. */
  predicate Holds(V: SigCheck, d: Delegation, audience: Bytes, principals: set<Bytes>, revoked: set<Bytes>, now: u64) {
    && d.principalKey != [] && d.delegateKey != [] && d.signature != [] && d.audience != [] && d.audience == audience
    && d.notBefore <= now < d.expiresAt
    && d.principalKey in principals && d.principalKey !in revoked && d.delegateKey !in revoked
    && V(d.principalKey, AuthDelegationV1(), d.SigningBytes(), d.signature) == Verified
  }

  lemma DelegationDecision(V: SigCheck, d: Delegation, audience: Bytes, now: u64)
    ensures VerifyDelegation(V, d, audience, now) == DelegationRows(V, d, audience, now, Pass)
  {
    hide AuthDelegationV1, Delegation.SigningBytes;
  }

  /** The amounts a delegation's bounds let through. An unstated amount passes only where no amount bound is set at
      all; a stated one only up to a ceiling that is. */
  predicate AmountAllowed(b: Bounds, amount: Option<u128>) {
    match amount
    case None => b.maxPerInvocation.None? && b.maxTotal.None? && b.approvalRequiredAbove.None?
    case Some(a) => b.maxPerInvocation.Some? && a <= b.maxPerInvocation.value
  }

  lemma AuthoriseDecision(V: SigCheck, d: Delegation, audience: Bytes, principals: set<Bytes>, revoked: set<Bytes>,
                          delegateKey: Bytes, action: Bytes, amount: Option<u128>, now: u64)
    ensures var refusal := PartyRows(d, principals, revoked, DelegationRows(V, d, audience, now,
                             Refuse(d.delegateKey != delegateKey || action !in d.bounds.actions || !AmountAllowed(d.bounds, amount),
                                    NotDelegated, Pass)));
            var r := Authorise(V, d, audience, principals, revoked, delegateKey, action, amount, now);
            (r.Err? <==> refusal.Fail?) && (r.Err? ==> r.error == refusal.error)
  {
    hide AuthDelegationV1, Delegation.SigningBytes;
  }

  /** Exactly when an attempt is authorised, for every delegation and every optional amount, and exactly what is left to
      the caller: the total and the window as the delegation states them, absent ones included, and a human approval
      exactly for a stated amount above a stated threshold. */
  lemma AuthorisedExactlyWhen(V: SigCheck, d: Delegation, audience: Bytes, principals: set<Bytes>, revoked: set<Bytes>,
                              delegateKey: Bytes, action: Bytes, amount: Option<u128>, now: u64)
    ensures var r := Authorise(V, d, audience, principals, revoked, delegateKey, action, amount, now);
            var b := d.bounds;
            && (r.Ok? <==> (&& Holds(V, d, audience, principals, revoked, now)
                            && d.delegateKey == delegateKey && action in b.actions && AmountAllowed(b, amount)))
            && (r.Ok? ==> && r.value.cumulativeCeiling == b.maxTotal && r.value.windowSecs == b.windowSecs
                          && (r.value.humanApprovalRequired <==>
                                amount.Some? && b.approvalRequiredAbove.Some? && amount.value > b.approvalRequiredAbove.value))
            && (r.Ok? && amount.None? ==> r.value.IsClear())
            && (r.Ok? && amount.Some? ==>
                  (r.value.IsClear() <==> b.maxTotal.None? && (b.approvalRequiredAbove.None? || amount.value <= b.approvalRequiredAbove.value)))
  {
    hide AuthDelegationV1, Delegation.SigningBytes;
  }

  // ── Approvals ──────────────────────────────────────────────────────────────

  lemma ApprovalDecision(V: SigCheck, H: Hash, seen: map<Bytes32, u64>, d: Delegation, p: Approval, params: VerifyParams,
                         principals: set<Bytes>, revoked: set<Bytes>, digest: Bytes32, action: Bytes, amount: u128)
    ensures Settle(V, H, seen, ApprovalRequest(d, p, params, principals, revoked, digest, action, amount)).0 ==
              PartyRows(d, principals, revoked,
              DelegationRows(V, d, params.expectedAudience, params.now,
              Refuse(p.principalKey == [] || p.signature == [], Malformed,
              Refuse(p.principalKey != d.principalKey, NotAuthorised,
              Refuse(p.audience == [], Malformed,
              Refuse(p.audience != params.expectedAudience, AudienceMismatch,
              TimeRows(p.issuedAt, p.expiresAt, params,
              Refuse(p.delegationId != d.Id(H) || (p.requestDigest, p.action, p.amount) != (digest, action, amount), ActionMismatch,
              SignatureRows(V(p.principalKey, AuthApprovalV1(), p.SigningBytes(), p.signature),
              Refuse(NonceKey(H, AuthApprovalV1(), p.principalKey, p.nonce) in seen, NonceAlreadyUsed, Pass))))))))))
  {
    hide AuthApprovalV1, AuthDelegationV1, Approval.SigningBytes, Delegation.SigningBytes, Delegation.Id, NonceKey, VerifyDelegation;
    DelegationDecision(V, d, params.expectedAudience, params.now);
  }

  /** Exactly when an approval is granted, for every delegation and every approval anyone may present: the delegation
      holds; the approval is signed by the delegation's own principal, for this delegation and exactly this request; and
      it is in time with its nonce unspent. */
  lemma ApprovalGrantedExactlyWhen(V: SigCheck, H: Hash, seen: map<Bytes32, u64>, d: Delegation, p: Approval, params: VerifyParams,
                                   principals: set<Bytes>, revoked: set<Bytes>, digest: Bytes32, action: Bytes, amount: u128)
    ensures Settle(V, H, seen, ApprovalRequest(d, p, params, principals, revoked, digest, action, amount)).0.Pass? <==>
              (&& Holds(V, d, params.expectedAudience, principals, revoked, params.now)
               && p.principalKey == d.principalKey && p.signature != []
               && p.audience == params.expectedAudience && InTime(p.issuedAt, p.expiresAt, params)
               && p.delegationId == d.Id(H) && p.requestDigest == digest && p.action == action && p.amount == amount
               && V(d.principalKey, AuthApprovalV1(), p.SigningBytes(), p.signature) == Verified
               && NonceKey(H, AuthApprovalV1(), d.principalKey, p.nonce) !in seen)
  {
    ApprovalDecision(V, H, seen, d, p, params, principals, revoked, digest, action, amount);
    hide Settle, AuthApprovalV1, AuthDelegationV1, Approval.SigningBytes, Delegation.SigningBytes, Delegation.Id, NonceKey;
  }

  // ── Revocations and successions ────────────────────────────────────────────

  lemma RevocationDecision(V: SigCheck, r: Revocation, audience: Bytes, authorityKeys: set<Bytes>)
    ensures VerifyRevocation(V, r, audience, authorityKeys) ==
              Refuse(r.subjectKey == [] || r.signerKey == [] || r.signature == [] || r.audience == [], Malformed,
              Refuse(r.audience != audience, AudienceMismatch,
              Refuse(if r.revokedBy == ByHolder then r.signerKey != r.subjectKey else r.signerKey !in authorityKeys, NotAuthorised,
              SignatureRows(V(r.signerKey, AuthRevocationV1(), r.SigningBytes(), r.signature), Pass))))
  {
    hide AuthRevocationV1, Revocation.SigningBytes;
  }

  lemma SuccessionDecision(V: SigCheck, s: Succession, audience: Bytes)
    ensures var refusal := Refuse(s.fromKey == [] || s.toKey == [] || s.signature == [] || s.audience == [], Malformed,
                           Refuse(s.audience != audience, AudienceMismatch,
                           Refuse(s.fromKey == s.toKey, Malformed,
                           SignatureRows(V(s.fromKey, AuthSuccessionV1(), s.SigningBytes(), s.signature), Pass))));
            && VerifySuccession(V, s, audience) == refusal
            && RetiredKey(V, s, audience) == if refusal.Fail? then Err(refusal.error) else Ok(s.fromKey)
  {
    hide AuthSuccessionV1, Succession.SigningBytes;
  }
}
