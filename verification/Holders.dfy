/** The signing side: one identity bound to one audience, and what its verifiers accept. */
module Holders {
  import opened Wrappers
  import opened Words
  import opened Statements
  import opened Verifier
  import opened Decisions

  /** Deterministic ML-DSA signing: the identity's public key, the purpose, the message. */
  type Signing = (Bytes, Bytes, Bytes) -> Bytes

  /** The identity behind `key` produces nonempty signatures that verify. */
  ghost predicate SignsCorrectly(V: SigCheck, S: Signing, key: Bytes) {
    forall purpose, message :: S(key, purpose, message) != [] && V(key, purpose, message, S(key, purpose, message)) == Verified
  }

  datatype Holder = Holder(key: Bytes, audience: Bytes) {

    function BuildLogin(S: Signing, nonce: Bytes32, issuedAt: u64, validForSecs: u64, requestDigest: Option<Bytes32>): LoginProof {
      var proof := LoginProof(key, audience, nonce, issuedAt, SatAdd64(issuedAt, validForSecs), None, requestDigest, []);
      proof.(signature := S(key, AuthLoginV1(), proof.SigningBytes()))
    }

    function BuildStepUp(S: Signing, nonce: Bytes32, issuedAt: u64, validForSecs: u64, actionDigest: Bytes32): StepUpProof {
      var proof := StepUpProof(key, audience, nonce, issuedAt, SatAdd64(issuedAt, validForSecs), actionDigest, []);
      proof.(signature := S(key, AuthStepUpV1(), proof.SigningBytes()))
    }

    function BuildApproval(S: Signing, H: Hash, delegation: Delegation, requestDigest: Bytes32, action: Bytes, amount: u128,
                           nonce: Bytes32, issuedAt: u64, validForSecs: u64): Approval {
      var approval := Approval(key, audience, delegation.Id(H), requestDigest, action, amount, nonce, issuedAt,
                               SatAdd64(issuedAt, validForSecs), []);
      approval.(signature := S(key, AuthApprovalV1(), approval.SigningBytes()))
    }

    function DelegateTo(S: Signing, delegateKey: Bytes, bounds: Bounds, notBefore: u64, expiresAt: u64): Delegation {
      var delegation := Delegation(key, delegateKey, audience, bounds, notBefore, expiresAt, []);
      delegation.(signature := S(key, AuthDelegationV1(), delegation.SigningBytes()))
    }

    function RevokeSelf(S: Signing, issuedAt: u64): Revocation {
      var revocation := Revocation(key, key, ByHolder, audience, issuedAt, []);
      revocation.(signature := S(key, AuthRevocationV1(), revocation.SigningBytes()))
    }

    function NameSuccessor(S: Signing, toKey: Bytes, issuedAt: u64): Succession {
      var succession := Succession(key, toKey, audience, issuedAt, []);
      succession.(signature := S(key, AuthSuccessionV1(), succession.SigningBytes()))
    }

    /** Neither the key nor the audience is empty. */
    predicate IsUsable() { key != [] && audience != [] }
  }

  function RevokeAsAuthority(S: Signing, authorityKey: Bytes, subjectKey: Bytes, audience: Bytes, issuedAt: u64): Revocation {
    var revocation := Revocation(subjectKey, authorityKey, ByAuthority, audience, issuedAt, []);
    revocation.(signature := S(authorityKey, AuthRevocationV1(), revocation.SigningBytes()))
  }

  // ── What a holder signs is what it was asked to sign ───────────────────────

  /** `issuedAt` and `validForSecs` later, at most 2^64 - 1. */
  function ExpiryOf(issuedAt: u64, validForSecs: u64): u64 {
    if issuedAt + validForSecs > 0xFFFF_FFFF_FFFF_FFFF then 0xFFFF_FFFF_FFFF_FFFF else issuedAt + validForSecs
  }

  /** `built` is `asked` with its signature: the holder's, under the statement's purpose, over bytes that read back as
      exactly `asked`. */
  ghost predicate SignsExactly(S: Signing, built: Statement, asked: Statement) {
    && built.Unsigned() == asked
    && built.Signature() == S(asked.Signer(), asked.Purpose(), asked.Message())
    && (asked.IsFramed() ==> ParseStatement(asked.Signer(), asked.Purpose(), asked.Message()) == Some(asked))
  }

  lemma SignedAsAsked(S: Signing, built: Statement, asked: Statement)
    requires built.Unsigned() == asked && built.Signature() == S(asked.Signer(), asked.Purpose(), asked.Message())
    ensures SignsExactly(S, built, asked)
  {
    if asked.IsFramed() {
      StatementParses(asked);
    }
    assert asked.Unsigned() == asked;
    hide Statement.Message, Statement.Purpose, ParseStatement, Statement.IsFramed;
  }

  lemma LoginSaysWhatWasAsked(S: Signing, h: Holder, nonce: Bytes32, issuedAt: u64, validForSecs: u64, digest: Option<Bytes32>)
    ensures SignsExactly(S, Login(h.BuildLogin(S, nonce, issuedAt, validForSecs, digest)),
              Login(LoginProof(h.key, h.audience, nonce, issuedAt, ExpiryOf(issuedAt, validForSecs), None, digest, [])))
  {
    hide LoginProof.SigningBytes, AuthLoginV1, SignsExactly;
    SignedAsAsked(S, Login(h.BuildLogin(S, nonce, issuedAt, validForSecs, digest)),
      Login(LoginProof(h.key, h.audience, nonce, issuedAt, ExpiryOf(issuedAt, validForSecs), None, digest, [])));
  }

  lemma StepUpSaysWhatWasAsked(S: Signing, h: Holder, nonce: Bytes32, issuedAt: u64, validForSecs: u64, digest: Bytes32)
    ensures SignsExactly(S, StepUp(h.BuildStepUp(S, nonce, issuedAt, validForSecs, digest)),
              StepUp(StepUpProof(h.key, h.audience, nonce, issuedAt, ExpiryOf(issuedAt, validForSecs), digest, [])))
  {
    hide StepUpProof.SigningBytes, AuthStepUpV1, SignsExactly;
    SignedAsAsked(S, StepUp(h.BuildStepUp(S, nonce, issuedAt, validForSecs, digest)),
      StepUp(StepUpProof(h.key, h.audience, nonce, issuedAt, ExpiryOf(issuedAt, validForSecs), digest, [])));
  }

  lemma ApprovalSaysWhatWasAsked(S: Signing, H: Hash, h: Holder, d: Delegation, digest: Bytes32, action: Bytes, amount: u128,
                                 nonce: Bytes32, issuedAt: u64, validForSecs: u64)
    ensures SignsExactly(S, Approve(h.BuildApproval(S, H, d, digest, action, amount, nonce, issuedAt, validForSecs)),
              Approve(Approval(h.key, h.audience, d.Id(H), digest, action, amount, nonce, issuedAt, ExpiryOf(issuedAt, validForSecs), [])))
  {
    hide Approval.SigningBytes, AuthApprovalV1, SignsExactly, Delegation.Id;
    SignedAsAsked(S, Approve(h.BuildApproval(S, H, d, digest, action, amount, nonce, issuedAt, validForSecs)),
      Approve(Approval(h.key, h.audience, d.Id(H), digest, action, amount, nonce, issuedAt, ExpiryOf(issuedAt, validForSecs), [])));
  }

  lemma DelegationSaysWhatWasAsked(S: Signing, h: Holder, delegateKey: Bytes, bounds: Bounds, notBefore: u64, expiresAt: u64)
    ensures SignsExactly(S, Delegate(h.DelegateTo(S, delegateKey, bounds, notBefore, expiresAt)),
              Delegate(Delegation(h.key, delegateKey, h.audience, bounds, notBefore, expiresAt, [])))
  {
    hide Delegation.SigningBytes, AuthDelegationV1, SignsExactly;
    SignedAsAsked(S, Delegate(h.DelegateTo(S, delegateKey, bounds, notBefore, expiresAt)),
      Delegate(Delegation(h.key, delegateKey, h.audience, bounds, notBefore, expiresAt, [])));
  }

  lemma RevocationsSayWhatWasAsked(S: Signing, h: Holder, authorityKey: Bytes, subjectKey: Bytes, audience: Bytes, issuedAt: u64)
    ensures SignsExactly(S, Revoke(h.RevokeSelf(S, issuedAt)), Revoke(Revocation(h.key, h.key, ByHolder, h.audience, issuedAt, [])))
    ensures SignsExactly(S, Revoke(RevokeAsAuthority(S, authorityKey, subjectKey, audience, issuedAt)),
              Revoke(Revocation(subjectKey, authorityKey, ByAuthority, audience, issuedAt, [])))
  {
    hide Revocation.SigningBytes, AuthRevocationV1, SignsExactly;
    SignedAsAsked(S, Revoke(h.RevokeSelf(S, issuedAt)), Revoke(Revocation(h.key, h.key, ByHolder, h.audience, issuedAt, [])));
    SignedAsAsked(S, Revoke(RevokeAsAuthority(S, authorityKey, subjectKey, audience, issuedAt)),
      Revoke(Revocation(subjectKey, authorityKey, ByAuthority, audience, issuedAt, [])));
  }

  lemma SuccessionSaysWhatWasAsked(S: Signing, h: Holder, toKey: Bytes, issuedAt: u64)
    ensures SignsExactly(S, Succeed(h.NameSuccessor(S, toKey, issuedAt)), Succeed(Succession(h.key, toKey, h.audience, issuedAt, [])))
  {
    hide Succession.SigningBytes, AuthSuccessionV1, SignsExactly;
    SignedAsAsked(S, Succeed(h.NameSuccessor(S, toKey, issuedAt)), Succeed(Succession(h.key, toKey, h.audience, issuedAt, [])));
  }

  /** An attempt under a delegation a holder built is authorised, and leaves its caller to enforce, exactly what the
      bounds given to the builder say. */
  lemma AttemptsUnderABuiltDelegation(V: SigCheck, S: Signing, h: Holder, delegateKey: Bytes, bounds: Bounds, notBefore: u64,
                                      expiresAt: u64, audience: Bytes, principals: set<Bytes>, revoked: set<Bytes>,
                                      presenter: Bytes, action: Bytes, amount: Option<u128>, now: u64)
    requires SignsCorrectly(V, S, h.key)
    ensures var d := h.DelegateTo(S, delegateKey, bounds, notBefore, expiresAt);
            var r := Authorise(V, d, audience, principals, revoked, presenter, action, amount, now);
            && (r.Ok? <==>
                  (&& h.IsUsable() && delegateKey != [] && audience == h.audience && notBefore <= now < expiresAt
                   && h.key in principals && h.key !in revoked && delegateKey !in revoked
                   && presenter == delegateKey && action in bounds.actions && AmountAllowed(bounds, amount)))
            && (r.Ok? ==> && r.value.cumulativeCeiling == bounds.maxTotal && r.value.windowSecs == bounds.windowSecs
                          && (r.value.humanApprovalRequired <==>
                                amount.Some? && bounds.approvalRequiredAbove.Some? && amount.value > bounds.approvalRequiredAbove.value))
  {
    var d := h.DelegateTo(S, delegateKey, bounds, notBefore, expiresAt);
    DelegationIsAccepted(V, S, h, delegateKey, bounds, notBefore, expiresAt, audience, now);
    hide VerifyDelegation, Delegation.SigningBytes;
  }

  // ── Completeness: what a holder builds is accepted, and exactly when ───────

  /** The clock values at which a statement made at `issuedAt` for `validForSecs` is accepted. A validity
      that would pass 2^64 - 1 ends one second before it. */
  predicate AcceptedAt(issuedAt: u64, validForSecs: u64, maxAgeSecs: u64, now: u64) {
    && issuedAt <= now < U64_MAX
    && now - issuedAt < validForSecs
    && now - issuedAt <= maxAgeSecs && now - issuedAt <= 3_600
  }

  lemma HolderWindow(issuedAt: u64, validForSecs: u64, maxAgeSecs: u64, now: u64)
    ensures InWindow(issuedAt, SatAdd64(issuedAt, validForSecs), maxAgeSecs, now) <==>
              AcceptedAt(issuedAt, validForSecs, maxAgeSecs, now)
  {
  }

  lemma LoginIsAccepted(V: SigCheck, S: Signing, H: Hash, seen: map<Bytes32, u64>, h: Holder, nonce: Bytes32, issuedAt: u64,
                        validForSecs: u64, digest: Option<Bytes32>, params: VerifyParams, expected: Option<Bytes32>)
    requires SignsCorrectly(V, S, h.key)
    ensures Settle(V, H, seen, LoginRequest(h.BuildLogin(S, nonce, issuedAt, validForSecs, digest), params, expected)).0.Pass? <==>
              (&& h.IsUsable() && params.expectedAudience == h.audience
               && AcceptedAt(issuedAt, validForSecs, params.maxAgeSecs, params.now)
               && expected == digest
               && NonceKey(H, AuthLoginV1(), h.key, nonce) !in seen)
  {
    HolderWindow(issuedAt, validForSecs, params.maxAgeSecs, params.now);
    SignatureIsNotSigned(Login(h.BuildLogin(S, nonce, issuedAt, validForSecs, digest)));
    hide LoginProof.SigningBytes, NonceKey;
  }

  lemma StepUpIsAccepted(V: SigCheck, S: Signing, H: Hash, seen: map<Bytes32, u64>, h: Holder, nonce: Bytes32, issuedAt: u64,
                         validForSecs: u64, digest: Bytes32, params: VerifyParams, expected: Bytes32)
    requires SignsCorrectly(V, S, h.key)
    ensures Settle(V, H, seen, StepUpRequest(h.BuildStepUp(S, nonce, issuedAt, validForSecs, digest), params, expected)).0.Pass? <==>
              (&& h.IsUsable() && params.expectedAudience == h.audience
               && AcceptedAt(issuedAt, validForSecs, params.maxAgeSecs, params.now)
               && expected == digest
               && NonceKey(H, AuthStepUpV1(), h.key, nonce) !in seen)
  {
    HolderWindow(issuedAt, validForSecs, params.maxAgeSecs, params.now);
    SignatureIsNotSigned(StepUp(h.BuildStepUp(S, nonce, issuedAt, validForSecs, digest)));
    hide StepUpProof.SigningBytes, NonceKey;
  }

  lemma DelegationIsAccepted(V: SigCheck, S: Signing, h: Holder, delegateKey: Bytes, bounds: Bounds, notBefore: u64,
                             expiresAt: u64, audience: Bytes, now: u64)
    requires SignsCorrectly(V, S, h.key)
    ensures VerifyDelegation(V, h.DelegateTo(S, delegateKey, bounds, notBefore, expiresAt), audience, now).Pass? <==>
              (h.IsUsable() && delegateKey != [] && audience == h.audience && notBefore <= now < expiresAt)
  {
    SignatureIsNotSigned(Delegate(h.DelegateTo(S, delegateKey, bounds, notBefore, expiresAt)));
    hide Delegation.SigningBytes;
  }

  /** An approval is accepted exactly when the delegation is still good, both keys still stand, the three
      request values are the ones approved, the clock is in the window and the nonce is unspent. */
  lemma ApprovalIsAccepted(V: SigCheck, S: Signing, H: Hash, seen: map<Bytes32, u64>, h: Holder, d: Delegation,
                           approvedDigest: Bytes32, approvedAction: Bytes, approvedAmount: u128, nonce: Bytes32, issuedAt: u64,
                           validForSecs: u64, params: VerifyParams, principals: set<Bytes>, revoked: set<Bytes>,
                           requestDigest: Bytes32, action: Bytes, amount: u128)
    requires SignsCorrectly(V, S, h.key)
    requires d == h.DelegateTo(S, d.delegateKey, d.bounds, d.notBefore, d.expiresAt)
    ensures var approval := h.BuildApproval(S, H, d, approvedDigest, approvedAction, approvedAmount, nonce, issuedAt, validForSecs);
            Settle(V, H, seen, ApprovalRequest(d, approval, params, principals, revoked, requestDigest, action, amount)).0.Pass? <==>
              (&& h.IsUsable() && h.key in principals && h.key !in revoked && d.delegateKey !in revoked
               && d.delegateKey != [] && params.expectedAudience == h.audience && d.notBefore <= params.now < d.expiresAt
               && AcceptedAt(issuedAt, validForSecs, params.maxAgeSecs, params.now)
               && requestDigest == approvedDigest && action == approvedAction && amount == approvedAmount
               && NonceKey(H, AuthApprovalV1(), h.key, nonce) !in seen)
  {
    HolderWindow(issuedAt, validForSecs, params.maxAgeSecs, params.now);
    DelegationIsAccepted(V, S, h, d.delegateKey, d.bounds, d.notBefore, d.expiresAt, params.expectedAudience, params.now);
    SignatureIsNotSigned(Approve(h.BuildApproval(S, H, d, approvedDigest, approvedAction, approvedAmount, nonce, issuedAt, validForSecs)));
    hide VerifyDelegation, Delegation.Id, Approval.SigningBytes, NonceKey;
  }

  /** A holder can always end its own authority: no authority list is consulted. */
  lemma SelfRevocationIsAccepted(V: SigCheck, S: Signing, h: Holder, issuedAt: u64, audience: Bytes, authorityKeys: set<Bytes>)
    requires SignsCorrectly(V, S, h.key)
    ensures VerifyRevocation(V, h.RevokeSelf(S, issuedAt), audience, authorityKeys).Pass? <==>
              (h.IsUsable() && audience == h.audience)
  {
    SignatureIsNotSigned(Revoke(h.RevokeSelf(S, issuedAt)));
    hide Revocation.SigningBytes;
  }

  lemma AuthorityRevocationIsAccepted(V: SigCheck, S: Signing, authorityKey: Bytes, subjectKey: Bytes, statedAudience: Bytes,
                                      issuedAt: u64, audience: Bytes, authorityKeys: set<Bytes>)
    requires SignsCorrectly(V, S, authorityKey)
    ensures VerifyRevocation(V, RevokeAsAuthority(S, authorityKey, subjectKey, statedAudience, issuedAt), audience, authorityKeys).Pass? <==>
              (authorityKey != [] && subjectKey != [] && statedAudience != [] && audience == statedAudience && authorityKey in authorityKeys)
  {
    SignatureIsNotSigned(Revoke(RevokeAsAuthority(S, authorityKey, subjectKey, statedAudience, issuedAt)));
    hide Revocation.SigningBytes;
  }

  lemma SuccessionIsAccepted(V: SigCheck, S: Signing, h: Holder, toKey: Bytes, issuedAt: u64, audience: Bytes)
    requires SignsCorrectly(V, S, h.key)
    ensures RetiredKey(V, h.NameSuccessor(S, toKey, issuedAt), audience) ==
              if toKey == [] || !h.IsUsable() then Err(Malformed)
              else if audience != h.audience then Err(AudienceMismatch)
              else if toKey == h.key then Err(Malformed)
              else Ok(h.key)
  {
    SignatureIsNotSigned(Succeed(h.NameSuccessor(S, toKey, issuedAt)));
    hide Succession.SigningBytes;
  }
}
