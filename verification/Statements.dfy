/** The six signed statements, the exact bytes a signature over each one covers, and a parser that
    inverts each encoding. */
module Statements {
  import opened Wrappers
  import opened Words

  // ── Purposes ───────────────────────────────────────────────────────────────

  /** One signature purpose per statement type. `AUTH_APPROVAL_V1` is defined in this repository;
      the other five are registered in `aethel-core` under the documented form
      `aethel-auth/<thing>/v<n>`. */
  function AuthLoginV1(): Bytes { Ascii("aethel-auth/login/v1") }
  function AuthStepUpV1(): Bytes { Ascii("aethel-auth/step-up/v1") }
  function AuthApprovalV1(): Bytes { Ascii("aethel-auth/approval/v1") }
  function AuthDelegationV1(): Bytes { Ascii("aethel-auth/delegation/v1") }
  function AuthRevocationV1(): Bytes { Ascii("aethel-auth/revocation/v1") }
  function AuthSuccessionV1(): Bytes { Ascii("aethel-auth/succession/v1") }

  lemma PurposesAreDistinct()
    ensures forall i, j :: 0 <= i < j < 6 ==> Purposes()[i] != Purposes()[j]
  {
    assert |AuthLoginV1()| == 20 && |AuthStepUpV1()| == 22 && |AuthApprovalV1()| == 23;
    assert |AuthDelegationV1()| == |AuthRevocationV1()| == |AuthSuccessionV1()| == 25;
    assert AuthDelegationV1()[12] == 'd' as int;
    assert AuthRevocationV1()[12] == 'r' as int;
    assert AuthSuccessionV1()[12] == 's' as int;
  }

  function Purposes(): seq<Bytes> {
    [AuthLoginV1(), AuthStepUpV1(), AuthApprovalV1(), AuthDelegationV1(), AuthRevocationV1(), AuthSuccessionV1()]
  }

  // ── The statements ─────────────────────────────────────────────────────────

  datatype LoginProof = LoginProof(
    publicKey: Bytes, audience: Bytes, nonce: Bytes32, issuedAt: u64, expiresAt: u64,
    sessionCommitment: Option<Bytes32>, requestDigest: Option<Bytes32>, signature: Bytes)
  {
    function SigningBytes(): Bytes {
      LenPrefixed(audience) + (Be(issuedAt, 8) + (Be(expiresAt, 8) + (LenPrefixed(nonce) +
      (LenPrefixed(CommitmentBytes(sessionCommitment)) + DigestTail(requestDigest)))))
    }

    method SigningInput() returns (out: Bytes)
      ensures out == SigningBytes()
    {
      hide Be, LenPrefixed;
      out := PushLenPrefixed([], audience);
      out := Extend(out, Be(issuedAt, 8));
      out := Extend(out, Be(expiresAt, 8));
      out := PushLenPrefixed(out, nonce);
      ghost var named := out;
      ghost var tail := LenPrefixed(CommitmentBytes(sessionCommitment)) + DigestTail(requestDigest);
      assert named + tail == SigningBytes();
      match sessionCommitment {
        case Some(c) => out := PushLenPrefixed(out, c);
        case None => out := PushLenPrefixed(out, []);
      }
      if requestDigest.Some? {
        out := PushLenPrefixed(out, requestDigest.value);
      }
      assert out == named + tail by { hide LoginProof.SigningBytes; }
    }
  }

  datatype StepUpProof = StepUpProof(
    publicKey: Bytes, audience: Bytes, nonce: Bytes32, issuedAt: u64, expiresAt: u64,
    actionDigest: Bytes32, signature: Bytes)
  {
    function SigningBytes(): Bytes {
      LenPrefixed(audience) + (Be(issuedAt, 8) + (Be(expiresAt, 8) + (LenPrefixed(nonce) + LenPrefixed(actionDigest))))
    }

    method SigningInput() returns (out: Bytes)
      ensures out == SigningBytes()
    {
      hide Be, LenPrefixed;
      out := PushLenPrefixed([], audience);
      out := Extend(out, Be(issuedAt, 8));
      out := Extend(out, Be(expiresAt, 8));
      out := PushLenPrefixed(out, nonce);
      out := PushLenPrefixed(out, actionDigest);
    }
  }

  datatype Approval = Approval(
    principalKey: Bytes, audience: Bytes, delegationId: Bytes32, requestDigest: Bytes32, action: Bytes,
    amount: u128, nonce: Bytes32, issuedAt: u64, expiresAt: u64, signature: Bytes)
  {
    function SigningBytes(): Bytes {
      LenPrefixed(audience) + (Be(issuedAt, 8) + (Be(expiresAt, 8) + (LenPrefixed(nonce) +
      (LenPrefixed(delegationId) + (LenPrefixed(requestDigest) + (LenPrefixed(action) + Be(amount, 16)))))))
    }

    method SigningInput() returns (out: Bytes)
      ensures out == SigningBytes()
    {
      hide Be, LenPrefixed;
      out := PushLenPrefixed([], audience);
      out := Extend(out, Be(issuedAt, 8));
      out := Extend(out, Be(expiresAt, 8));
      out := PushLenPrefixed(out, nonce);
      out := PushLenPrefixed(out, delegationId);
      out := PushLenPrefixed(out, requestDigest);
      out := PushLenPrefixed(out, action);
      ghost var named := out;
      out := Extend(out, Be(amount, 16));
      assert named + Be(amount, 16) == SigningBytes();
    }
  }

  datatype Bounds = Bounds(
    actions: seq<Bytes>, maxPerInvocation: Option<u128>, maxTotal: Option<u128>,
    windowSecs: Option<u64>, approvalRequiredAbove: Option<u128>)

  datatype Delegation = Delegation(
    principalKey: Bytes, delegateKey: Bytes, audience: Bytes, bounds: Bounds,
    notBefore: u64, expiresAt: u64, signature: Bytes)
  {
    function SigningBytes(): Bytes {
      LenPrefixed(delegateKey) + (LenPrefixed(audience) + (Be(notBefore, 8) + (Be(expiresAt, 8) +
      (Be(|bounds.actions| % TWO_32, 4) + (Items(bounds.actions) + BoundsTail(bounds))))))
    }

    method SigningInput() returns (out: Bytes)
      ensures out == SigningBytes()
    {
      hide LenPrefixed, Be, Items, BoundsTail;
      out := PushLenPrefixed([], delegateKey);
      out := PushLenPrefixed(out, audience);
      out := Extend(out, Be(notBefore, 8));
      out := Extend(out, Be(expiresAt, 8));
      out := Extend(out, Be(|bounds.actions| % TWO_32, 4));
      var listed := PushItems(out, bounds.actions);
      ghost var head := out;
      out := PushBounds(listed, bounds);
      AppendAssoc(head, Items(bounds.actions), BoundsTail(bounds));
    }

    /** What `id` hashes. */
    function IdPreimage(): Bytes {
      LenPrefixed(DelegationIdLabel()) +
      (LenPrefixed(principalKey) + (LenPrefixed(SigningBytes()) + LenPrefixed(signature)))
    }

    function Id(H: Hash): Bytes32 { H(IdPreimage()) }
  }

  datatype RevokedBy = ByHolder | ByAuthority

  datatype Revocation = Revocation(
    subjectKey: Bytes, signerKey: Bytes, revokedBy: RevokedBy, audience: Bytes, issuedAt: u64, signature: Bytes)
  {
    function SigningBytes(): Bytes {
      LenPrefixed(subjectKey) + (LenPrefixed(audience) + ([if revokedBy.ByHolder? then 0 else 1] + Be(issuedAt, 8)))
    }

    method SigningInput() returns (out: Bytes)
      ensures out == SigningBytes()
    {
      hide Be, LenPrefixed;
      out := PushLenPrefixed([], subjectKey);
      out := PushLenPrefixed(out, audience);
      match revokedBy {
        case ByHolder => out := Extend(out, [0]);
        case ByAuthority => out := Extend(out, [1]);
      }
      out := Extend(out, Be(issuedAt, 8));
    }
  }

  datatype Succession = Succession(
    fromKey: Bytes, toKey: Bytes, audience: Bytes, issuedAt: u64, signature: Bytes)
  {
    function SigningBytes(): Bytes {
      LenPrefixed(fromKey) + (LenPrefixed(toKey) + (LenPrefixed(audience) + Be(issuedAt, 8)))
    }

    method SigningInput() returns (out: Bytes)
      ensures out == SigningBytes()
    {
      hide Be, LenPrefixed;
      out := PushLenPrefixed([], fromKey);
      out := PushLenPrefixed(out, toKey);
      out := PushLenPrefixed(out, audience);
      out := Extend(out, Be(issuedAt, 8));
    }
  }

  function DelegationIdLabel(): Bytes { Ascii("aethel-auth/delegation-id/v1") }
  function NonceKeyLabel(): Bytes { Ascii("aethel-auth/nonce-key/v1") }

  /** An absent commitment is an empty field, a present one a field of 32 bytes. */
  function CommitmentBytes(c: Option<Bytes32>): Bytes {
    match c
    case None => []
    case Some(b) => b
  }

  /** A request digest adds a field only when present. */
  function DigestTail(d: Option<Bytes32>): Bytes {
    match d
    case None => []
    case Some(b) => LenPrefixed(b)
  }

  function Items(actions: seq<Bytes>): Bytes {
    if actions == [] then [] else LenPrefixed(actions[0]) + Items(actions[1..])
  }

  /** A present bound is a 1 and the number, an absent one a 0, so `None` is not `Some(0)`. */
  function Tagged128(v: Option<u128>): Bytes {
    match v
    case None => [0]
    case Some(n) => [1] + Be(n, 16)
  }

  function Tagged64(v: Option<u64>): Bytes {
    match v
    case None => [0]
    case Some(n) => [1] + Be(n, 8)
  }

  function BoundsTail(b: Bounds): Bytes {
    Tagged128(b.maxPerInvocation) + (Tagged128(b.maxTotal) +
    (Tagged128(b.approvalRequiredAbove) + Tagged64(b.windowSecs)))
  }

  lemma {:induction false} ItemsSnoc(actions: seq<Bytes>, last: Bytes)
    ensures Items(actions + [last]) == Items(actions) + LenPrefixed(last)
  {
    if actions == [] {
      assert Items([last]) == LenPrefixed(last) + Items([]);
    } else {
      assert (actions + [last])[1..] == actions[1..] + [last];
      ItemsSnoc(actions[1..], last);
    }
  }

  function TaggedFields(fields: seq<Option<u128>>): Bytes {
    if fields == [] then [] else TaggedFields(fields[..|fields| - 1]) + Tagged128(fields[|fields| - 1])
  }

  lemma BoundsTailIsItsFields(b: Bounds)
    ensures TaggedFields([b.maxPerInvocation, b.maxTotal, b.approvalRequiredAbove]) + Tagged64(b.windowSecs)
         == BoundsTail(b)
  {
    var x, y, z, w := Tagged128(b.maxPerInvocation), Tagged128(b.maxTotal), Tagged128(b.approvalRequiredAbove), Tagged64(b.windowSecs);
    var f := [b.maxPerInvocation, b.maxTotal, b.approvalRequiredAbove];
    assert f[..2] == [b.maxPerInvocation, b.maxTotal];
    assert TaggedFields([b.maxPerInvocation]) == x;
    assert [b.maxPerInvocation, b.maxTotal][..1] == [b.maxPerInvocation];
    assert TaggedFields(f[..2]) == x + y;
    assert TaggedFields(f) == (x + y) + z;
    hide Tagged128, Tagged64;
    AppendAssoc(x + y, z, w);
    AppendAssoc(x, y, z + w);
  }

  /** The action loop of the delegation encoding. */
  method PushItems(out: Bytes, actions: seq<Bytes>) returns (r: Bytes)
    ensures r == out + Items(actions)
  {
    r := out;
    for i := 0 to |actions|
      invariant r == out + Items(actions[..i])
    {
      ItemsSnoc(actions[..i], actions[i]);
      assert actions[..i] + [actions[i]] == actions[..i + 1];
      AppendAssoc(out, Items(actions[..i]), LenPrefixed(actions[i]));
      r := PushLenPrefixed(r, actions[i]);
    }
    assert actions[..|actions|] == actions;
  }

  /** The loop over the three amount bounds, then the window. */
  method PushBounds(out: Bytes, b: Bounds) returns (r: Bytes)
    ensures r == out + BoundsTail(b)
  {
    hide Be, TaggedFields, BoundsTail;
    var fields := [b.maxPerInvocation, b.maxTotal, b.approvalRequiredAbove];
    r := out;
    NoFieldsYet(out, fields);
    for i := 0 to 3
      invariant r == out + TaggedFields(fields[..i])
    {
      ghost var before := r;
      match fields[i] {
        case Some(v) =>
          r := r + [1];
          r := r + Be(v, 16);
        case None =>
          r := r + [0];
      }
      assert r == before + Tagged128(fields[i]);
      NextField(out, fields, i);
    }
    assert fields[..3] == fields;
    ghost var listed := r;
    match b.windowSecs {
      case Some(v) =>
        r := r + [1];
        r := r + Be(v, 8);
      case None =>
        r := r + [0];
    }
    assert r == listed + Tagged64(b.windowSecs);
    BoundsTailIsItsFields(b);
    AppendAssoc(out, TaggedFields(fields), Tagged64(b.windowSecs));
  }

  lemma NoFieldsYet(out: Bytes, fields: seq<Option<u128>>)
    ensures out + TaggedFields(fields[..0]) == out
  {
  }

  lemma NextField(out: Bytes, fields: seq<Option<u128>>, i: nat)
    requires i < |fields|
    ensures out + TaggedFields(fields[..i + 1]) == (out + TaggedFields(fields[..i])) + Tagged128(fields[i])
  {
    hide Tagged128;
    assert fields[..i + 1][..i] == fields[..i];
    AppendAssoc(out, TaggedFields(fields[..i]), Tagged128(fields[i]));
  }

  /** What `nonce_key` hashes. */
  function NonceKeyPreimage(purpose: Bytes, key: Bytes, nonce: Bytes32): Bytes {
    LenPrefixed(NonceKeyLabel()) + (LenPrefixed(purpose) + (LenPrefixed(key) + LenPrefixed(nonce)))
  }

  function NonceKey(H: Hash, purpose: Bytes, key: Bytes, nonce: Bytes32): Bytes32 {
    H(NonceKeyPreimage(purpose, key, nonce))
  }

  // ── Parsers ────────────────────────────────────────────────────────────────

  function TakeItems(s: Bytes, n: nat): Option<(seq<Bytes>, Bytes)> {
    if n == 0 then Some(([], s)) else
    var (first, s1) :- TakeLenPrefixed(s);
    var (rest, s2) :- TakeItems(s1, n - 1);
    Some(([first] + rest, s2))
  }

  function TakeTagged128(s: Bytes): Option<(Option<u128>, Bytes)> {
    var (tag, s1) :- TakeBytes(s, 1);
    if tag[0] == 0 then Some((None, s1)) else
    var _ :- Need(tag[0] == 1);
    var (v, s2) :- TakeU128(s1);
    Some((Some(v), s2))
  }

  function TakeTagged64(s: Bytes): Option<(Option<u64>, Bytes)> {
    var (tag, s1) :- TakeBytes(s, 1);
    if tag[0] == 0 then Some((None, s1)) else
    var _ :- Need(tag[0] == 1);
    var (v, s2) :- TakeU64(s1);
    Some((Some(v), s2))
  }

  function TakeCommitment(s: Bytes): Option<(Option<Bytes32>, Bytes)> {
    var (c, rest) :- TakeLenPrefixed(s);
    if |c| == 0 then Some((None, rest))
    else if |c| == 32 then Some((Some(c), rest))
    else None
  }

  /** Reads the signed bytes of a login made with `key`; the result is the proof before signing. */
  function ParseLogin(key: Bytes, s: Bytes): Option<LoginProof> {
    var (audience, s1) :- TakeLenPrefixed(s);
    var (issuedAt, s2) :- TakeU64(s1);
    var (expiresAt, s3) :- TakeU64(s2);
    var (nonce, s4) :- TakeBytes32(s3);
    var (commitment, s5) :- TakeCommitment(s4);
    if s5 == [] then
      Some(LoginProof(key, audience, nonce, issuedAt, expiresAt, commitment, None, []))
    else
      var (digest, s6) :- TakeBytes32(s5);
      var _ :- Need(s6 == []);
      Some(LoginProof(key, audience, nonce, issuedAt, expiresAt, commitment, Some(digest), []))
  }

  function ParseStepUp(key: Bytes, s: Bytes): Option<StepUpProof> {
    var (audience, s1) :- TakeLenPrefixed(s);
    var (issuedAt, s2) :- TakeU64(s1);
    var (expiresAt, s3) :- TakeU64(s2);
    var (nonce, s4) :- TakeBytes32(s3);
    var (digest, s5) :- TakeBytes32(s4);
    var _ :- Need(s5 == []);
    Some(StepUpProof(key, audience, nonce, issuedAt, expiresAt, digest, []))
  }

  function ParseApproval(key: Bytes, s: Bytes): Option<Approval> {
    var (audience, s1) :- TakeLenPrefixed(s);
    var (issuedAt, s2) :- TakeU64(s1);
    var (expiresAt, s3) :- TakeU64(s2);
    var (nonce, s4) :- TakeBytes32(s3);
    var (delegationId, s5) :- TakeBytes32(s4);
    var (requestDigest, s6) :- TakeBytes32(s5);
    var (action, s7) :- TakeLenPrefixed(s6);
    var (amount, s8) :- TakeU128(s7);
    var _ :- Need(s8 == []);
    Some(Approval(key, audience, delegationId, requestDigest, action, amount, nonce, issuedAt, expiresAt, []))
  }

  function ParseBounds(actions: seq<Bytes>, s: Bytes): Option<Bounds> {
    var (perCall, s1) :- TakeTagged128(s);
    var (total, s2) :- TakeTagged128(s1);
    var (approval, s3) :- TakeTagged128(s2);
    var (window, s4) :- TakeTagged64(s3);
    var _ :- Need(s4 == []);
    Some(Bounds(actions, perCall, total, window, approval))
  }

  function ParseDelegation(key: Bytes, s: Bytes): Option<Delegation> {
    var (delegateKey, s1) :- TakeLenPrefixed(s);
    var (audience, s2) :- TakeLenPrefixed(s1);
    var (notBefore, s3) :- TakeU64(s2);
    var (expiresAt, s4) :- TakeU64(s3);
    var (count, s5) :- TakeBe(s4, 4);
    var (actions, s6) :- TakeItems(s5, count);
    var bounds :- ParseBounds(actions, s6);
    Some(Delegation(key, delegateKey, audience, bounds, notBefore, expiresAt, []))
  }

  function ParseRevocation(key: Bytes, s: Bytes): Option<Revocation> {
    var (subject, s1) :- TakeLenPrefixed(s);
    var (audience, s2) :- TakeLenPrefixed(s1);
    var (tag, s3) :- TakeBytes(s2, 1);
    var _ :- Need(tag[0] <= 1);
    var (issuedAt, s4) :- TakeU64(s3);
    var _ :- Need(s4 == []);
    Some(Revocation(subject, key, if tag[0] == 0 then ByHolder else ByAuthority, audience, issuedAt, []))
  }

  function ParseSuccession(s: Bytes): Option<Succession> {
    var (fromKey, s1) :- TakeLenPrefixed(s);
    var (toKey, s2) :- TakeLenPrefixed(s1);
    var (audience, s3) :- TakeLenPrefixed(s2);
    var (issuedAt, s4) :- TakeU64(s3);
    var _ :- Need(s4 == []);
    Some(Succession(fromKey, toKey, audience, issuedAt, []))
  }

  // ── Every parser inverts its encoding ──────────────────────────────────────

  lemma LoginParses(p: LoginProof)
    requires Fits(p.audience)
    ensures ParseLogin(p.publicKey, p.SigningBytes()) == Some(p.(signature := []))
  {
    var s5 := DigestTail(p.requestDigest);
    var s4 := LenPrefixed(CommitmentBytes(p.sessionCommitment)) + s5;
    var s3 := LenPrefixed(p.nonce) + s4;
    var s2 := Be(p.expiresAt, 8) + s3;
    LoginTailParses(p);
    hide TakeLenPrefixed, TakeU64, LenPrefixed, Be, DigestTail, TakeCommitment, CommitmentBytes;
    TakeLenPrefixedReads(p.audience, Be(p.issuedAt, 8) + s2);
    TakeU64Reads(p.issuedAt, s2);
    TakeU64Reads(p.expiresAt, s3);
    TakeLenPrefixedReads(p.nonce, s4);
  }

  /** The optional fields of a login: the commitment, then the digest field that may be missing. */
  lemma LoginTailParses(p: LoginProof)
    ensures TakeCommitment(LenPrefixed(CommitmentBytes(p.sessionCommitment)) + DigestTail(p.requestDigest))
         == Some((p.sessionCommitment, DigestTail(p.requestDigest)))
    ensures p.requestDigest.None? <==> DigestTail(p.requestDigest) == []
    ensures p.requestDigest.Some? ==> TakeBytes32(DigestTail(p.requestDigest)) == Some((p.requestDigest.value, []))
  {
    TakeLenPrefixedReads(CommitmentBytes(p.sessionCommitment), DigestTail(p.requestDigest));
    if p.requestDigest.Some? {
      TakeLenPrefixedReads(p.requestDigest.value, []);
      assert LenPrefixed(p.requestDigest.value) + [] == DigestTail(p.requestDigest);
    }
    hide TakeLenPrefixed, LenPrefixed;
  }

  lemma StepUpParses(p: StepUpProof)
    requires Fits(p.audience)
    ensures ParseStepUp(p.publicKey, p.SigningBytes()) == Some(p.(signature := []))
  {
    hide LenPrefixed, TakeLenPrefixed, Be, TakeU64, TakeU128;
    var s4 := LenPrefixed(p.actionDigest);
    var s3 := LenPrefixed(p.nonce) + s4;
    var s2 := Be(p.expiresAt, 8) + s3;
    TakeLenPrefixedReads(p.audience, Be(p.issuedAt, 8) + s2);
    TakeU64Reads(p.issuedAt, s2);
    TakeU64Reads(p.expiresAt, s3);
    TakeLenPrefixedReads(p.nonce, s4);
    TakeLenPrefixedReads(p.actionDigest, []);
    assert s4 + [] == s4;
  }

  lemma ApprovalParses(p: Approval)
    requires Fits(p.audience) && Fits(p.action)
    ensures ParseApproval(p.principalKey, p.SigningBytes()) == Some(p.(signature := []))
  {
    hide LenPrefixed, TakeLenPrefixed, Be, TakeU64, TakeU128;
    var s7 := Be(p.amount, 16);
    var s6 := LenPrefixed(p.action) + s7;
    var s5 := LenPrefixed(p.requestDigest) + s6;
    var s4 := LenPrefixed(p.delegationId) + s5;
    var s3 := LenPrefixed(p.nonce) + s4;
    var s2 := Be(p.expiresAt, 8) + s3;
    TakeLenPrefixedReads(p.audience, Be(p.issuedAt, 8) + s2);
    TakeU64Reads(p.issuedAt, s2);
    TakeU64Reads(p.expiresAt, s3);
    TakeLenPrefixedReads(p.nonce, s4);
    TakeLenPrefixedReads(p.delegationId, s5);
    TakeLenPrefixedReads(p.requestDigest, s6);
    TakeLenPrefixedReads(p.action, s7);
    TakeU128Reads(p.amount, []);
    assert s7 + [] == s7;
  }

  lemma RevocationParses(p: Revocation)
    requires Fits(p.subjectKey) && Fits(p.audience)
    ensures ParseRevocation(p.signerKey, p.SigningBytes()) == Some(p.(signature := []))
  {
    hide LenPrefixed, TakeLenPrefixed, Be, TakeU64;
    var s3 := Be(p.issuedAt, 8);
    var tag: Bytes := [if p.revokedBy.ByHolder? then 0 else 1];
    TakeLenPrefixedReads(p.subjectKey, LenPrefixed(p.audience) + (tag + s3));
    TakeLenPrefixedReads(p.audience, tag + s3);
    assert (tag + s3)[..1] == tag && (tag + s3)[1..] == s3;
    TakeU64Reads(p.issuedAt, []);
    assert s3 + [] == s3;
  }

  lemma SuccessionParses(p: Succession)
    requires Fits(p.fromKey) && Fits(p.toKey) && Fits(p.audience)
    ensures ParseSuccession(p.SigningBytes()) == Some(p.(signature := []))
  {
    hide LenPrefixed, TakeLenPrefixed, Be, TakeU64, TakeU128;
    var s3 := Be(p.issuedAt, 8);
    TakeLenPrefixedReads(p.fromKey, LenPrefixed(p.toKey) + (LenPrefixed(p.audience) + s3));
    TakeLenPrefixedReads(p.toKey, LenPrefixed(p.audience) + s3);
    TakeLenPrefixedReads(p.audience, s3);
    TakeU64Reads(p.issuedAt, []);
    assert s3 + [] == s3;
  }

  predicate DelegationFits(d: Delegation) {
    && Fits(d.delegateKey) && Fits(d.audience)
    && |d.bounds.actions| < TWO_32
    && forall a :: a in d.bounds.actions ==> Fits(a)
  }

  /** A counted list of framed items is read back item by item: it cannot be re-split. */
  lemma {:induction false} ItemsParse(actions: seq<Bytes>, rest: Bytes)
    requires forall a :: a in actions ==> Fits(a)
    ensures TakeItems(Items(actions) + rest, |actions|) == Some((actions, rest))
  {
    hide LenPrefixed, TakeLenPrefixed;
    if actions == [] {
      assert Items(actions) + rest == rest;
    } else {
      var tail := Items(actions[1..]) + rest;
      assert Items(actions) + rest == LenPrefixed(actions[0]) + tail;
      assert actions[0] in actions;
      TakeLenPrefixedReads(actions[0], tail);
      ItemsParse(actions[1..], rest);
      assert [actions[0]] + actions[1..] == actions;
    }
  }

  lemma Tagged128Parses(v: Option<u128>, rest: Bytes)
    ensures TakeTagged128(Tagged128(v) + rest) == Some((v, rest))
  {
    hide Be, TakeU128;
    var s := Tagged128(v) + rest;
    if v.Some? {
      assert s[1..] == Be(v.value, 16) + rest;
      TakeU128Reads(v.value, rest);
    } else {
      assert s[1..] == rest;
    }
  }

  lemma Tagged64Parses(v: Option<u64>, rest: Bytes)
    ensures TakeTagged64(Tagged64(v) + rest) == Some((v, rest))
  {
    hide Be, TakeU64;
    var s := Tagged64(v) + rest;
    if v.Some? {
      assert s[1..] == Be(v.value, 8) + rest;
      TakeU64Reads(v.value, rest);
    } else {
      assert s[1..] == rest;
    }
  }

  lemma BoundsParse(b: Bounds)
    ensures ParseBounds(b.actions, BoundsTail(b)) == Some(b)
  {
    var s3 := Tagged64(b.windowSecs);
    var s2 := Tagged128(b.approvalRequiredAbove) + s3;
    var s1 := Tagged128(b.maxTotal) + s2;
    Tagged128Parses(b.maxPerInvocation, s1);
    Tagged128Parses(b.maxTotal, s2);
    Tagged128Parses(b.approvalRequiredAbove, s3);
    Tagged64Parses(b.windowSecs, []);
    assert s3 + [] == s3;
  }

  lemma DelegationParses(d: Delegation)
    requires DelegationFits(d)
    ensures ParseDelegation(d.principalKey, d.SigningBytes()) == Some(d.(signature := []))
  {
    WordSizes();
    hide TakeLenPrefixed, TakeU64, LenPrefixed, Be, TakeBe, Items, BoundsTail, TakeItems, ParseBounds;
    var b := d.bounds;
    var s5 := Items(b.actions) + BoundsTail(b);
    var s4 := Be(|b.actions|, 4) + s5;
    var s3 := Be(d.expiresAt, 8) + s4;
    var s2 := Be(d.notBefore, 8) + s3;
    TakeLenPrefixedReads(d.delegateKey, LenPrefixed(d.audience) + s2);
    TakeLenPrefixedReads(d.audience, s2);
    TakeU64Reads(d.notBefore, s3);
    TakeU64Reads(d.expiresAt, s4);
    TakeBeReads(|b.actions|, 4, s5);
    ItemsParse(b.actions, BoundsTail(b));
    BoundsParse(b);
  }

  // ── Labels and hashed pre-images ───────────────────────────────────────────

  /** The documented form of everything this crate signs or hashes under: its prefix, the thing, the version. */
  function Labelled(thing: string): Bytes { Ascii("aethel-auth/") + Ascii(thing) + Ascii("/v1") }

  lemma LabelsHaveTheDocumentedForm()
    ensures AuthLoginV1() == Labelled("login") && AuthStepUpV1() == Labelled("step-up") && AuthApprovalV1() == Labelled("approval")
    ensures AuthDelegationV1() == Labelled("delegation") && AuthRevocationV1() == Labelled("revocation")
    ensures AuthSuccessionV1() == Labelled("succession")
    ensures NonceKeyLabel() == Labelled("nonce-key") && DelegationIdLabel() == Labelled("delegation-id")
  {
    ProofLabels();
    AuthorityLabels();
    EndingLabels();
    HashLabels();
    hide *;
  }

  lemma ProofLabels()
    ensures AuthLoginV1() == Labelled("login") && AuthStepUpV1() == Labelled("step-up")
  {
  }

  lemma AuthorityLabels()
    ensures AuthApprovalV1() == Labelled("approval") && AuthDelegationV1() == Labelled("delegation")
  {
  }

  lemma EndingLabels()
    ensures AuthRevocationV1() == Labelled("revocation") && AuthSuccessionV1() == Labelled("succession")
  {
  }

  lemma HashLabels()
    ensures NonceKeyLabel() == Labelled("nonce-key") && DelegationIdLabel() == Labelled("delegation-id")
  {
  }

  /** Reads four framed fields in order. */
  function ReadFour(s: Bytes): Option<(Bytes, Bytes, Bytes, Bytes)> {
    var (a, s) :- TakeLenPrefixed(s);
    var (b, s) :- TakeLenPrefixed(s);
    var (c, s) :- TakeLenPrefixed(s);
    var (d, s) :- TakeLenPrefixed(s);
    if s == [] then Some((a, b, c, d)) else None
  }

  lemma FourFieldsRead(a: Bytes, b: Bytes, c: Bytes, d: Bytes)
    requires Fits(a) && Fits(b) && Fits(c) && Fits(d)
    ensures ReadFour(LenPrefixed(a) + (LenPrefixed(b) + (LenPrefixed(c) + LenPrefixed(d)))) == Some((a, b, c, d))
  {
    hide LenPrefixed, TakeLenPrefixed, Fits;
    TakeLenPrefixedReads(a, LenPrefixed(b) + (LenPrefixed(c) + LenPrefixed(d)));
    TakeLenPrefixedReads(b, LenPrefixed(c) + LenPrefixed(d));
    TakeLenPrefixedReads(c, LenPrefixed(d));
    TakeLenPrefixedReads(d, []);
    assert LenPrefixed(d) + [] == LenPrefixed(d);
  }

  /** What is hashed into a nonce key: the label, the purpose, the signer's key and the nonce, in this order. */
  lemma NonceKeyPreimageReads(purpose: Bytes, key: Bytes, nonce: Bytes32)
    requires Fits(purpose) && Fits(key)
    ensures ReadFour(NonceKeyPreimage(purpose, key, nonce)) == Some((Labelled("nonce-key"), purpose, key, nonce))
  {
    LabelsHaveTheDocumentedForm();
    assert Fits(NonceKeyLabel()) && Fits(nonce);
    FourFieldsRead(NonceKeyLabel(), purpose, key, nonce);
    hide ReadFour, LenPrefixed, NonceKeyLabel, Labelled, Fits;
  }

  /** What is hashed into a delegation's id: the label, the principal, the signed bytes and the signature. */
  lemma IdPreimageReads(d: Delegation)
    requires Fits(d.principalKey) && Fits(d.SigningBytes()) && Fits(d.signature)
    ensures ReadFour(d.IdPreimage()) == Some((Labelled("delegation-id"), d.principalKey, d.SigningBytes(), d.signature))
  {
    LabelsHaveTheDocumentedForm();
    assert Fits(DelegationIdLabel());
    hide ReadFour, LenPrefixed, DelegationIdLabel, Labelled, Fits, Delegation.SigningBytes;
    FourFieldsRead(DelegationIdLabel(), d.principalKey, d.SigningBytes(), d.signature);
  }

  // ── What a signature pins down ─────────────────────────────────────────────

  /** A statement of any of the six kinds. */
  datatype Statement =
    | Login(login: LoginProof)
    | StepUp(stepUp: StepUpProof)
    | Approve(approval: Approval)
    | Delegate(delegation: Delegation)
    | Revoke(revocation: Revocation)
    | Succeed(succession: Succession)
  {
    function Signer(): Bytes {
      match this
      case Login(p) => p.publicKey
      case StepUp(p) => p.publicKey
      case Approve(p) => p.principalKey
      case Delegate(p) => p.principalKey
      case Revoke(p) => p.signerKey
      case Succeed(p) => p.fromKey
    }

    function Purpose(): Bytes {
      match this
      case Login(_) => AuthLoginV1()
      case StepUp(_) => AuthStepUpV1()
      case Approve(_) => AuthApprovalV1()
      case Delegate(_) => AuthDelegationV1()
      case Revoke(_) => AuthRevocationV1()
      case Succeed(_) => AuthSuccessionV1()
    }

    function Message(): Bytes {
      match this
      case Login(p) => p.SigningBytes()
      case StepUp(p) => p.SigningBytes()
      case Approve(p) => p.SigningBytes()
      case Delegate(p) => p.SigningBytes()
      case Revoke(p) => p.SigningBytes()
      case Succeed(p) => p.SigningBytes()
    }

    function Signature(): Bytes {
      match this
      case Login(p) => p.signature
      case StepUp(p) => p.signature
      case Approve(p) => p.signature
      case Delegate(p) => p.signature
      case Revoke(p) => p.signature
      case Succeed(p) => p.signature
    }

    /** The statement with the signature field emptied: every field value its signer chose. */
    function Unsigned(): Statement {
      match this
      case Login(p) => Login(p.(signature := []))
      case StepUp(p) => StepUp(p.(signature := []))
      case Approve(p) => Approve(p.(signature := []))
      case Delegate(p) => Delegate(p.(signature := []))
      case Revoke(p) => Revoke(p.(signature := []))
      case Succeed(p) => Succeed(p.(signature := []))
    }

    /** The signed bytes are fewer than 2^32. */
    predicate IsSignable() { Fits(Message()) }

    /** Every length in the signed bytes survives the 32-bit cast. */
    predicate IsFramed() {
      match this
      case Login(p) => Fits(p.audience)
      case StepUp(p) => Fits(p.audience)
      case Approve(p) => Fits(p.audience) && Fits(p.action)
      case Delegate(p) => DelegationFits(p)
      case Revoke(p) => Fits(p.subjectKey) && Fits(p.audience)
      case Succeed(p) => Fits(p.fromKey) && Fits(p.toKey) && Fits(p.audience)
    }
  }

  /** The signed bytes do not depend on the signature field. */
  lemma SignatureIsNotSigned(a: Statement)
    ensures a.Message() == a.Unsigned().Message()
  {
    hide LenPrefixed, Be, Items, BoundsTail, CommitmentBytes, DigestTail;
  }

  lemma {:induction false} ItemsAreLongEnough(actions: seq<Bytes>)
    ensures |Items(actions)| >= 4 * |actions|
    ensures forall a :: a in actions ==> |a| <= |Items(actions)|
  {
    if actions != [] {
      ItemsAreLongEnough(actions[1..]);
      assert forall a :: a in actions ==> a == actions[0] || a in actions[1..];
    }
  }

  /** Below 2^32 signed bytes nothing inside them has wrapped, whoever wrote them. */
  lemma SignableIsFramed(a: Statement)
    requires a.IsSignable()
    ensures a.IsFramed()
  {
    hide Be, BoundsTail, CommitmentBytes, DigestTail;
    if a.Delegate? {
      ItemsAreLongEnough(a.delegation.bounds.actions);
      hide Items;
    }
  }

  /** Reads any statement back from the key, purpose and bytes a signature covers. */
  function ParseStatement(key: Bytes, purpose: Bytes, s: Bytes): Option<Statement> {
    if purpose == AuthLoginV1() then var p :- ParseLogin(key, s); Some(Login(p))
    else if purpose == AuthStepUpV1() then var p :- ParseStepUp(key, s); Some(StepUp(p))
    else if purpose == AuthApprovalV1() then var p :- ParseApproval(key, s); Some(Approve(p))
    else if purpose == AuthDelegationV1() then var p :- ParseDelegation(key, s); Some(Delegate(p))
    else if purpose == AuthRevocationV1() then var p :- ParseRevocation(key, s); Some(Revoke(p))
    else if purpose == AuthSuccessionV1() then var p :- ParseSuccession(s); Some(Succeed(p))
    else None
  }

  lemma PurposesDiffer()
    ensures AuthLoginV1() !in [AuthStepUpV1(), AuthApprovalV1(), AuthDelegationV1(), AuthRevocationV1(), AuthSuccessionV1()]
    ensures AuthStepUpV1() !in [AuthApprovalV1(), AuthDelegationV1(), AuthRevocationV1(), AuthSuccessionV1()]
    ensures AuthApprovalV1() !in [AuthDelegationV1(), AuthRevocationV1(), AuthSuccessionV1()]
    ensures AuthDelegationV1() != AuthRevocationV1() && AuthRevocationV1() != AuthSuccessionV1() && AuthDelegationV1() != AuthSuccessionV1()
  {
    PurposesAreDistinct();
    hide AuthLoginV1, AuthStepUpV1, AuthApprovalV1, AuthDelegationV1, AuthRevocationV1, AuthSuccessionV1;
    var all := Purposes();
    assert all[0] != all[1] && all[0] != all[2] && all[0] != all[3] && all[0] != all[4] && all[0] != all[5];
    assert all[1] != all[2] && all[1] != all[3] && all[1] != all[4] && all[1] != all[5];
    assert all[2] != all[3] && all[2] != all[4] && all[2] != all[5];
    assert all[3] != all[4] && all[3] != all[5] && all[4] != all[5];
  }

  lemma StatementParses(a: Statement)
    requires a.IsFramed()
    ensures ParseStatement(a.Signer(), a.Purpose(), a.Message()) == Some(a.Unsigned())
  {
    PurposesDiffer();
    hide AuthLoginV1, AuthStepUpV1, AuthApprovalV1, AuthDelegationV1, AuthRevocationV1, AuthSuccessionV1;
    hide ParseLogin, ParseStepUp, ParseApproval, ParseDelegation, ParseRevocation, ParseSuccession;
    hide LoginProof.SigningBytes, StepUpProof.SigningBytes, Approval.SigningBytes, Delegation.SigningBytes,
         Revocation.SigningBytes, Succession.SigningBytes, DelegationFits, Fits;
    match a
    case Login(p) => LoginParses(p);
    case StepUp(p) => StepUpParses(p);
    case Approve(p) => ApprovalParses(p);
    case Delegate(p) => DelegationParses(p);
    case Revoke(p) => RevocationParses(p);
    case Succeed(p) => SuccessionParses(p);
  }

  /** A key, a purpose and the signed bytes determine the statement, whatever its kind: no two
      statements with different field values share them. */
  lemma SignedBytesDetermineTheStatement(a: Statement, b: Statement)
    requires a.IsFramed() && b.IsFramed()
    requires a.Signer() == b.Signer() && a.Purpose() == b.Purpose() && a.Message() == b.Message()
    ensures a.Unsigned() == b.Unsigned()
  {
    StatementParses(a);
    StatementParses(b);
  }

  /** For logins no length limit is needed: the audience is the only field of unbounded length. */
  lemma LoginBytesDetermineTheProof(p: LoginProof, q: LoginProof)
    requires p.publicKey == q.publicKey && p.SigningBytes() == q.SigningBytes()
    ensures p.(signature := []) == q.(signature := [])
  {
    var tailP, tailQ := LoginTail(p), LoginTail(q);
    assert Fits(tailP) && Fits(tailQ);
    ShortRemaindersFixTheField(p.audience, tailP, q.audience, tailQ);
    LoginParses(p.(audience := []));
    LoginParses(q.(audience := []));
    assert p.(audience := []).SigningBytes() == LenPrefixed([]) + tailP;
    hide ParseLogin, LenPrefixed, LoginTail;
  }

  function LoginTail(p: LoginProof): Bytes {
    Be(p.issuedAt, 8) + (Be(p.expiresAt, 8) + (LenPrefixed(p.nonce) +
    (LenPrefixed(CommitmentBytes(p.sessionCommitment)) + DigestTail(p.requestDigest))))
  }

  /** Nor for step-ups. */
  lemma StepUpBytesDetermineTheProof(p: StepUpProof, q: StepUpProof)
    requires p.publicKey == q.publicKey && p.SigningBytes() == q.SigningBytes()
    ensures p.(signature := []) == q.(signature := [])
  {
    var tailP, tailQ := StepUpTail(p), StepUpTail(q);
    assert Fits(tailP) && Fits(tailQ);
    ShortRemaindersFixTheField(p.audience, tailP, q.audience, tailQ);
    StepUpParses(p.(audience := []));
    StepUpParses(q.(audience := []));
    assert p.(audience := []).SigningBytes() == LenPrefixed([]) + tailP;
    hide ParseStepUp, LenPrefixed, StepUpTail;
  }

  function StepUpTail(p: StepUpProof): Bytes {
    Be(p.issuedAt, 8) + (Be(p.expiresAt, 8) + (LenPrefixed(p.nonce) + LenPrefixed(p.actionDigest)))
  }

  /** A request digest only extends the bytes of the same proof without one, so a proof made before
      the field existed keeps its bytes; and no bound proof shares its bytes with an unbound one. */
  lemma DigestExtendsTheUnboundBytes(p: LoginProof, q: LoginProof, digest: Bytes32)
    requires p.requestDigest.None?
    ensures p.(requestDigest := Some(digest)).SigningBytes() == p.SigningBytes() + LenPrefixed(digest)
    ensures q.requestDigest.Some? ==> q.SigningBytes() != p.SigningBytes()
  {
    var t4 := LenPrefixed(CommitmentBytes(p.sessionCommitment));
    var t3 := LenPrefixed(p.nonce) + t4;
    var t2 := Be(p.expiresAt, 8) + t3;
    var t1 := Be(p.issuedAt, 8) + t2;
    var d := LenPrefixed(digest);
    assert t4 + [] == t4;
    AppendAssoc(LenPrefixed(p.nonce), t4, d);
    AppendAssoc(Be(p.expiresAt, 8), t3, d);
    AppendAssoc(Be(p.issuedAt, 8), t2, d);
    AppendAssoc(LenPrefixed(p.audience), t1, d);
    if q.SigningBytes() == p.SigningBytes() {
      LoginBytesDetermineTheProof(p, q.(publicKey := p.publicKey));
    }
    hide ParseLogin, LenPrefixed, Be, CommitmentBytes;
  }

  /** Two different inputs with one digest. */
  ghost predicate Collision(H: Hash, x: Bytes, y: Bytes) {
    x != y && H(x) == H(y)
  }

  /** The nonce-key pre-image is injective, so two claims share a store key only if purpose, signer
      and nonce are all equal, or the hash collides on their two pre-images. Only the key's length is
      unbounded, so nothing is asked of it. */
  lemma NonceKeysDoNotInterfere(H: Hash, purpose: Bytes, key: Bytes, nonce: Bytes32,
                                purpose': Bytes, key': Bytes, nonce': Bytes32)
    requires Fits(purpose) && Fits(purpose')
    ensures NonceKeyPreimage(purpose, key, nonce) == NonceKeyPreimage(purpose', key', nonce')
         ==> purpose == purpose' && key == key' && nonce == nonce'
    ensures NonceKey(H, purpose, key, nonce) == NonceKey(H, purpose', key', nonce')
         ==> || (purpose == purpose' && key == key' && nonce == nonce')
             || Collision(H, NonceKeyPreimage(purpose, key, nonce), NonceKeyPreimage(purpose', key', nonce'))
  {
    if NonceKeyPreimage(purpose, key, nonce) == NonceKeyPreimage(purpose', key', nonce') {
      assert |LenPrefixed(nonce)| == |LenPrefixed(nonce')| == 36;
      hide LenPrefixed;
      var tail, tail' := LenPrefixed(key) + LenPrefixed(nonce), LenPrefixed(key') + LenPrefixed(nonce');
      FramedFieldsAgree(NonceKeyLabel(), LenPrefixed(purpose) + tail, NonceKeyLabel(), LenPrefixed(purpose') + tail');
      FramedFieldsAgree(purpose, tail, purpose', tail');
      ShortRemaindersFixTheField(key, LenPrefixed(nonce), key', LenPrefixed(nonce'));
      assert LenPrefixed(nonce) + [] == LenPrefixed(nonce') + [];
      FramedFieldsAgree(nonce, [], nonce', []);
    }
  }

  /** One id per distinct signed delegation: equal ids mean equal principals, terms and signatures,
      or a hash collision on the two pre-images. */
  lemma DelegationIdNamesOneDelegation(H: Hash, d: Delegation, e: Delegation)
    requires Fits(d.principalKey) && Fits(d.SigningBytes()) && Fits(d.signature)
    requires Fits(e.principalKey) && Fits(e.SigningBytes()) && Fits(e.signature)
    ensures d.IdPreimage() == e.IdPreimage() ==> d == e
    ensures d.Id(H) == e.Id(H) ==> d == e || Collision(H, d.IdPreimage(), e.IdPreimage())
  {
    if d.IdPreimage() == e.IdPreimage() {
      SignableIsFramed(Delegate(d));
      SignableIsFramed(Delegate(e));
      DelegationParses(d);
      DelegationParses(e);
      var m, n := d.SigningBytes(), e.SigningBytes();
      hide LenPrefixed, ParseDelegation, Delegation.SigningBytes;
      var dTail, eTail := LenPrefixed(m) + LenPrefixed(d.signature), LenPrefixed(n) + LenPrefixed(e.signature);
      FramedFieldsAgree(DelegationIdLabel(), LenPrefixed(d.principalKey) + dTail,
                        DelegationIdLabel(), LenPrefixed(e.principalKey) + eTail);
      FramedFieldsAgree(d.principalKey, dTail, e.principalKey, eTail);
      FramedFieldsAgree(m, LenPrefixed(d.signature), n, LenPrefixed(e.signature));
      assert LenPrefixed(d.signature) + [] == LenPrefixed(e.signature) + [];
      FramedFieldsAgree(d.signature, [], e.signature, []);
    }
  }
}
