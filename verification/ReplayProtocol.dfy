/** Any number of verifiers share one nonce store. Keys sign statements, the network presents whatever it
    likes, each check first runs its free checks against a captured clock and later claims its nonce, and
    the store forgets entries. */
module ReplayProtocol {
  import opened Words
  import opened Statements
  import opened NonceStore
  import opened Verifier

  /** A request a verifier accepted, and the store's clock when it did. */
  datatype Acceptance = Acceptance(request: Request, storeTime: u64)

  datatype State = State(
    signed: seq<Statement>,        // every statement any key has signed, signature field empty
    seen: map<Bytes32, u64>,       // the nonce store
    storeTime: u64,                // the store's clock
    inFlight: multiset<Request>,   // checks past their free part, not yet past their claim
    accepted: seq<Acceptance>)

  datatype ClaimOutcome =
    | Granted
    | AlreadySpent
    | StoreFailed(recorded: bool)  // the store did not answer; it may or may not have kept the entry

  datatype Step =
    | Sign(statement: Statement)
    | Start(request: Request)
    | ClaimStep(request: Request, outcome: ClaimOutcome)
    | Evict(dropped: set<Bytes32>)
    | Tick(storeTime: u64)

  /** Ideal signatures: one that verifies covers bytes its key has signed under that purpose. */
  ghost predicate NotForged(V: SigCheck, signed: seq<Statement>, presented: Statement) {
    V(presented.Signer(), presented.Purpose(), presented.Message(), presented.Signature()) == Verified ==>
      exists e :: e in signed && e.Signer() == presented.Signer() && e.Purpose() == presented.Purpose()
               && e.Message() == presented.Message()
  }

  ghost predicate Allowed(V: SigCheck, H: Hash, s: State, step: Step) {
    match step
    case Sign(a) => a.IsSignable() && a.Unsigned() == a
    case Start(r) =>
      && r.FreeChecks(V, H).Pass?
      && NotForged(V, s.signed, r.Presented())
      && (r.ApprovalRequest? ==> NotForged(V, s.signed, Delegate(r.delegation)))
    case ClaimStep(r, outcome) =>
      && r in s.inFlight
      && match outcome {
           case Granted => r.ToClaim().StoreKey(H) !in s.seen
           case AlreadySpent => r.ToClaim().StoreKey(H) in s.seen
           case StoreFailed(recorded) => recorded ==> r.ToClaim().StoreKey(H) !in s.seen
         }
    case Evict(dropped) => forall k :: k in dropped && k in s.seen ==> s.seen[k] <= s.storeTime
    case Tick(t) => s.storeTime <= t < U64_MAX
  }

  function Apply(H: Hash, s: State, step: Step): State {
    match step
    case Sign(a) => s.(signed := s.signed + [a])
    case Start(r) => s.(inFlight := s.inFlight + multiset{r})
    case ClaimStep(r, outcome) =>
      var rest := s.inFlight - multiset{r};
      var claimed := ClaimIn(H, s.seen, r.ToClaim()).1;
      (match outcome
       case Granted => s.(inFlight := rest, seen := claimed, accepted := s.accepted + [Acceptance(r, s.storeTime)])
       case AlreadySpent => s.(inFlight := rest)
       case StoreFailed(recorded) => s.(inFlight := rest, seen := if recorded then claimed else s.seen))
    case Evict(dropped) => s.(seen := s.seen - dropped)
    case Tick(t) => s.(storeTime := t)
  }

  /** The in-process store's eviction at any moment the store's clock has reached is such a step. */
  lemma EvictExpiredIsAStep(V: SigCheck, H: Hash, s: State, now: u64)
    requires now <= s.storeTime
    ensures var dropped := set k | k in s.seen && s.seen[k] <= now;
            Allowed(V, H, s, Evict(dropped)) && Apply(H, s, Evict(dropped)).seen == Unexpired(s.seen, now)
  {
  }

  ghost predicate Initial(s: State) {
    s.seen == map[] && s.inFlight == multiset{} && s.accepted == [] && s.signed == [] && s.storeTime < U64_MAX
  }

  ghost predicate IsRun(V: SigCheck, H: Hash, states: seq<State>, steps: seq<Step>) {
    && |states| == |steps| + 1
    && Initial(states[0])
    && forall i :: 0 <= i < |steps| ==> Allowed(V, H, states[i], steps[i]) && states[i + 1] == Apply(H, states[i], steps[i])
  }

  // ── The invariant ──────────────────────────────────────────────────────────

  /** The free checks passed, and the presented statement is one its signer signed, field for field. */
  ghost predicate Genuine(V: SigCheck, H: Hash, signed: seq<Statement>, r: Request) {
    && r.FreeChecks(V, H).Pass?
    && r.Presented().Unsigned() in signed
    && (r.ApprovalRequest? ==> Delegate(r.delegation).Unsigned() in signed)
  }

  /** The store still holds the accepted statement's own entry, or its retention is over. */
  predicate RememberedOrOver(H: Hash, s: State, r: Request) {
    var c := r.ToClaim();
    (c.StoreKey(H) in s.seen && s.seen[c.StoreKey(H)] == c.Retention()) || c.Retention() <= s.storeTime
  }

  /** The verifier's captured clock was not too far behind the store's when the nonce was claimed. */
  predicate Timely(a: Acceptance) {
    var c := a.request.ToClaim();
    WithinSkew(c.issuedAt, c.expiresAt, a.request.params.now, a.storeTime)
  }

  ghost predicate NoTimelyReplay(accepted: seq<Acceptance>) {
    forall i, j :: 0 <= i < j < |accepted| && Timely(accepted[j]) ==>
      !SameStatement(accepted[i].request, accepted[j].request)
  }

  /** Same kind, signer and field values; the signature bytes may differ. */
  predicate SameStatement(r1: Request, r2: Request) {
    r1.Presented().Unsigned() == r2.Presented().Unsigned()
  }

  /** A statement is accepted again only once its retention is over. */
  predicate RepeatsOnlyAfterRetention(accepted: seq<Acceptance>) {
    forall i, j :: (0 <= i < j < |accepted| && SameStatement(accepted[i].request, accepted[j].request)) ==>
      accepted[j].request.ToClaim().Retention() <= accepted[j].storeTime < U64_MAX
  }

  ghost predicate Inv(V: SigCheck, H: Hash, s: State) {
    && s.storeTime < U64_MAX
    && (forall e :: e in s.signed ==> e.IsSignable() && e.Unsigned() == e)
    && (forall r :: r in s.inFlight ==> Genuine(V, H, s.signed, r))
    && (forall a :: a in s.accepted ==> Genuine(V, H, s.signed, a.request) && RememberedOrOver(H, s, a.request))
    && RepeatsOnlyAfterRetention(s.accepted)
  }

  /** What the free checks established: the signature verifies under the statement's own purpose and
      bytes, and the captured clock is inside the window. */
  lemma FreeChecksMean(V: SigCheck, H: Hash, r: Request)
    requires r.FreeChecks(V, H).Pass?
    ensures var p := r.Presented();
            V(p.Signer(), p.Purpose(), p.Message(), p.Signature()) == Verified
    ensures var c := r.ToClaim();
            && c.purpose == r.Presented().Purpose() && c.key == r.Presented().Signer()
            && InWindow(c.issuedAt, c.expiresAt, r.params.maxAgeSecs, r.params.now)
    ensures r.ApprovalRequest? ==>
              var d := Delegate(r.delegation);
              && V(d.Signer(), d.Purpose(), d.Message(), d.Signature()) == Verified
              && r.approval.delegationId == r.delegation.Id(H) && r.approval.principalKey == r.delegation.principalKey
  {
    hide AuthLoginV1, AuthStepUpV1, AuthApprovalV1, AuthDelegationV1, LoginProof.SigningBytes, StepUpProof.SigningBytes,
         Approval.SigningBytes, Delegation.SigningBytes, CheckParties, Delegation.IdPreimage;
  }

  /** The claim a statement leads to is a function of its signed fields. */
  lemma SameStatementSameClaim(r1: Request, r2: Request)
    requires SameStatement(r1, r2)
    ensures r1.ToClaim() == r2.ToClaim()
  {
    match r1.Presented()
    case Login(p) => assert r2.Presented().Login?;
    case StepUp(p) => assert r2.Presented().StepUp?;
    case Approve(p) => assert r2.Presented().Approve?;
    case _ =>
  }

  lemma SignedFieldForField(V: SigCheck, signed: seq<Statement>, presented: Statement)
    requires forall e :: e in signed ==> e.IsSignable() && e.Unsigned() == e
    requires NotForged(V, signed, presented)
    requires V(presented.Signer(), presented.Purpose(), presented.Message(), presented.Signature()) == Verified
    ensures presented.Unsigned() in signed
  {
    var e :| e in signed && e.Signer() == presented.Signer() && e.Purpose() == presented.Purpose()
             && e.Message() == presented.Message();
    SignableIsFramed(e);
    SignableIsFramed(presented);
    SignedBytesDetermineTheStatement(e, presented);
  }

  lemma StartedIsGenuine(V: SigCheck, H: Hash, s: State, r: Request)
    requires Inv(V, H, s) && Allowed(V, H, s, Start(r))
    ensures Genuine(V, H, s.signed, r)
  {
    FreeChecksMean(V, H, r);
    hide Request.FreeChecks, Request.Presented, Request.ToClaim, RememberedOrOver, RepeatsOnlyAfterRetention, NotForged;
    SignedFieldForField(V, s.signed, r.Presented());
    if r.ApprovalRequest? {
      SignedFieldForField(V, s.signed, Delegate(r.delegation));
    }
  }

  /** Whatever forgets only entries whose time has come, and moves the clock only forward, keeps every
      accepted statement blocked or over. */
  lemma SameStoreSameMemory(H: Hash, s: State, s': State, r: Request)
    requires RememberedOrOver(H, s, r) && s.storeTime <= s'.storeTime
    requires forall k :: k in s.seen ==> (k in s'.seen && s'.seen[k] == s.seen[k]) || s.seen[k] <= s'.storeTime
    ensures RememberedOrOver(H, s', r)
  {
    hide Request.ToClaim, Claim.StoreKey, Claim.Retention;
  }

  /** A granted claim is of a statement not accepted before, or one whose retention is over: until then
      its own entry blocks its key. */
  lemma GrantIsNoEarlyRepeat(H: Hash, s: State, r: Request)
    requires RepeatsOnlyAfterRetention(s.accepted) && s.storeTime < U64_MAX
    requires forall a :: a in s.accepted ==> RememberedOrOver(H, s, a.request)
    requires r.ToClaim().StoreKey(H) !in s.seen
    ensures RepeatsOnlyAfterRetention(s.accepted + [Acceptance(r, s.storeTime)])
  {
    forall i | 0 <= i < |s.accepted| && SameStatement(s.accepted[i].request, r)
      ensures r.ToClaim().Retention() <= s.storeTime
    {
      assert s.accepted[i] in s.accepted;
      SameStatementSameClaim(s.accepted[i].request, r);
      hide Request.Presented, Request.ToClaim, Claim.StoreKey, Claim.Retention;
    }
    hide SameStatement, RememberedOrOver, Request.ToClaim, Claim.StoreKey, Claim.Retention;
  }

  lemma GrantKeepsInv(V: SigCheck, H: Hash, s: State, r: Request)
    requires Inv(V, H, s) && Allowed(V, H, s, ClaimStep(r, Granted))
    ensures Inv(V, H, Apply(H, s, ClaimStep(r, Granted)))
  {
    var s' := Apply(H, s, ClaimStep(r, Granted));
    var a := Acceptance(r, s.storeTime);
    hide Request.FreeChecks, Request.Presented, Request.ToClaim, Claim.StoreKey, Claim.Retention, Genuine, RepeatsOnlyAfterRetention;
    GrantIsNoEarlyRepeat(H, s, r);
    assert RememberedOrOver(H, s', r);
    forall b | b in s'.accepted
      ensures Genuine(V, H, s'.signed, b.request) && RememberedOrOver(H, s', b.request)
    {
      if b != a {
        assert b in s.accepted;
        SameStoreSameMemory(H, s, s', b.request);
      }
    }
  }

  /** Steps that sign nothing, accept nothing and start only what is genuine. */
  lemma QuietStepKeepsInv(V: SigCheck, H: Hash, s: State, s': State)
    requires Inv(V, H, s)
    requires s'.signed == s.signed && s'.accepted == s.accepted
    requires forall r :: r in s'.inFlight ==> r in s.inFlight || Genuine(V, H, s.signed, r)
    requires s.storeTime <= s'.storeTime < U64_MAX
    requires forall k :: k in s.seen ==> (k in s'.seen && s'.seen[k] == s.seen[k]) || s.seen[k] <= s'.storeTime
    ensures Inv(V, H, s')
  {
    hide Genuine, RememberedOrOver, RepeatsOnlyAfterRetention, Request.FreeChecks, Request.Presented, Request.ToClaim;
    forall a | a in s'.accepted
      ensures Genuine(V, H, s'.signed, a.request) && RememberedOrOver(H, s', a.request)
    {
      SameStoreSameMemory(H, s, s', a.request);
    }
  }

  lemma StartKeepsInv(V: SigCheck, H: Hash, s: State, r: Request)
    requires Inv(V, H, s) && Allowed(V, H, s, Start(r))
    ensures Inv(V, H, Apply(H, s, Start(r)))
  {
    StartedIsGenuine(V, H, s, r);
    assert s.storeTime < U64_MAX;
    hide Inv, Allowed, Genuine;
    QuietStepKeepsInv(V, H, s, Apply(H, s, Start(r)));
  }

  lemma SignKeepsInv(V: SigCheck, H: Hash, s: State, e: Statement)
    requires Inv(V, H, s) && Allowed(V, H, s, Sign(e))
    ensures Inv(V, H, Apply(H, s, Sign(e)))
  {
    var s' := Apply(H, s, Sign(e));
    hide RememberedOrOver, RepeatsOnlyAfterRetention, Request.FreeChecks, Request.Presented, Request.ToClaim, NotForged,
         Statement.IsSignable, Statement.Unsigned, Claim.StoreKey, ClaimIn;
    forall a | a in s'.accepted
      ensures RememberedOrOver(H, s', a.request)
    {
      SameStoreSameMemory(H, s, s', a.request);
    }
  }

  lemma StepKeepsInv(V: SigCheck, H: Hash, s: State, step: Step)
    requires Inv(V, H, s) && Allowed(V, H, s, step)
    ensures Inv(V, H, Apply(H, s, step))
  {
    hide NotForged, Statement.IsSignable, Statement.Unsigned, Request.FreeChecks, Request.Presented, Request.ToClaim, Claim.StoreKey, Claim.Retention;
    match step
    case Sign(e) =>
      SignKeepsInv(V, H, s, e);
    case Start(r) =>
      StartKeepsInv(V, H, s, r);
    case ClaimStep(r, outcome) =>
      if outcome.Granted? {
        GrantKeepsInv(V, H, s, r);
      } else {
        assert s.storeTime < U64_MAX;
        hide Inv;
        QuietStepKeepsInv(V, H, s, Apply(H, s, step));
      }
    case Evict(_) =>
      assert s.storeTime < U64_MAX;
      hide Inv;
      QuietStepKeepsInv(V, H, s, Apply(H, s, step));
    case Tick(_) =>
      hide Inv;
      QuietStepKeepsInv(V, H, s, Apply(H, s, step));
  }

  lemma StartHoldsInv(V: SigCheck, H: Hash, s: State)
    requires Initial(s)
    ensures Inv(V, H, s)
  {
    hide Genuine, RememberedOrOver;
  }

  lemma {:induction false} RunKeepsInv(V: SigCheck, H: Hash, states: seq<State>, steps: seq<Step>, n: nat)
    requires IsRun(V, H, states, steps) && n < |states|
    ensures Inv(V, H, states[n])
  {
    hide Inv, Allowed, Apply, Initial;
    if n == 0 {
      StartHoldsInv(V, H, states[0]);
    } else {
      RunKeepsInv(V, H, states, steps, n - 1);
      StepKeepsInv(V, H, states[n - 1], steps[n - 1]);
    }
  }

  // ── Main results ───────────────────────────────────────────────────────────

  /** Agreement and replay protection, in every state of every run. Each acceptance is of a statement the
      named key signed under that purpose with exactly the accepted field values (and an approval's
      delegation likewise); and no acceptance inside the skew repeats an earlier one. */
  lemma AcceptedStatementsWereSignedAndAreNotReplayed(V: SigCheck, H: Hash, states: seq<State>, steps: seq<Step>, n: nat)
    requires IsRun(V, H, states, steps) && n < |states|
    ensures var s := states[n];
            && (forall a :: a in s.accepted ==> Genuine(V, H, s.signed, a.request))
            && NoTimelyReplay(s.accepted)
  {
    RunKeepsInv(V, H, states, steps, n);
    RetentionEndsAfterTheWindow(V, H, states[n]);
    hide Genuine, RememberedOrOver, NoTimelyReplay, RepeatsOnlyAfterRetention;
  }

  lemma TimelyMeansRetained(V: SigCheck, H: Hash, signed: seq<Statement>, a: Acceptance)
    requires Genuine(V, H, signed, a.request) && Timely(a) && a.storeTime < U64_MAX
    ensures a.storeTime < a.request.ToClaim().Retention()
  {
    var c := a.request.ToClaim();
    FreeChecksMean(V, H, a.request);
    RetentionIsSharp(c.issuedAt, c.expiresAt, a.request.params.maxAgeSecs, a.request.params.now, a.storeTime);
    hide Request.FreeChecks, Request.Presented, Request.ToClaim, NonceRetention, InWindow, WithinSkew;
  }

  /** Nobody approves but the principal: in every run each accepted approval was signed, as an approval, by the very key
      that signed, as a delegation, the delegation it was accepted under; it names that delegation, and exactly the
      request that was asked about. */
  lemma AcceptedApprovalsAreThePrincipalsOwn(V: SigCheck, H: Hash, states: seq<State>, steps: seq<Step>, n: nat, a: Acceptance)
    requires IsRun(V, H, states, steps) && n < |states| && a in states[n].accepted && a.request.ApprovalRequest?
    ensures var (p, d) := (a.request.approval, a.request.delegation);
            && Approve(p).Unsigned() in states[n].signed && Delegate(d).Unsigned() in states[n].signed
            && Approve(p).Signer() == Delegate(d).Signer() == d.principalKey
            && d.principalKey in a.request.principals && d.principalKey !in a.request.revoked && d.delegateKey !in a.request.revoked
            && p.delegationId == d.Id(H)
            && p.requestDigest == a.request.requestDigest && p.action == a.request.action && p.amount == a.request.amount
  {
    hide IsRun, RememberedOrOver, RepeatsOnlyAfterRetention, Request.FreeChecks, Statement.Unsigned, Delegation.Id,
         Statement.IsSignable, Request.ToClaim;
    RunKeepsInv(V, H, states, steps, n);
    ApprovalChecksMean(V, H, a.request);
    assert Genuine(V, H, states[n].signed, a.request);
  }

  lemma ApprovalChecksMean(V: SigCheck, H: Hash, r: Request)
    requires r.ApprovalRequest? && r.FreeChecks(V, H).Pass?
    ensures var (p, d) := (r.approval, r.delegation);
            && p.principalKey == d.principalKey && p.delegationId == d.Id(H)
            && d.principalKey in r.principals && d.principalKey !in r.revoked && d.delegateKey !in r.revoked
            && p.requestDigest == r.requestDigest && p.action == r.action && p.amount == r.amount
  {
    hide VerifyDelegation, CheckEnvelope, CheckSignature, Delegation.Id;
  }

  /** Once a statement's retention is over, its window has closed for every verifier inside the skew. */
  lemma RetentionEndsAfterTheWindow(V: SigCheck, H: Hash, s: State)
    requires Inv(V, H, s)
    ensures NoTimelyReplay(s.accepted)
  {
    hide Request.Presented, Request.ToClaim, Claim.Retention, Genuine, RememberedOrOver, Timely, SameStatement;
    forall i, j | 0 <= i < j < |s.accepted| && Timely(s.accepted[j])
      ensures !SameStatement(s.accepted[i].request, s.accepted[j].request)
    {
      var a := s.accepted[j];
      assert a in s.accepted;
      if SameStatement(s.accepted[i].request, a.request) {
        TimelyMeansRetained(V, H, s.signed, a);
      }
    }
  }

  /** Injective agreement: if every acceptance was inside the skew, acceptances map one-to-one to signing
      events, each by the named key, under that purpose, with exactly the accepted field values. */
  lemma InjectiveAgreement(V: SigCheck, H: Hash, states: seq<State>, steps: seq<Step>, n: nat) returns (events: seq<nat>)
    requires IsRun(V, H, states, steps) && n < |states|
    requires forall a :: a in states[n].accepted ==> Timely(a)
    ensures |events| == |states[n].accepted|
    ensures forall i :: 0 <= i < |events| ==>
              events[i] < |states[n].signed| && states[n].signed[events[i]] == states[n].accepted[i].request.Presented().Unsigned()
    ensures forall i, j :: 0 <= i < j < |events| ==> events[i] != events[j]
  {
    AcceptedStatementsWereSignedAndAreNotReplayed(V, H, states, steps, n);
    hide *;
    events := SigningEvents(V, H, states[n]);
  }

  lemma SigningEvents(V: SigCheck, H: Hash, s: State) returns (events: seq<nat>)
    requires NoTimelyReplay(s.accepted) && forall a :: a in s.accepted ==> Timely(a) && Genuine(V, H, s.signed, a.request)
    ensures |events| == |s.accepted|
    ensures forall i :: 0 <= i < |events| ==>
              events[i] < |s.signed| && s.signed[events[i]] == s.accepted[i].request.Presented().Unsigned()
    ensures forall i, j :: 0 <= i < j < |events| ==> events[i] != events[j]
  {
    hide *;
    events := [];
    while |events| < |s.accepted|
      invariant |events| <= |s.accepted|
      invariant forall i :: 0 <= i < |events| ==>
                  events[i] < |s.signed| && s.signed[events[i]] == s.accepted[i].request.Presented().Unsigned()
    {
      var e := SigningEvent(V, H, s, |events|);
      events := events + [e];
    }
    DistinctStatements(s, events);
  }

  lemma SigningEvent(V: SigCheck, H: Hash, s: State, i: nat) returns (e: nat)
    requires i < |s.accepted| && forall a :: a in s.accepted ==> Genuine(V, H, s.signed, a.request)
    ensures e < |s.signed| && s.signed[e] == s.accepted[i].request.Presented().Unsigned()
  {
    var a := s.accepted[i];
    assert a in s.accepted && Genuine(V, H, s.signed, a.request);
    hide Request.FreeChecks, Request.Presented, Statement.Unsigned;
    e :| 0 <= e < |s.signed| && s.signed[e] == a.request.Presented().Unsigned();
  }

  lemma DistinctStatements(s: State, events: seq<nat>)
    requires NoTimelyReplay(s.accepted) && (forall a :: a in s.accepted ==> Timely(a)) && |events| == |s.accepted|
    requires forall i :: 0 <= i < |events| ==>
               events[i] < |s.signed| && s.signed[events[i]] == s.accepted[i].request.Presented().Unsigned()
    ensures forall i, j :: 0 <= i < j < |events| ==> events[i] != events[j]
  {
    hide Timely, Request.Presented, Statement.Unsigned;
    forall i, j | 0 <= i < j < |events|
      ensures events[i] != events[j]
    {
      assert s.accepted[j] in s.accepted;
      assert !SameStatement(s.accepted[i].request, s.accepted[j].request);
    }
  }

  /** Two accepted approvals of one approver's statement are under one delegation, or the hash collides. */
  lemma ApprovalNamesOneDelegation(V: SigCheck, H: Hash, r1: Request, r2: Request)
    requires r1.ApprovalRequest? && r2.ApprovalRequest?
    requires r1.FreeChecks(V, H).Pass? && r2.FreeChecks(V, H).Pass?
    requires SameStatement(r1, r2)
    requires forall r :: r in [r1, r2] ==> var d := r.delegation;
               Fits(d.principalKey) && Fits(d.SigningBytes()) && Fits(d.signature)
    ensures && r1.requestDigest == r2.requestDigest && r1.action == r2.action && r1.amount == r2.amount
            && (r1.delegation == r2.delegation || Collision(H, r1.delegation.IdPreimage(), r2.delegation.IdPreimage()))
  {
    assert r1 in [r1, r2] && r2 in [r1, r2];
    hide VerifyDelegation, CheckEnvelope, CheckSignature, CheckParties;
    DelegationIdNamesOneDelegation(H, r1.delegation, r2.delegation);
  }

  // ── The bound is exact ─────────────────────────────────────────────────────

  /** The verifier's captured clock and the store's agree to within the documented skew. */
  predicate ClocksAgree(a: Acceptance) {
    a.request.params.now <= a.storeTime <= a.request.params.now + NONCE_SKEW_SECS
  }

  /** Some run accepts the request at `storeTime` after having accepted the same statement before, with the clocks in
      agreement at every acceptance until then. */
  ghost predicate ReplayPossible(V: SigCheck, H: Hash, r: Request, storeTime: u64) {
    exists states, steps :: IsRun(V, H, states, steps) && EndsInReplay(states[|states| - 1], r, storeTime)
  }

  ghost predicate EndsInReplay(s: State, r: Request, storeTime: u64) {
    && |s.accepted| > 1
    && s.accepted[|s.accepted| - 1] == Acceptance(r, storeTime)
    && (exists i :: 0 <= i < |s.accepted| - 1 && SameStatement(s.accepted[i].request, r))
    && (forall i :: 0 <= i < |s.accepted| - 1 ==> ClocksAgree(s.accepted[i]))
  }

  /** The replay, from a store whose clock reads what the verifier's does: sign, start two checks, claim, wait, let
      the store forget, claim again. */
  function ReplayStep(H: Hash, r: Request, storeTime: u64, i: nat): Step {
    if i == 0 then Sign(r.Presented().Unsigned())
    else if i == 1 then Sign(AlsoSigned(r))
    else if i == 2 || i == 3 then Start(r)
    else if i == 4 then ClaimStep(r, Granted)
    else if i == 5 then Tick(storeTime)
    else if i == 6 then Evict({r.ToClaim().StoreKey(H)})
    else ClaimStep(r, Granted)
  }

  function AlsoSigned(r: Request): Statement {
    if r.ApprovalRequest? then Delegate(r.delegation).Unsigned() else r.Presented().Unsigned()
  }

  function ReplayState(H: Hash, r: Request, storeTime: u64, i: nat): State {
    var log := [r.Presented().Unsigned(), AlsoSigned(r)];
    var entry := map[r.ToClaim().StoreKey(H) := r.ToClaim().Retention()];
    var start := r.params.now;
    var first := Acceptance(r, start);
    if i == 0 then State([], map[], start, multiset{}, [])
    else if i == 1 then State(log[..1], map[], start, multiset{}, [])
    else if i == 2 then State(log, map[], start, multiset{}, [])
    else if i == 3 then State(log, map[], start, multiset{r}, [])
    else if i == 4 then State(log, map[], start, multiset{r, r}, [])
    else if i == 5 then State(log, entry, start, multiset{r}, [first])
    else if i == 6 then State(log, entry, storeTime, multiset{r}, [first])
    else if i == 7 then State(log, map[], storeTime, multiset{r}, [first])
    else State(log, entry, storeTime, multiset{}, [first, Acceptance(r, storeTime)])
  }

  lemma ReplaySigns(V: SigCheck, H: Hash, r: Request, storeTime: u64, i: nat)
    requires r.Presented().IsSignable() && (r.ApprovalRequest? ==> Delegate(r.delegation).IsSignable()) && i < 2
    ensures var s, step := ReplayState(H, r, storeTime, i), ReplayStep(H, r, storeTime, i);
            Allowed(V, H, s, step) && ReplayState(H, r, storeTime, i + 1) == Apply(H, s, step)
  {
    hide Request.FreeChecks, Request.Presented, Request.ToClaim, Claim.StoreKey, Claim.Retention, ClaimIn, NotForged,
         Statement.Unsigned, Statement.IsSignable;
    var log := [r.Presented().Unsigned(), AlsoSigned(r)];
    assert [] + [log[0]] == log[..1] && log[..1] + [log[1]] == log;
    UnsignedSaysTheSame(r.Presented());
    if r.ApprovalRequest? {
      UnsignedSaysTheSame(Delegate(r.delegation));
    }
  }

  lemma ReplayStarts(V: SigCheck, H: Hash, r: Request, storeTime: u64, i: nat)
    requires r.FreeChecks(V, H).Pass? && r.Presented().IsSignable() && 2 <= i < 4
    requires r.ApprovalRequest? ==> Delegate(r.delegation).IsSignable()
    ensures var s, step := ReplayState(H, r, storeTime, i), ReplayStep(H, r, storeTime, i);
            Allowed(V, H, s, step) && ReplayState(H, r, storeTime, i + 1) == Apply(H, s, step)
  {
    hide Request.FreeChecks, Request.Presented, Request.ToClaim, Claim.StoreKey, Claim.Retention, ClaimIn, NotForged,
         Statement.Unsigned, Statement.IsSignable;
    var log := [r.Presented().Unsigned(), AlsoSigned(r)];
    assert log[0] in log && log[1] in log;
    SignedIsNotForged(V, log, r.Presented());
    if r.ApprovalRequest? {
      SignedIsNotForged(V, log, Delegate(r.delegation));
    }
  }

  lemma SignedIsNotForged(V: SigCheck, signed: seq<Statement>, a: Statement)
    requires a.Unsigned() in signed
    ensures NotForged(V, signed, a)
  {
    UnsignedSaysTheSame(a);
    var e := a.Unsigned();
    hide Statement.Unsigned, Statement.Signer, Statement.Purpose, Statement.Message, Statement.Signature;
    assert e in signed;
  }

  lemma ReplayForgets(V: SigCheck, H: Hash, r: Request, storeTime: u64, i: nat)
    requires 5 <= i < 7 && r.ToClaim().Retention() <= storeTime < U64_MAX && r.params.now <= storeTime
    ensures var s, step := ReplayState(H, r, storeTime, i), ReplayStep(H, r, storeTime, i);
            Allowed(V, H, s, step) && ReplayState(H, r, storeTime, i + 1) == Apply(H, s, step)
  {
    hide Request.FreeChecks, Request.Presented, Request.ToClaim, Claim.StoreKey, Claim.Retention, ClaimIn, NotForged,
         Statement.Unsigned, Statement.IsSignable, AlsoSigned;
    var k := r.ToClaim().StoreKey(H);
    assert map[k := r.ToClaim().Retention()] - {k} == map[];
  }

  lemma ReplayClaims(V: SigCheck, H: Hash, r: Request, storeTime: u64, i: nat)
    requires i == 4 || i == 7
    ensures var s, step := ReplayState(H, r, storeTime, i), ReplayStep(H, r, storeTime, i);
            Allowed(V, H, s, step) && ReplayState(H, r, storeTime, i + 1) == Apply(H, s, step)
  {
    hide Request.FreeChecks, Request.Presented, Request.ToClaim, Claim.StoreKey, Claim.Retention, NotForged,
         Statement.Unsigned, Statement.IsSignable, AlsoSigned;
    assert multiset{r, r} - multiset{r} == multiset{r} && multiset{r} - multiset{r} == multiset{};
    assert [] + [Acceptance(r, r.params.now)] == [Acceptance(r, r.params.now)];
    assert [Acceptance(r, r.params.now)] + [Acceptance(r, storeTime)] == [Acceptance(r, r.params.now), Acceptance(r, storeTime)];
  }

  lemma RetentionCoversTheWindow(V: SigCheck, H: Hash, r: Request)
    requires r.FreeChecks(V, H).Pass?
    ensures r.params.now <= r.ToClaim().Retention()
    ensures r.params.now + NONCE_SKEW_SECS < U64_MAX ==>
              (r.ToClaim().Retention() <= r.params.now + NONCE_SKEW_SECS <==> r.params.now == r.ToClaim().issuedAt + MAX_AGE_CEILING_SECS)
    ensures r.params.now + NONCE_SKEW_SECS >= U64_MAX ==> r.ToClaim().Retention() == U64_MAX
  {
    FreeChecksMean(V, H, r);
    hide Request.FreeChecks, Request.Presented, Request.ToClaim;
  }

  function ReplayStates(H: Hash, r: Request, storeTime: u64): seq<State> {
    seq(9, i requires 0 <= i < 9 => ReplayState(H, r, storeTime, i))
  }

  function ReplaySteps(H: Hash, r: Request, storeTime: u64): seq<Step> {
    seq(8, i requires 0 <= i < 8 => ReplayStep(H, r, storeTime, i))
  }

  lemma ReplayIsARun(V: SigCheck, H: Hash, r: Request, storeTime: u64)
    requires r.FreeChecks(V, H).Pass? && r.Presented().IsSignable()
    requires r.ApprovalRequest? ==> Delegate(r.delegation).IsSignable()
    requires r.ToClaim().Retention() <= storeTime < U64_MAX && r.params.now <= storeTime
    ensures IsRun(V, H, ReplayStates(H, r, storeTime), ReplaySteps(H, r, storeTime))
  {
    var states, steps := ReplayStates(H, r, storeTime), ReplaySteps(H, r, storeTime);
    assert Initial(states[0]);
    hide Request.FreeChecks, Request.Presented, Request.ToClaim, Claim.StoreKey, Claim.Retention, Allowed, Apply, Initial,
         ReplayState, ReplayStep;
    forall i | 0 <= i < |steps|
      ensures Allowed(V, H, states[i], steps[i]) && states[i + 1] == Apply(H, states[i], steps[i])
    {
      hide IsRun;
      if i < 2 {
        ReplaySigns(V, H, r, storeTime, i);
      } else if i < 4 {
        ReplayStarts(V, H, r, storeTime, i);
      } else if i == 4 || i == 7 {
        ReplayClaims(V, H, r, storeTime, i);
      } else {
        ReplayForgets(V, H, r, storeTime, i);
      }
    }
  }

  /** A run that accepts the request, waits, lets the store forget, and accepts it again. */
  lemma ForgettingAllowsReplay(V: SigCheck, H: Hash, r: Request, storeTime: u64)
    requires r.FreeChecks(V, H).Pass? && r.Presented().IsSignable()
    requires r.ApprovalRequest? ==> Delegate(r.delegation).IsSignable()
    requires r.ToClaim().Retention() <= storeTime < U64_MAX
    ensures ReplayPossible(V, H, r, storeTime)
  {
    RetentionCoversTheWindow(V, H, r);
    hide Request.FreeChecks, Request.Presented, Request.ToClaim, Claim.StoreKey, Claim.Retention, IsRun;
    ReplayIsARun(V, H, r, storeTime);
    ReplayEnds(H, r, storeTime);
    hide ReplayState, ReplaySteps, EndsInReplay;
    var states := ReplayStates(H, r, storeTime);
    assert states[8] == states[|states| - 1] == ReplayState(H, r, storeTime, 8);
  }

  lemma ReplayEnds(H: Hash, r: Request, storeTime: u64)
    ensures EndsInReplay(ReplayState(H, r, storeTime, 8), r, storeTime)
  {
    hide Request.Presented, Request.ToClaim, Claim.StoreKey, Claim.Retention, Statement.Unsigned;
    var accepted := ReplayState(H, r, storeTime, 8).accepted;
    assert accepted == [Acceptance(r, r.params.now), Acceptance(r, storeTime)];
    assert SameStatement(accepted[0].request, r);
  }

  lemma UnsignedSaysTheSame(a: Statement)
    ensures a.Unsigned().Unsigned() == a.Unsigned() && (a.IsSignable() <==> a.Unsigned().IsSignable())
    ensures a.Unsigned().Signer() == a.Signer() && a.Unsigned().Purpose() == a.Purpose() && a.Unsigned().Message() == a.Message()
  {
    SignatureIsNotSigned(a);
    hide Statement.Message;
  }

  /** A statement can be replayed at a given store time, with the clocks in agreement until then, if and only if its
      retention is over by that time. */
  lemma ReplayIffRetentionIsOver(V: SigCheck, H: Hash, r: Request, storeTime: u64)
    requires r.FreeChecks(V, H).Pass? && r.Presented().IsSignable() && storeTime < U64_MAX
    requires r.ApprovalRequest? ==> Delegate(r.delegation).IsSignable()
    ensures ReplayPossible(V, H, r, storeTime) <==> r.ToClaim().Retention() <= storeTime
  {
    if r.ToClaim().Retention() <= storeTime {
      ForgettingAllowsReplay(V, H, r, storeTime);
    }
    hide Request.FreeChecks, Request.Presented, Request.ToClaim, Claim.Retention, Inv, EndsInReplay, Allowed, Apply;
    if ReplayPossible(V, H, r, storeTime) {
      var states, steps :| IsRun(V, H, states, steps) && EndsInReplay(states[|states| - 1], r, storeTime);
      RunKeepsInv(V, H, states, steps, |steps|);
      ReplayComesAfterRetention(V, H, states[|steps|], r, storeTime);
    }
  }

  lemma ReplayComesAfterRetention(V: SigCheck, H: Hash, s: State, r: Request, storeTime: u64)
    requires Inv(V, H, s) && EndsInReplay(s, r, storeTime)
    ensures r.ToClaim().Retention() <= storeTime
  {
    hide Request.FreeChecks, Request.Presented, Request.ToClaim, Claim.Retention, Genuine, RememberedOrOver, SameStatement, ClocksAgree;
  }

  /** Some run replays the request with the clocks in agreement at every acceptance, the last one included. */
  ghost predicate ReplayWithinTheSkew(V: SigCheck, H: Hash, r: Request) {
    exists storeTime: u64 ::
      r.params.now <= storeTime <= r.params.now + NONCE_SKEW_SECS && storeTime < U64_MAX && ReplayPossible(V, H, r, storeTime)
  }

  /** The documented skew is one second too generous. With clocks that never disagree by more than `NONCE_SKEW_SECS`,
      a request is replayed if and only if its verifier's clock reads the last second the age ceiling allows (and the
      store's clock has room left to advance by the skew). */
  lemma TheSkewReplaysExactlyAtTheCeiling(V: SigCheck, H: Hash, r: Request)
    requires r.FreeChecks(V, H).Pass? && r.Presented().IsSignable()
    requires r.ApprovalRequest? ==> Delegate(r.delegation).IsSignable()
    ensures ReplayWithinTheSkew(V, H, r) <==>
              (r.params.now == r.ToClaim().issuedAt + MAX_AGE_CEILING_SECS && r.params.now + NONCE_SKEW_SECS < U64_MAX)
  {
    RetentionCoversTheWindow(V, H, r);
    hide Request.FreeChecks, Request.Presented, Request.ToClaim, Claim.Retention, ReplayPossible;
    if r.params.now == r.ToClaim().issuedAt + MAX_AGE_CEILING_SECS && r.params.now + NONCE_SKEW_SECS < U64_MAX {
      ReplayIffRetentionIsOver(V, H, r, r.params.now + NONCE_SKEW_SECS);
    }
    if ReplayWithinTheSkew(V, H, r) {
      var t: u64 :| r.params.now <= t <= r.params.now + NONCE_SKEW_SECS && t < U64_MAX && ReplayPossible(V, H, r, t);
      ReplayIffRetentionIsOver(V, H, r, t);
    }
  }
}
