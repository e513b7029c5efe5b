/** Runs of a wallet: the accounting against what was authorised and what was signed, and what one human
    approval can unlock. */
module WalletRuns {
  import opened Wrappers
  import opened Words
  import opened Statements
  import opened Verifier
  import opened SpendPolicy
  import opened PolicyRuns
  import opened Eip712
  import opened Wallet

  /** A failed call changes no accounting and no receipt, and the signer hears of a call exactly when policy and
      human approval let it pass; a passed spend is recorded only on success. */
  lemma WhatACallChanges(env: Env, policy: Policy, s: WalletState, call: Call)
    ensures var (r, after) := AuthorizeStep(env, policy, s, call);
            && (r.Err? ==> after.window == s.window && after.lastReceipt == s.lastReceipt)
            && (r.Ok? ==>
                  && Check(policy, s.window, call.chain.OnRail(), call.value, call.now).Ok?
                  && after.window == s.window.Recorded(call.value, call.now)
                  && after.lastReceipt == Some(Receipt(r.value.digest, call.value, call.to, call.now, call.chain.ChainId())))
            && after.asked == s.asked + (if Gate(env, policy, s.window, call).Pass? then [call.Digest(env, policy)] else [])
            && (r.Err? && (r.error.PolicyDenied? || r.error.HitlRequired?) ==> after == s)
  {
    hide Authorization.Digest, SpendPolicy.Check, Window.Recorded, HitlApproval.Verify, VaultSpendIntentV1;
  }

  /** What a success hands out: the transfer that was asked for, from the address the signer answered and valid for the policy's
      time to live; the signer's answer to exactly its digest; and a record that says the same field by field, signed
      by the wallet. */
  lemma WhatASuccessReturns(env: Env, policy: Policy, s: WalletState, call: Call)
    requires AuthorizeStep(env, policy, s, call).0.Ok?
    ensures var r := AuthorizeStep(env, policy, s, call).0.value;
            var a, i := r.authorization, r.intent;
            && a.from == call.from && a.to == call.to && a.value == call.value && a.nonce == call.nonce
            && a.validAfter == call.now && a.validBefore == SatAdd64(call.now, policy.ttlSecs)
            && r.chain == call.chain && r.digest == a.Digest(env.K, r.chain)
            && AuthorizeStep(env, policy, s, call).1.asked == s.asked + [r.digest]
            && env.respond(|s.asked|, r.digest) == Some(r.externalSignature)
            && (i.chainId, i.from, i.to, i.value, i.digest) == (r.chain.ChainId(), a.from, a.to, a.value, r.digest)
            && (i.validAfter, i.validBefore, i.nonce) == (a.validAfter, a.validBefore, a.nonce)
            && env.serialize(i).Some? && env.sign(VaultSpendIntentV1(), env.serialize(i).value) == Some(r.intentSignature)
  {
    hide Authorization.Digest, SpendPolicy.Check, Window.Recorded, HitlApproval.Verify, VaultSpendIntentV1;
  }

  /** The human approval a large call needs: presented, unexpired, for exactly this digest and amount, verified under
      the configured key. */
  predicate RightlyApproved(env: Env, policy: Policy, call: Call) {
    && call.hitl.Some?
    && var a := call.hitl.value;
       && call.now < a.expiryUnix && a.intentHash == call.Digest(env, policy) && a.amount == call.value
       && policy.hitlApproverPk == Some(a.approverPk)
       && env.V(a.approverPk, VaultHitlApprovalV1(), HitlApprovalMessage(a.intentHash, a.amount, a.expiryUnix), a.signature) == Verified
  }

  /** Exactly when policy and human approval let a call pass. */
  lemma GatePassesExactlyWhen(env: Env, policy: Policy, w: Window, call: Call)
    ensures Gate(env, policy, w, call).Pass? <==>
              (&& call.chain.OnRail() in policy.allowRails && call.value <= policy.maxPerCall
               && (SpentBy(w, call.now) + call.value <= policy.dailyCap || policy.dailyCap == U128_MAX)
               && (call.value > policy.hitlAbove ==> RightlyApproved(env, policy, call)))
  {
    CheckDecision(policy, w, call.chain.OnRail(), call.value, call.now);
    if call.hitl.Some? {
      ApprovalVerifiesExactlyWhen(env.V, call.hitl.value, call.Digest(env, policy), call.value, policy.hitlApproverPk, call.now);
    }
    hide Check, HitlApproval.Verify, Call.Digest, VaultHitlApprovalV1, HitlApprovalMessage, SpentBy;
  }

  /** Exactly when a call is authorised. A right approval does let a large call through, and a small one needs none. */
  lemma AuthorisedExactlyWhen(env: Env, policy: Policy, s: WalletState, call: Call)
    ensures AuthorizeStep(env, policy, s, call).0.Ok? <==>
              (&& call.chain.OnRail() in policy.allowRails && call.value <= policy.maxPerCall
               && (SpentBy(s.window, call.now) + call.value <= policy.dailyCap || policy.dailyCap == U128_MAX)
               && (call.value > policy.hitlAbove ==> RightlyApproved(env, policy, call))
               && env.respond(|s.asked|, call.Digest(env, policy)).Some?
               && env.serialize(call.ToIntent(env, policy)).Some?
               && env.sign(VaultSpendIntentV1(), env.serialize(call.ToIntent(env, policy)).value).Some?)
  {
    GatePassesExactlyWhen(env, policy, s.window, call);
    hide Gate, RightlyApproved, Call.Digest, Call.ToIntent, Call.ToAuthorization, VaultSpendIntentV1, SpentBy, Window.Recorded;
  }

  /** The error of every call that is not. */
  lemma RefusalsOfTheWallet(env: Env, policy: Policy, s: WalletState, call: Call)
    ensures var violation := Check(policy, s.window, call.chain.OnRail(), call.value, call.now);
            var digest, intent := call.Digest(env, policy), call.ToIntent(env, policy);
            var undecodable := call.hitl.Some? && call.hitl.value.Verify(env.V, digest, call.value, policy.hitlApproverPk, call.now).Err?;
            var refusal :=
              if violation.Err? then Fail(PolicyDenied(violation.error)) else
              Refuse(call.value > policy.hitlAbove && undecodable, IdentityError,
              Refuse(call.value > policy.hitlAbove && !RightlyApproved(env, policy, call), HitlRequired,
              Refuse(env.respond(|s.asked|, digest).None?, SignerFailure,
              Refuse(env.serialize(intent).None?, SerializationError,
              Refuse(env.serialize(intent).Some? && env.sign(VaultSpendIntentV1(), env.serialize(intent).value).None?, IdentityError, Pass)))));
            var r := AuthorizeStep(env, policy, s, call).0;
            (r.Err? <==> refusal.Fail?) && (r.Err? ==> r.error == refusal.error)
  {
    CheckDecision(policy, s.window, call.chain.OnRail(), call.value, call.now);
    if call.hitl.Some? {
      ApprovalVerifiesExactlyWhen(env.V, call.hitl.value, call.Digest(env, policy), call.value, policy.hitlApproverPk, call.now);
    }
    hide Check, HitlApproval.Verify, Authorization.Digest, VaultHitlApprovalV1, VaultSpendIntentV1, HitlApprovalMessage, SpentBy,
         Call.ToIntent, Window.Recorded;
  }

  // ── Runs ───────────────────────────────────────────────────────────────────

  function After(env: Env, policy: Policy, s: WalletState, calls: seq<Call>): WalletState {
    if calls == [] then s else
    AuthorizeStep(env, policy, After(env, policy, s, calls[..|calls| - 1]), calls[|calls| - 1]).1
  }

  /** The spends of the calls that returned an authorization. */
  function Authorized(env: Env, policy: Policy, s: WalletState, calls: seq<Call>): seq<Spend> {
    if calls == [] then [] else
    var init, last := calls[..|calls| - 1], calls[|calls| - 1];
    var before := Authorized(env, policy, s, init);
    if AuthorizeStep(env, policy, After(env, policy, s, init), last).0.Ok? then before + [last.ToSpend()] else before
  }

  /** The authorizations returned in a run. */
  function Returned(env: Env, policy: Policy, s: WalletState, calls: seq<Call>): seq<SettlementAuthorization> {
    if calls == [] then [] else
    var init, last := calls[..|calls| - 1], calls[|calls| - 1];
    var before := Returned(env, policy, s, init);
    var r := AuthorizeStep(env, policy, After(env, policy, s, init), last).0;
    if r.Ok? then before + [r.value] else before
  }

  /** An authorization pays what the spend says, when it says, on its rail, with the digest of its own fields and an
      intent that repeats them. */
  predicate Pays(env: Env, policy: Policy, a: SettlementAuthorization, spend: Spend) {
    && a.authorization.value == spend.amount && a.chain.OnRail() == spend.rail
    && a.authorization.validAfter == spend.now && a.authorization.validBefore == SatAdd64(spend.now, policy.ttlSecs)
    && a.digest == a.authorization.Digest(env.K, a.chain)
    && a.intent == SpendIntent(a.chain.ChainId(), a.authorization.from, a.authorization.to, a.authorization.value,
                               a.authorization.validAfter, a.authorization.validBefore, a.authorization.nonce, a.digest)
  }

  /** The spends a run accounts for are, one for one and in order, the authorizations it handed out; and for each of
      those the signer was asked. So what bounds the spends bounds what was handed out. */
  lemma {:induction false} AccountedSpendsAreTheReturned(env: Env, policy: Policy, s: WalletState, calls: seq<Call>)
    ensures var returned, spends := Returned(env, policy, s, calls), Authorized(env, policy, s, calls);
            && |returned| == |spends|
            && (forall i :: 0 <= i < |returned| ==> Pays(env, policy, returned[i], spends[i]))
            && (forall i :: 0 <= i < |returned| ==> returned[i].digest in After(env, policy, s, calls).asked)
  {
    if calls != [] {
      var init, last := calls[..|calls| - 1], calls[|calls| - 1];
      var before := After(env, policy, s, init);
      AccountedSpendsAreTheReturned(env, policy, s, init);
      WhatACallChanges(env, policy, before, last);
      hide AuthorizeStep, Gate, Authorization.Digest, SpendPolicy.Check, Window.Recorded, VaultSpendIntentV1;
      if AuthorizeStep(env, policy, before, last).0.Ok? {
        WhatASuccessReturns(env, policy, before, last);
        assert Pays(env, policy, AuthorizeStep(env, policy, before, last).0.value, last.ToSpend());
      }
      hide Pays;
    }
  }

  /** Whether the external signer produced a signature for a call. */
  predicate Signs(env: Env, policy: Policy, s: WalletState, call: Call) {
    Gate(env, policy, s.window, call).Pass? && env.respond(|s.asked|, call.Digest(env, policy)).Some?
  }

  /** The spends the external signer signed, authorised or not. */
  function Signed(env: Env, policy: Policy, s: WalletState, calls: seq<Call>): seq<Spend> {
    if calls == [] then [] else
    var init, last := calls[..|calls| - 1], calls[|calls| - 1];
    var before := Signed(env, policy, s, init);
    if Signs(env, policy, After(env, policy, s, init), last) then before + [last.ToSpend()] else before
  }

  lemma {:induction false} AuthorizedSpendsPass(env: Env, policy: Policy, s: WalletState, calls: seq<Call>)
    ensures AllPass(policy, s.window, Authorized(env, policy, s, calls))
    ensures After(env, policy, s, calls).window == WindowAfter(s.window, Authorized(env, policy, s, calls))
  {
    if calls == [] {
    } else {
      var init, last := calls[..|calls| - 1], calls[|calls| - 1];
      hide AuthorizeStep, AllPass, WindowAfter, SpendPolicy.Check, Window.Recorded;
      AuthorizedSpendsPass(env, policy, s, init);
      WhatACallChanges(env, policy, After(env, policy, s, init), last);
      Append(policy, s.window, Authorized(env, policy, s, init), last.ToSpend(), 0, 0);
    }
  }

  /** In every run of a new wallet, whatever the clock does and however calls fail: what is recorded is exactly
      the sum of the authorizations returned since the current window began, and stays within the cap. */
  lemma SpentIsWhatWasAuthorized(env: Env, policy: Policy, calls: seq<Call>)
    requires policy.dailyCap < U128_MAX
    ensures var s := WalletState(Window(0, 0), None, []);
            var spends := Authorized(env, policy, s, calls);
            var spent := After(env, policy, s, calls).window.spent;
            spent == Total(spends[WindowBegan(s.window, spends)..]) && spent <= policy.dailyCap
  {
    var s := WalletState(Window(0, 0), None, []);
    AuthorizedSpendsPass(env, policy, s, calls);
    SpentIsTheWindowsTotal(policy, s.window, Authorized(env, policy, s, calls));
    hide *;
  }

  /** If the calls' clock never steps back, at most n + 1 caps are authorised in any n whole days. */
  lemma AuthorizedInAnyInterval(env: Env, policy: Policy, calls: seq<Call>, from: int, n: nat)
    requires policy.dailyCap < U128_MAX
    requires forall i, j :: 0 <= i < j < |calls| ==> calls[i].now <= calls[j].now
    ensures TotalIn(Authorized(env, policy, WalletState(Window(0, 0), None, []), calls), from, from + n * DAY_SECONDS)
         <= (n + 1) * policy.dailyCap
  {
    var s := WalletState(Window(0, 0), None, []);
    AuthorizedSpendsPass(env, policy, s, calls);
    AuthorizedInOrder(env, policy, s, calls);
    IntervalBound(policy, s.window, Authorized(env, policy, s, calls), from, n);
    hide *;
  }

  lemma {:induction false} AuthorizedBy(env: Env, policy: Policy, s: WalletState, calls: seq<Call>, latest: u64)
    requires forall i :: 0 <= i < |calls| ==> calls[i].now <= latest
    ensures forall i :: 0 <= i < |Authorized(env, policy, s, calls)| ==> Authorized(env, policy, s, calls)[i].now <= latest
  {
    hide AuthorizeStep, After;
    if calls != [] {
      AuthorizedBy(env, policy, s, calls[..|calls| - 1], latest);
    }
  }

  lemma {:induction false} AuthorizedInOrder(env: Env, policy: Policy, s: WalletState, calls: seq<Call>)
    requires forall i, j :: 0 <= i < j < |calls| ==> calls[i].now <= calls[j].now
    ensures ClockAdvances(Window(0, 0), Authorized(env, policy, s, calls))
  {
    hide AuthorizeStep, After;
    if calls != [] {
      AuthorizedInOrder(env, policy, s, calls[..|calls| - 1]);
      AuthorizedBy(env, policy, s, calls[..|calls| - 1], calls[|calls| - 1].now);
    }
  }

  // ── Signed but not recorded ────────────────────────────────────────────────

  /** The external signer has signed, and then the wallet's own record of it fails. */
  predicate RecordFails(env: Env, policy: Policy, s: WalletState, call: Call) {
    Signs(env, policy, s, call)
    && var bytes := env.serialize(call.ToIntent(env, policy));
       bytes.None? || env.sign(VaultSpendIntentV1(), bytes.value).None?
  }

  lemma SignedIsAuthorizedUnlessTheRecordFails(env: Env, policy: Policy, s: WalletState, call: Call)
    ensures Signs(env, policy, s, call) <==>
              (AuthorizeStep(env, policy, s, call).0.Ok? || RecordFails(env, policy, s, call))
    ensures !(AuthorizeStep(env, policy, s, call).0.Ok? && RecordFails(env, policy, s, call))
  {
    hide Authorization.Digest, SpendPolicy.Check, Window.Recorded, HitlApproval.Verify, VaultSpendIntentV1;
  }

  /** How many records failed in a run. */
  function FailedRecords(env: Env, policy: Policy, s: WalletState, calls: seq<Call>): nat {
    if calls == [] then 0 else
    var init, last := calls[..|calls| - 1], calls[|calls| - 1];
    FailedRecords(env, policy, s, init) + if RecordFails(env, policy, After(env, policy, s, init), last) then 1 else 0
  }

  /** Over a run, each failed record is one signature nobody accounted for: the spends signed outside are the
      authorised ones exactly when no record failed. So the limits on authorizations limit the signatures exactly
      as long as the wallet's own signing does not fail. */
  lemma {:induction false} SignedIsAuthorizedExactlyWhenNoRecordFails(env: Env, policy: Policy, s: WalletState, calls: seq<Call>)
    ensures |Signed(env, policy, s, calls)| == |Authorized(env, policy, s, calls)| + FailedRecords(env, policy, s, calls)
    ensures Signed(env, policy, s, calls) == Authorized(env, policy, s, calls) <==> FailedRecords(env, policy, s, calls) == 0
  {
    hide AuthorizeStep, RecordFails, Signs, After;
    if calls != [] {
      var init, last := calls[..|calls| - 1], calls[|calls| - 1];
      SignedIsAuthorizedExactlyWhenNoRecordFails(env, policy, s, init);
      SignedIsAuthorizedUnlessTheRecordFails(env, policy, After(env, policy, s, init), last);
    }
  }

  lemma FailingStep(env: Env, policy: Policy, s: WalletState, call: Call)
    requires Gate(env, policy, s.window, call).Pass? && (forall k: nat, d :: env.respond(k, d).Some?)
    requires forall m :: env.sign(VaultSpendIntentV1(), m).None?
    ensures Signs(env, policy, s, call) && AuthorizeStep(env, policy, s, call).0.Err?
    ensures AuthorizeStep(env, policy, s, call).1.window == s.window
  {
    hide Gate, VaultSpendIntentV1, Authorization.Digest;
  }

  lemma OneMoreCall(env: Env, policy: Policy, s: WalletState, calls: seq<Call>, call: Call)
    ensures var before := After(env, policy, s, calls);
            && After(env, policy, s, calls + [call]) == AuthorizeStep(env, policy, before, call).1
            && Signed(env, policy, s, calls + [call])
               == Signed(env, policy, s, calls) + (if Signs(env, policy, before, call) then [call.ToSpend()] else [])
            && Authorized(env, policy, s, calls + [call])
               == Authorized(env, policy, s, calls) + (if AuthorizeStep(env, policy, before, call).0.Ok? then [call.ToSpend()] else [])
  {
    hide AuthorizeStep, Signs;
    assert (calls + [call])[..|calls|] == calls;
  }

  function Repeated(call: Call, n: nat): seq<Call> { seq(n, _ => call) }

  lemma OneMoreTime(v: nat, n: nat)
    ensures (n + 1) * v == n * v + v
  {
  }

  /** And when it does fail, nothing limits them: the same allowed call, repeated n times, has the external signer
      sign n times its value while nothing is ever recorded. */
  lemma {:induction false} FailingRecordsEscapeTheCap(env: Env, policy: Policy, s: WalletState, call: Call, n: nat)
    requires Gate(env, policy, s.window, call).Pass? && (forall k: nat, d :: env.respond(k, d).Some?)
    requires forall m :: env.sign(VaultSpendIntentV1(), m).None?
    ensures Total(Signed(env, policy, s, Repeated(call, n))) == n * call.value
    ensures Authorized(env, policy, s, Repeated(call, n)) == []
    ensures After(env, policy, s, Repeated(call, n)).window == s.window
  {
    if n > 0 {
      hide AuthorizeStep, Gate, Signs, Total, VaultSpendIntentV1, After, Signed, Authorized;
      var before := Repeated(call, n - 1);
      assert before + [call] == Repeated(call, n);
      FailingRecordsEscapeTheCap(env, policy, s, call, n - 1);
      FailingStep(env, policy, After(env, policy, s, before), call);
      OneMoreCall(env, policy, s, before, call);
      hide Repeated, Call.ToSpend;
      Append(policy, s.window, Signed(env, policy, s, before), call.ToSpend(), 0, 0);
      SpendOf(call);
      OneMoreTime(call.value, n - 1);
    }
  }

  lemma SpendOf(call: Call)
    ensures call.ToSpend().amount == call.value
  {
  }

  // ── Human approval ─────────────────────────────────────────────────────────

  /** Above the threshold one approval unlocks one authorization: two successful calls that present the same
      approval, in any two states, authorise the same transfer on the same chain at the same time, unless Keccak
      collides on one of the three pairs of pre-images of the two digests. */
  lemma OneApprovalOneAuthorization(env: Env, policy: Policy, s: WalletState, call: Call, t: WalletState, call': Call)
    requires AuthorizeStep(env, policy, s, call).0.Ok? && AuthorizeStep(env, policy, t, call').0.Ok?
    requires call.value > policy.hitlAbove && call'.value > policy.hitlAbove && call.hitl == call'.hitl
    ensures var a, b := call.ToAuthorization(env, policy), call'.ToAuthorization(env, policy);
            || (call == call' && a == b)
            || Collision(env.K, a.DigestPreimage(env.K, call.chain), b.DigestPreimage(env.K, call'.chain))
            || Collision(env.K, Join(call.chain.DomainWords(env.K)), Join(call'.chain.DomainWords(env.K)))
            || Collision(env.K, Join(a.EncodeData(env.K)), Join(b.EncodeData(env.K)))
  {
    LargeCallsWereApproved(env, policy, s, call);
    LargeCallsWereApproved(env, policy, t, call');
    DigestBindsTheAuthorization(env.K, call.ToAuthorization(env, policy), call.chain, call'.ToAuthorization(env, policy), call'.chain);
    hide *;
    hide Call.ToAuthorization;
  }

  lemma LargeCallsWereApproved(env: Env, policy: Policy, s: WalletState, call: Call)
    requires AuthorizeStep(env, policy, s, call).0.Ok? && call.value > policy.hitlAbove
    ensures call.hitl.Some?
    ensures var a := call.hitl.value;
            && a.intentHash == call.Digest(env, policy) && a.amount == call.value && call.now < a.expiryUnix
            && policy.hitlApproverPk == Some(a.approverPk)
            && env.V(a.approverPk, VaultHitlApprovalV1(), HitlApprovalMessage(a.intentHash, a.amount, a.expiryUnix), a.signature) == Verified
  {
    hide Authorization.Digest, Window.Recorded, VaultSpendIntentV1, VaultHitlApprovalV1, HitlApprovalMessage;
  }

  /** What an approver signed: an intent hash, an amount and an expiry. */
  datatype ApproverSigned = ApproverSigned(key: Bytes, intentHash: Bytes32, amount: u128, expiryUnix: u64)

  /** If nobody forges the approver's signature, every authorization above the threshold was signed for by the
      configured approver: exactly its digest, exactly its amount, and an expiry still ahead. */
  lemma LargeSpendsWereSignedByTheApprover(env: Env, policy: Policy, s: WalletState, call: Call, log: set<ApproverSigned>)
    requires AuthorizeStep(env, policy, s, call).0.Ok? && call.value > policy.hitlAbove
    requires forall key, message, signature :: env.V(key, VaultHitlApprovalV1(), message, signature) == Verified ==>
               exists e :: e in log && e.key == key && HitlApprovalMessage(e.intentHash, e.amount, e.expiryUnix) == message
    ensures exists e :: e in log && policy.hitlApproverPk == Some(e.key)
                        && e.intentHash == call.Digest(env, policy) && e.amount == call.value && call.now < e.expiryUnix
  {
    LargeCallsWereApproved(env, policy, s, call);
    var a := call.hitl.value;
    hide *;
    var message := HitlApprovalMessage(a.intentHash, a.amount, a.expiryUnix);
    assert env.V(a.approverPk, VaultHitlApprovalV1(), message, a.signature) == Verified;
    var e :| e in log && e.key == a.approverPk && HitlApprovalMessage(e.intentHash, e.amount, e.expiryUnix) == message;
    HitlMessageBindsItsFields(e.intentHash, e.amount, e.expiryUnix, a.intentHash, a.amount, a.expiryUnix);
  }
}
