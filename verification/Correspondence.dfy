/** The correspondence the delegation documentation claims: a spend policy, written as a delegation's bounds and
    checked by a relying party that keeps the running total, decides as the wallet's own policy check does. */
module Correspondence {
  import opened Wrappers
  import opened Words
  import opened Statements
  import opened Verifier
  import opened SpendPolicy
  import opened PolicyRuns

  /** Names for the rails, as actions. */
  type RailNames = Rail -> Bytes

  ghost predicate NamesAreDistinct(names: RailNames) {
    forall a, b :: names(a) == names(b) ==> a == b
  }

  /** `allow_rails` as actions, `max_per_call`, `daily_cap` over a day, and `hitl_above`. */
  function BoundsOf(policy: Policy, names: RailNames): Bounds {
    Bounds(seq(|policy.allowRails|, i requires 0 <= i < |policy.allowRails| => names(policy.allowRails[i])),
           Some(policy.maxPerCall), Some(policy.dailyCap), Some(DAY_SECONDS), Some(policy.hitlAbove))
  }

  /** A relying party, and who presents the delegation to it. */
  datatype Presentation = Presentation(
    V: SigCheck, delegation: Delegation, audience: Bytes, principals: set<Bytes>, revoked: set<Bytes>, delegateKey: Bytes)
  {
    /** A verified, live delegation from a recognised principal, neither key revoked, presented by its delegate. */
    predicate Stands(now: u64) {
      && CheckParties(delegation, principals, revoked).Pass?
      && VerifyDelegation(V, delegation, audience, now).Pass?
      && delegation.delegateKey == delegateKey
    }

    function Ask(action: Bytes, amount: u128, now: u64): Result<RemainingObligations, AuthError> {
      Authorise(V, delegation, audience, principals, revoked, delegateKey, action, Some(amount), now)
    }

    /** `authorise`, and then the cumulative bound it leaves to the relying party. */
    predicate Accepts(w: Window, action: Bytes, amount: u128, now: u64) {
      var r := Ask(action, amount, now);
      r.Ok? && (r.value.cumulativeCeiling.Some? ==> w.EffectiveSpent(now) + amount <= r.value.cumulativeCeiling.value)
    }
  }

  /** The inputs on which the saturating sum of the policy check hides an overspend. */
  predicate SaturationHidesOverspend(policy: Policy, w: Window, rail: Rail, amount: u128, now: u64) {
    policy.dailyCap == U128_MAX && rail in policy.allowRails && amount <= policy.maxPerCall
    && w.EffectiveSpent(now) + amount > U128_MAX
  }

  lemma ActionsAreTheRails(policy: Policy, names: RailNames, rail: Rail)
    requires NamesAreDistinct(names)
    ensures names(rail) in BoundsOf(policy, names).actions <==> rail in policy.allowRails
  {
    if rail in policy.allowRails {
      var i :| 0 <= i < |policy.allowRails| && policy.allowRails[i] == rail;
      assert BoundsOf(policy, names).actions[i] == names(rail);
    }
  }

  /** Under a standing delegation with a policy's bounds, the relying party and the policy accept the same amounts and
      ask for approval alike, and the caller is never told that nothing is left to enforce. The only inputs on which
      they part are those where the policy's sum saturates, and those need a cap of 2^128 - 1. */
  lemma DelegationsMirrorPolicies(p: Presentation, policy: Policy, names: RailNames, w: Window, rail: Rail, amount: u128, now: u64)
    requires NamesAreDistinct(names) && p.delegation.bounds == BoundsOf(policy, names) && p.Stands(now)
    ensures (Check(policy, w, rail, amount, now).Ok? <==> p.Accepts(w, names(rail), amount, now))
       <==> !SaturationHidesOverspend(policy, w, rail, amount, now)
    ensures Check(policy, w, rail, amount, now).Ok? ==>
              var r := p.Ask(names(rail), amount, now);
              && r.Ok? && r.value.windowSecs == Some(DAY_SECONDS) && !r.value.IsClear()
              && (Check(policy, w, rail, amount, now) == Ok(RequireHitl) <==> r.value.humanApprovalRequired)
  {
    ActionsAreTheRails(policy, names, rail);
    hide VerifyDelegation, CheckParties, Delegation.SigningBytes;
  }

  /** Each spend is accepted by a relying party that keeps the same daily window. */
  predicate AllAccepted(p: Presentation, names: RailNames, w: Window, spends: seq<Spend>) {
    spends == [] ||
    var init, last := spends[..|spends| - 1], spends[|spends| - 1];
    AllAccepted(p, names, w, init) && p.Accepts(WindowAfter(w, init), names(last.rail), last.amount, last.now)
  }

  /** So over whole runs: the spends a policy passes one after the other are those a relying party accepts one after
      the other, and what bounds the one bounds the other. */
  lemma {:induction false} RunsMirrorPolicies(p: Presentation, policy: Policy, names: RailNames, w: Window, spends: seq<Spend>)
    requires NamesAreDistinct(names) && p.delegation.bounds == BoundsOf(policy, names) && policy.dailyCap < U128_MAX
    requires forall i :: 0 <= i < |spends| ==> p.Stands(spends[i].now)
    ensures AllPass(policy, w, spends) <==> AllAccepted(p, names, w, spends)
  {
    hide SpendPolicy.Check, Presentation.Accepts, Presentation.Stands, BoundsOf, WindowAfter, NamesAreDistinct;
    if spends != [] {
      var init, last := spends[..|spends| - 1], spends[|spends| - 1];
      RunsMirrorPolicies(p, policy, names, w, init);
      assert last == spends[|spends| - 1];
      DelegationsMirrorPolicies(p, policy, names, WindowAfter(w, init), last.rail, last.amount, last.now);
    }
  }
}
