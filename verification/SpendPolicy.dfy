/** The wallet's standing spend policy: limits per call, a daily window, and human approval above a
    threshold. */
module SpendPolicy {
  import opened Wrappers
  import opened Words
  import opened Verifier

  const DAY_SECONDS: u64 := 86_400

  datatype Rail = Eip3009Base | Eip3009Ethereum | Eip3009Arbitrum | FheInternal

  datatype Policy = Policy(
    maxPerCall: u128, dailyCap: u128, allowRails: seq<Rail>, hitlAbove: u128, ttlSecs: u64, hitlApproverPk: Option<Bytes>)

  datatype Decision = Allow | RequireHitl
  datatype PolicyViolation = ExceedsMaxPerCall | ExceedsDailyCap | RailNotAllowed

  /** The daily window: when it started and what was spent in it. */
  datatype Window = Window(dayStart: u64, spent: u128) {
    /** Whether the window has elapsed at `now`. A clock before its start has not. */
    predicate Elapsed(now: u64) { SatSub64(now, dayStart) >= DAY_SECONDS }

    function EffectiveSpent(now: u64): u128 { if Elapsed(now) then 0 else spent }

    /** The window after a spend: an elapsed one restarts at the spend itself. */
    function Recorded(amount: u128, now: u64): Window {
      if Elapsed(now) then Window(now, amount) else Window(dayStart, SatAdd128(spent, amount))
    }
  }

  function Check(policy: Policy, w: Window, rail: Rail, amount: u128, now: u64): Result<Decision, PolicyViolation> {
    if rail !in policy.allowRails then Err(RailNotAllowed)
    else if amount > policy.maxPerCall then Err(ExceedsMaxPerCall)
    else if SatAdd128(w.EffectiveSpent(now), amount) > policy.dailyCap then Err(ExceedsDailyCap)
    else if amount > policy.hitlAbove then Ok(RequireHitl)
    else Ok(Allow)
  }

  /** The persistable running state a policy is checked against. */
  class PolicyState {
    var dayStartUnix: u64
    var spentToday: u128

    function Value(): Window
      reads this
    {
      Window(dayStartUnix, spentToday)
    }

    constructor ()
      ensures Value() == Window(0, 0)
    {
      dayStartUnix, spentToday := 0, 0;
    }

    method Record(amount: u128, now: u64)
      modifies this
      ensures Value() == old(Value()).Recorded(amount, now)
    {
      if SatSub64(now, dayStartUnix) >= DAY_SECONDS {
        dayStartUnix := now;
        spentToday := 0;
      }
      spentToday := SatAdd128(spentToday, amount);
    }
  }

  // ── Human approval ─────────────────────────────────────────────────────────

  /** Registered in `aethel-core`; nothing here depends on its bytes. */
  function VaultHitlApprovalV1(): Bytes { Ascii("aethel-vault/hitl-approval/v1") }

  function HitlApprovalMessage(intentHash: Bytes32, amount: u128, expiryUnix: u64): Bytes {
    intentHash + (Be(amount, 16) + Be(expiryUnix, 8))
  }

  method BuildHitlApprovalMessage(intentHash: Bytes32, amount: u128, expiryUnix: u64) returns (msg: Bytes)
    ensures msg == HitlApprovalMessage(intentHash, amount, expiryUnix)
  {
    hide Be;
    msg := Extend([], intentHash);
    msg := Extend(msg, Be(amount, 16));
    msg := Extend(msg, Be(expiryUnix, 8));
  }

  datatype HitlApproval = HitlApproval(
    approverPk: Bytes, signature: Bytes, intentHash: Bytes32, amount: u128, expiryUnix: u64)
  {
    /** `Err` only for a key or signature that cannot be evaluated at all. */
    function Verify(V: SigCheck, expectedHash: Bytes32, expectedAmount: u128, expectedPk: Option<Bytes>, now: u64): Result<bool, ()> {
      if now >= expiryUnix then Ok(false)
      else if intentHash != expectedHash || amount != expectedAmount then Ok(false)
      else if expectedPk != Some(approverPk) then Ok(false)
      else match V(approverPk, VaultHitlApprovalV1(), HitlApprovalMessage(intentHash, amount, expiryUnix), signature)
           case Undecodable => Err(())
           case NotVerified => Ok(false)
           case Verified => Ok(true)
    }
  }

  lemma HitlMessageBindsItsFields(h: Bytes32, amount: u128, expiry: u64, h': Bytes32, amount': u128, expiry': u64)
    requires HitlApprovalMessage(h, amount, expiry) == HitlApprovalMessage(h', amount', expiry')
    ensures h == h' && amount == amount' && expiry == expiry'
  {
    var tail, tail' := Be(amount, 16) + Be(expiry, 8), Be(amount', 16) + Be(expiry', 8);
    assert (h + tail)[..32] == h && (h' + tail')[..32] == h';
    assert (h + tail)[32..] == tail && (h' + tail')[32..] == tail';
    TakeU128Reads(amount, Be(expiry, 8));
    TakeU128Reads(amount', Be(expiry', 8));
    TakeU64Reads(expiry, []);
    TakeU64Reads(expiry', []);
    assert Be(expiry, 8) + [] == Be(expiry', 8) + [];
    hide Be;
  }

  // ── In the documented numbers ──────────────────────────────────────────────

  /** Spent in the window at `now`: nothing once 86,400 seconds have passed since it started. */
  function SpentBy(w: Window, now: u64): u128 { if now >= w.dayStart + 86_400 then 0 else w.spent }

  /** A recorded spend restarts a window that has run for 86,400 seconds and otherwise joins it. */
  lemma RecordInNumbers(w: Window, amount: u128, now: u64)
    ensures w.Recorded(amount, now) ==
              if now >= w.dayStart + 86_400 then Window(now, amount)
              else Window(w.dayStart, if w.spent + amount > U128_MAX then U128_MAX else w.spent + amount)
  {
  }

  /** The policy's decision: which violation a refused spend gets, and exactly when an allowed one needs approval. */
  lemma CheckDecision(policy: Policy, w: Window, rail: Rail, amount: u128, now: u64)
    ensures var refusal := Refuse(rail !in policy.allowRails, RailNotAllowed,
                           Refuse(amount > policy.maxPerCall, ExceedsMaxPerCall,
                           Refuse(SpentBy(w, now) + amount > policy.dailyCap && policy.dailyCap < U128_MAX, ExceedsDailyCap, Pass)));
            Check(policy, w, rail, amount, now) ==
              if refusal.Fail? then Err(refusal.error) else Ok(if amount > policy.hitlAbove then RequireHitl else Allow)
  {
  }

  /** An approval message laid out: 32 bytes of hash, 16 of amount, 8 of expiry. */
  lemma HitlMessageReads(h: Bytes32, amount: u128, expiry: u64)
    ensures var m := HitlApprovalMessage(h, amount, expiry);
            |m| == 56 && m[..32] == h && FromBe(m[32..48]) == amount && FromBe(m[48..]) == expiry
  {
    var m := HitlApprovalMessage(h, amount, expiry);
    assert m[32..48] == Be(amount, 16) && m[48..] == Be(expiry, 8);
    WordSizes();
    BeRoundTrip(amount, 16);
    BeRoundTrip(expiry, 8);
  }

  /** Exactly when an approval verifies, and exactly when it cannot be evaluated. */
  lemma ApprovalVerifiesExactlyWhen(V: SigCheck, a: HitlApproval, hash: Bytes32, amount: u128, pk: Option<Bytes>, now: u64)
    ensures var right := now < a.expiryUnix && a.intentHash == hash && a.amount == amount && pk == Some(a.approverPk);
            var verdict := V(a.approverPk, VaultHitlApprovalV1(), HitlApprovalMessage(hash, amount, a.expiryUnix), a.signature);
            a.Verify(V, hash, amount, pk, now) ==
              if right && verdict == Undecodable then Err(()) else Ok(right && verdict == Verified)
  {
    hide VaultHitlApprovalV1, HitlApprovalMessage;
  }
}
