/** The wallet: policy, then the external signer, then the wallet's own record, then the accounting. */
module Wallet {
  import opened Wrappers
  import opened Words
  import opened Verifier
  import opened SpendPolicy
  import opened PolicyRuns
  import opened Eip712

  type Bytes65 = b: Bytes | |b| == 65 witness Zeros(65)

  /** Registered in `aethel-core`; nothing here depends on its bytes. */
  function VaultSpendIntentV1(): Bytes { Ascii("aethel-vault/spend-intent/v1") }

  datatype SpendIntent = SpendIntent(
    chainId: u64, from: Address, to: Address, value: u128, validAfter: u64, validBefore: u64, nonce: Bytes32, digest: Bytes32)

  datatype SettlementAuthorization = SettlementAuthorization(
    authorization: Authorization, chain: Chain, digest: Bytes32, externalSignature: Bytes65, intent: SpendIntent,
    intentSignature: Bytes, intentSignerPk: Bytes)

  datatype Receipt = Receipt(authHash: Bytes32, amount: u128, dst: Address, ts: u64, chainId: u64)

  datatype VaultError =
    | PolicyDenied(violation: PolicyViolation) | HitlRequired | SignerFailure | IdentityError | SerializationError

  /** What the wallet is built from and does not decide: the hash, signature verification, the external signer
      (its answer to each digest it gets), and the wallet's own identity and serialiser. */
  datatype Env = Env(
    K: Hash, V: SigCheck, respond: (nat, Bytes32) -> Option<Bytes65>,
    publicKey: Bytes, sign: (Bytes, Bytes) -> Option<Bytes>, serialize: SpendIntent -> Option<Bytes>)

  /** One call of `authorize_eip3009`; `from` is what the injected signer answers when it is asked for its address. */
  datatype Call = Call(from: Address, to: Address, value: u128, nonce: Bytes32, chain: Chain, now: u64, hitl: Option<HitlApproval>) {
    function ToAuthorization(env: Env, policy: Policy): Authorization {
      Authorization(from, to, value, now, SatAdd64(now, policy.ttlSecs), nonce)
    }

    function Digest(env: Env, policy: Policy): Bytes32 { ToAuthorization(env, policy).Digest(env.K, chain) }

    function ToIntent(env: Env, policy: Policy): SpendIntent {
      SpendIntent(chain.ChainId(), from, to, value, now, SatAdd64(now, policy.ttlSecs), nonce, Digest(env, policy))
    }

    function ToSpend(): Spend { Spend(chain.OnRail(), value, now) }
  }

  /** What a call can change: the accounting, the last receipt, and what the external signer was asked. */
  datatype WalletState = WalletState(window: Window, lastReceipt: Option<Receipt>, asked: seq<Bytes32>)

  // ── One call ───────────────────────────────────────────────────────────────

  /** Policy and human approval: everything before anything is signed. */
  function Gate(env: Env, policy: Policy, w: Window, call: Call): Outcome<VaultError> {
    match Check(policy, w, call.chain.OnRail(), call.value, call.now)
    case Err(v) => Fail(PolicyDenied(v))
    case Ok(Allow) => Pass
    case Ok(RequireHitl) =>
      match call.hitl
      case None => Fail(HitlRequired)
      case Some(a) =>
        match a.Verify(env.V, call.Digest(env, policy), call.value, policy.hitlApproverPk, call.now)
        case Err(_) => Fail(IdentityError)
        case Ok(approved) => if approved then Pass else Fail(HitlRequired)
  }

  function AuthorizeStep(env: Env, policy: Policy, s: WalletState, call: Call)
    : (Result<SettlementAuthorization, VaultError>, WalletState)
  {
    match Gate(env, policy, s.window, call)
    case Fail(e) => (Err(e), s)
    case Pass =>
      var digest := call.Digest(env, policy);
      var asked := s.(asked := s.asked + [digest]);
      match env.respond(|s.asked|, digest)
      case None => (Err(SignerFailure), asked)
      case Some(external) =>
        var intent := call.ToIntent(env, policy);
        match env.serialize(intent)
        case None => (Err(SerializationError), asked)
        case Some(bytes) =>
          match env.sign(VaultSpendIntentV1(), bytes)
          case None => (Err(IdentityError), asked)
          case Some(signature) =>
            (Ok(SettlementAuthorization(call.ToAuthorization(env, policy), call.chain, digest, external, intent, signature, env.publicKey)),
             asked.(window := s.window.Recorded(call.value, call.now),
                    lastReceipt := Some(Receipt(digest, call.value, call.to, call.now, call.chain.ChainId()))))
  }

  /** The injected signer: opaque answers, remembered questions. */
  class ExternalSigner {
    const respond: (nat, Bytes32) -> Option<Bytes65>
    ghost var asked: seq<Bytes32>
    var count: nat

    constructor (respond: (nat, Bytes32) -> Option<Bytes65>)
      ensures this.respond == respond && asked == [] && count == 0
    {
      this.respond := respond;
      asked, count := [], 0;
    }

    method SignDigest(digest: Bytes32) returns (r: Option<Bytes65>)
      requires count == |asked|
      modifies this
      ensures asked == old(asked) + [digest] && count == |asked|
      ensures r == respond(|old(asked)|, digest)
    {
      r := respond(count, digest);
      asked := asked + [digest];
      count := count + 1;
    }
  }

  class AgentWallet {
    const env: Env
    const policy: Policy
    const signer: ExternalSigner
    const policyState: PolicyState
    var lastReceipt: Option<Receipt>

    ghost predicate Valid()
      reads this, signer
    {
      signer.respond == env.respond && signer.count == |signer.asked|
    }

    ghost function State(): WalletState
      reads this, signer, policyState
    {
      WalletState(policyState.Value(), lastReceipt, signer.asked)
    }

    constructor (env: Env, policy: Policy)
      ensures Valid() && this.env == env && this.policy == policy
      ensures State() == WalletState(Window(0, 0), None, [])
    {
      this.env, this.policy := env, policy;
      signer := new ExternalSigner(env.respond);
      policyState := new PolicyState();
      lastReceipt := None;
    }

    method AuthorizeEip3009(call: Call) returns (r: Result<SettlementAuthorization, VaultError>)
      requires Valid()
      modifies this, signer, policyState
      ensures Valid()
      ensures (r, State()) == AuthorizeStep(env, policy, old(State()), call)
    {
      hide Authorization.Digest, SpendPolicy.Check, Window.Recorded, HitlApproval.Verify, VaultSpendIntentV1;
      var auth := call.ToAuthorization(env, policy);
      var digest := auth.Eip712Digest(env.K, call.chain);

      var checked := Check(policy, policyState.Value(), call.chain.OnRail(), call.value, call.now);
      if checked.Err? {
        return Err(PolicyDenied(checked.error));
      }
      if checked.value == RequireHitl {
        var approved := false;
        if call.hitl.Some? {
          var verdict := call.hitl.value.Verify(env.V, digest, call.value, policy.hitlApproverPk, call.now);
          if verdict.Err? {
            return Err(IdentityError);
          }
          approved := verdict.value;
        }
        if !approved {
          return Err(HitlRequired);
        }
      }

      var external := signer.SignDigest(digest);
      if external.None? {
        return Err(SignerFailure);
      }
      var intent := call.ToIntent(env, policy);
      var bytes := env.serialize(intent);
      if bytes.None? {
        return Err(SerializationError);
      }
      var signature := env.sign(VaultSpendIntentV1(), bytes.value);
      if signature.None? {
        return Err(IdentityError);
      }
      policyState.Record(call.value, call.now);
      lastReceipt := Some(Receipt(digest, call.value, call.to, call.now, call.chain.ChainId()));
      return Ok(SettlementAuthorization(auth, call.chain, digest, external.value, intent, signature.value, env.publicKey));
    }
  }
}
