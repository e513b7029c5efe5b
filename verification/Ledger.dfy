/** The confidential ledger: an association list of ciphertexts, identity bindings, and blind transfers whose
    arithmetic is done by a host (wasm) or by TFHE (native). */
module Ledger {
  import opened Wrappers
  import opened Words

  const ERR_OK: nat := 0
  const ERR_NOT_FOUND: nat := 1
  const ERR_DESER: nat := 3
  const ERR_INVALID_KEY: nat := 4
  const ERR_UNAUTHORIZED: nat := 5
  const ERR_WIRE_VERIFY_FAILED: nat := 6

  datatype LedgerError = NotFound | Deser | InvalidKey | Unauthorized | WireVerifyFailed

  /** The code an operation returns. */
  function ReturnCode(r: Outcome<LedgerError>): nat {
    match r
    case Pass => ERR_OK
    case Fail(NotFound) => ERR_NOT_FOUND
    case Fail(Deser) => ERR_DESER
    case Fail(InvalidKey) => ERR_INVALID_KEY
    case Fail(Unauthorized) => ERR_UNAUTHORIZED
    case Fail(WireVerifyFailed) => ERR_WIRE_VERIFY_FAILED
  }

  /** The documented codes; different outcomes have different ones. */
  lemma CodesTellOutcomesApart(a: Outcome<LedgerError>, b: Outcome<LedgerError>)
    ensures ReturnCode(a) == ReturnCode(b) ==> a == b
    ensures ReturnCode(Pass) == 0 && ReturnCode(Fail(NotFound)) == 1 && ReturnCode(Fail(Deser)) == 3
    ensures ReturnCode(Fail(InvalidKey)) == 4 && ReturnCode(Fail(Unauthorized)) == 5 && ReturnCode(Fail(WireVerifyFailed)) == 6
  {
  }

  // ── Blind arithmetic ───────────────────────────────────────────────────────

  /** 64-bit wrap-around. */
  function Wrap(v: int): u64 { v % (U64_MAX + 1) }

  /** A transfer in plain words: all of it or nothing, with wrapping 64-bit arithmetic. */
  function TransferPlain(sender: u64, receiver: u64, amount: u64): (u64, u64) {
    var moved := Moved(sender, amount);
    (sender - moved, Wrap(receiver + moved))
  }

  function Moved(sender: u64, amount: u64): (moved: u64)
    ensures moved <= sender
  {
    if sender >= amount then amount else 0
  }

  /** The host's operations on serialized ciphertexts; an empty result is a failure. */
  datatype Host = Host(
    ge: (Bytes, Bytes) -> Bytes, zero: Bytes, select: (Bytes, Bytes, Bytes) -> Bytes,
    sub: (Bytes, Bytes) -> Bytes, add: (Bytes, Bytes) -> Bytes)
  {
    /** The wasm build's transfer. */
    function Transfer(sender: Bytes, receiver: Bytes, amount: Bytes): Option<(Bytes, Bytes)> {
      var sufficient := ge(sender, amount);
      var _ :- Need(sufficient != []);
      var _ :- Need(zero != []);
      var deduction := select(sufficient, amount, zero);
      var _ :- Need(deduction != []);
      var newSender := sub(sender, deduction);
      var _ :- Need(newSender != []);
      var newReceiver := add(receiver, deduction);
      var _ :- Need(newReceiver != []);
      Some((newSender, newReceiver))
    }

    function Compute(key: Option<Bytes>, sender: Bytes, receiver: Bytes, amount: Bytes): Result<(Bytes, Bytes), LedgerError> {
      match Transfer(sender, receiver, amount)
      case None => Err(Deser)
      case Some(pair) => Ok(pair)
    }

    /** Calls on well-formed ciphertexts do not fail. */
    ghost predicate Answers(dec: Bytes -> Option<u64>, decBool: Bytes -> Option<bool>) {
      && zero != []
      && (forall a, b :: dec(a).Some? && dec(b).Some? ==> ge(a, b) != [] && sub(a, b) != [] && add(a, b) != [])
      && (forall c, a, b :: decBool(c).Some? && dec(a).Some? && dec(b).Some? ==> select(c, a, b) != [])
    }

    /** What a host that computes homomorphically promises about the values its ciphertexts decrypt to. */
    ghost predicate Lawful(dec: Bytes -> Option<u64>, decBool: Bytes -> Option<bool>) {
      && (forall a, b :: ge(a, b) != [] ==>
            dec(a).Some? && dec(b).Some? && decBool(ge(a, b)) == Some(dec(a).value >= dec(b).value))
      && (zero != [] ==> dec(zero) == Some(0))
      && (forall c, a, b :: select(c, a, b) != [] ==>
            decBool(c).Some? && dec(a).Some? && dec(b).Some?
            && dec(select(c, a, b)) == (if decBool(c).value then dec(a) else dec(b)))
      && (forall a, b :: sub(a, b) != [] ==>
            dec(a).Some? && dec(b).Some? && dec(sub(a, b)) == Some(Wrap(dec(a).value - dec(b).value)))
      && (forall a, b :: add(a, b) != [] ==>
            dec(a).Some? && dec(b).Some? && dec(add(a, b)) == Some(Wrap(dec(a).value + dec(b).value)))
    }
  }

  /** The native build's TFHE, over deserialized keys, integers and booleans. */
  datatype Tfhe<!K, !C(!new), !F(!new)> = Tfhe(
    loadKey: Bytes -> Option<K>, deserialize: Bytes -> Option<C>, serialize: C -> Option<Bytes>,
    ge: (K, C, C) -> F, trivialZero: K -> C, ifThenElse: (K, F, C, C) -> C, sub: (K, C, C) -> C, add: (K, C, C) -> C)
  {
    /** What is to be moved, still encrypted. */
    function Deduction(key: K, s: C, t: C): C { ifThenElse(key, ge(key, s, t), t, trivialZero(key)) }

    function Transfer(sender: Bytes, receiver: Bytes, amount: Bytes, serverKey: Bytes): Option<(Bytes, Bytes)> {
      var key :- loadKey(serverKey);
      var s :- deserialize(sender);
      var r :- deserialize(receiver);
      var t :- deserialize(amount);
      var deduction := Deduction(key, s, t);
      var newSender :- serialize(sub(key, s, deduction));
      var newReceiver :- serialize(add(key, r, deduction));
      Some((newSender, newReceiver))
    }

    function Compute(key: Option<Bytes>, sender: Bytes, receiver: Bytes, amount: Bytes): Result<(Bytes, Bytes), LedgerError> {
      match key
      case None => Err(InvalidKey)
      case Some(k) =>
        match Transfer(sender, receiver, amount, k)
        case None => Err(Deser)
        case Some(pair) => Ok(pair)
    }

    /** What a transfer needs to be carried out, and it is not the balance: the key loads, the three ciphertexts
        deserialize and the two results serialize. */
    predicate Answers(key: Option<Bytes>, sender: Bytes, receiver: Bytes, amount: Bytes) {
      && key.Some? && loadKey(key.value).Some?
      && deserialize(sender).Some? && deserialize(receiver).Some? && deserialize(amount).Some?
      && var k := loadKey(key.value).value;
         var deduction := Deduction(k, deserialize(sender).value, deserialize(amount).value);
         && serialize(sub(k, deserialize(sender).value, deduction)).Some?
         && serialize(add(k, deserialize(receiver).value, deduction)).Some?
    }

    function Dec(plain: C -> u64, bytes: Bytes): Option<u64> {
      match deserialize(bytes)
      case None => None
      case Some(c) => Some(plain(c))
    }

    /** Homomorphism for one server key, and a serialisation that keeps the plaintext. */
    ghost predicate Lawful(key: K, plain: C -> u64, truth: F -> bool) {
      && (forall a, b :: truth(ge(key, a, b)) <==> plain(a) >= plain(b))
      && plain(trivialZero(key)) == 0
      && (forall f, a, b :: plain(ifThenElse(key, f, a, b)) == if truth(f) then plain(a) else plain(b))
      && (forall a, b :: plain(sub(key, a, b)) == Wrap(plain(a) - plain(b)))
      && (forall a, b :: plain(add(key, a, b)) == Wrap(plain(a) + plain(b)))
      && (forall c :: serialize(c).Some? ==>
            deserialize(serialize(c).value).Some? && plain(deserialize(serialize(c).value).value) == plain(c))
    }
  }

  type Computation = (Option<Bytes>, Bytes, Bytes, Bytes) -> Result<(Bytes, Bytes), LedgerError>

  /** A computation is right for a server key when whatever it returns decrypts to the plain transfer. */
  ghost predicate ComputesTransfers(compute: Computation, key: Option<Bytes>, dec: Bytes -> Option<u64>) {
    forall s, r, t :: compute(key, s, r, t).Ok? ==>
      && dec(s).Some? && dec(r).Some? && dec(t).Some?
      && var (s', r') := compute(key, s, r, t).value;
         var (x, y) := TransferPlain(dec(s).value, dec(r).value, dec(t).value);
         dec(s') == Some(x) && dec(r') == Some(y)
  }

  /** Wrap-around keeps the residue modulo 2^64. */
  lemma WrapIsModular(v: int, k: int)
    ensures Wrap(v + k * 0x1_0000_0000_0000_0000) == Wrap(v)
  {
  }

  lemma WordsDoNotWrap(v: u64)
    ensures Wrap(v) == v
  {
  }

  lemma HostDeductionIsWhatMoves(h: Host, dec: Bytes -> Option<u64>, decBool: Bytes -> Option<bool>, s: Bytes, t: Bytes)
    requires h.Lawful(dec, decBool)
    requires h.ge(s, t) != [] && h.zero != [] && h.select(h.ge(s, t), t, h.zero) != []
    ensures dec(s).Some? && dec(t).Some?
    ensures dec(h.select(h.ge(s, t), t, h.zero)) == Some(Moved(dec(s).value, dec(t).value))
  {
    hide Wrap;
    assert decBool(h.ge(s, t)) == Some(dec(s).value >= dec(t).value);
    assert dec(h.zero) == Some(0);
  }

  lemma HostSubAndAdd(h: Host, dec: Bytes -> Option<u64>, decBool: Bytes -> Option<bool>, s: Bytes, r: Bytes, d: Bytes)
    requires h.Lawful(dec, decBool) && h.sub(s, d) != [] && h.add(r, d) != []
    ensures dec(s).Some? && dec(r).Some? && dec(d).Some?
    ensures dec(h.sub(s, d)) == Some(Wrap(dec(s).value - dec(d).value))
    ensures dec(h.add(r, d)) == Some(Wrap(dec(r).value + dec(d).value))
  {
    hide Wrap;
  }

  lemma HostTransferIsPlain(h: Host, dec: Bytes -> Option<u64>, decBool: Bytes -> Option<bool>, s: Bytes, r: Bytes, t: Bytes)
    requires h.Lawful(dec, decBool) && h.Transfer(s, r, t).Some?
    ensures dec(s).Some? && dec(r).Some? && dec(t).Some?
    ensures var (s', r') := h.Transfer(s, r, t).value;
            var (x, y) := TransferPlain(dec(s).value, dec(r).value, dec(t).value);
            dec(s') == Some(x) && dec(r') == Some(y)
  {
    hide Wrap, Host.Lawful, Moved;
    HostDeductionIsWhatMoves(h, dec, decBool, s, t);
    HostSubAndAdd(h, dec, decBool, s, r, h.select(h.ge(s, t), t, h.zero));
    WordsDoNotWrap(dec(s).value - Moved(dec(s).value, dec(t).value));
  }

  /** The wasm build's five host calls compute the plain transfer. */
  lemma HostComputesTransfers(h: Host, key: Option<Bytes>, dec: Bytes -> Option<u64>, decBool: Bytes -> Option<bool>)
    requires h.Lawful(dec, decBool)
    ensures ComputesTransfers((k, s, r, t) => h.Compute(k, s, r, t), key, dec)
  {
    hide Host.Transfer, Host.Lawful, TransferPlain;
    forall s, r, t | h.Compute(key, s, r, t).Ok? {
      HostTransferIsPlain(h, dec, decBool, s, r, t);
    }
  }

  /** The native build's arithmetic, on decrypted values. */
  lemma TfheArithmetic<K, C(!new), F(!new)>(f: Tfhe<K, C, F>, k: K, plain: C -> u64, truth: F -> bool, s: C, r: C, t: C)
    requires f.Lawful(k, plain, truth)
    ensures var deduction := f.Deduction(k, s, t);
            var (x, y) := TransferPlain(plain(s), plain(r), plain(t));
            plain(f.sub(k, s, deduction)) == x && plain(f.add(k, r, deduction)) == y
  {
    hide Wrap;
    var deduction := f.Deduction(k, s, t);
    var moved := Moved(plain(s), plain(t));
    assert plain(deduction) == moved;
    WordsDoNotWrap(plain(s) - moved);
  }

  lemma SerializedKeepsItsValue<K, C(!new), F(!new)>(f: Tfhe<K, C, F>, k: K, plain: C -> u64, truth: F -> bool, c: C)
    requires f.Lawful(k, plain, truth) && f.serialize(c).Some?
    ensures f.Dec(plain, f.serialize(c).value) == Some(plain(c))
  {
    hide Wrap;
  }

  lemma TfheTransferIsPlain<K, C(!new), F(!new)>(f: Tfhe<K, C, F>, plain: C -> u64, truth: F -> bool, s: Bytes, r: Bytes, t: Bytes, key: Bytes)
    requires f.loadKey(key).Some? ==> f.Lawful(f.loadKey(key).value, plain, truth)
    requires f.Transfer(s, r, t, key).Some?
    ensures f.Dec(plain, s).Some? && f.Dec(plain, r).Some? && f.Dec(plain, t).Some?
    ensures var (s', r') := f.Transfer(s, r, t, key).value;
            var (x, y) := TransferPlain(f.Dec(plain, s).value, f.Dec(plain, r).value, f.Dec(plain, t).value);
            f.Dec(plain, s') == Some(x) && f.Dec(plain, r') == Some(y)
  {
    hide Tfhe.Lawful, TransferPlain;
    var k := f.loadKey(key).value;
    var a, b, c := f.deserialize(s).value, f.deserialize(r).value, f.deserialize(t).value;
    var deduction := f.Deduction(k, a, c);
    TfheArithmetic(f, k, plain, truth, a, b, c);
    SerializedKeepsItsValue(f, k, plain, truth, f.sub(k, a, deduction));
    SerializedKeepsItsValue(f, k, plain, truth, f.add(k, b, deduction));
  }

  /** The native build computes the same plain transfer. */
  lemma TfheComputesTransfers<K, C(!new), F(!new)>(f: Tfhe<K, C, F>, key: Option<Bytes>, plain: C -> u64, truth: F -> bool)
    requires key.Some? && f.loadKey(key.value).Some? ==> f.Lawful(f.loadKey(key.value).value, plain, truth)
    ensures ComputesTransfers((k, s, r, t) => f.Compute(k, s, r, t), key, b => f.Dec(plain, b))
  {
    hide Tfhe.Transfer, Tfhe.Lawful, TransferPlain, Tfhe.Dec;
    forall s, r, t | f.Compute(key, s, r, t).Ok? {
      TfheTransferIsPlain(f, plain, truth, s, r, t, key.value);
    }
  }

  // ── State ──────────────────────────────────────────────────────────────────

  type Id = Bytes32
  type Entry = (Id, Bytes)

  /** What is persisted. There is no key in it. */
  datatype VaultState = VaultState(balances: seq<Entry>, identityProjections: seq<Entry>)

  const VAULT_STATE_VERSION: byte := 2

  /** The ledger's process state: the persisted part, if any, and the server key of this process. */
  datatype Vault = Vault(state: Option<VaultState>, serverKey: Option<Bytes>)

  /** What the ledger calls: hashing, blind arithmetic, key validation, identity decoding and proofs, and the
      state serialiser. */
  datatype LedgerEnv = LedgerEnv(
    H: Hash, compute: Computation, validKey: Bytes -> bool,
    decodes: Bytes -> bool, verifyProof: (Bytes, Bytes) -> bool,
    decodeWire: Bytes -> Option<Bytes>, verifyWire: (Bytes, Bytes, Bytes) -> Option<bool>,
    encode: VaultState -> Bytes, decode: Bytes -> Option<VaultState>)

  function VaultIdPrefix(): Bytes { Ascii("AETHEL_VAULT_ID_V1") }

  function DeriveVaultId(H: Hash, projection: Bytes): Id {
    H(VaultIdPrefix() + projection)
  }

  /** The first entry with this id. */
  function Position(entries: seq<Entry>, id: Bytes): (p: Option<nat>)
    ensures p.Some? ==> p.value < |entries| && entries[p.value].0 == id
                        && forall i :: 0 <= i < p.value ==> entries[i].0 != id
    ensures p.None? ==> forall i :: 0 <= i < |entries| ==> entries[i].0 != id
  {
    if entries == [] then None
    else if entries[0].0 == id then Some(0)
    else
      match Position(entries[1..], id)
      case None => None
      case Some(i) => Some(i + 1)
  }

  function Lookup(entries: seq<Entry>, id: Bytes): Option<Bytes> {
    match Position(entries, id)
    case None => None
    case Some(i) => Some(entries[i].1)
  }

  function Replace(entries: seq<Entry>, i: nat, bytes: Bytes): seq<Entry>
    requires i < |entries|
  {
    entries[i := (entries[i].0, bytes)]
  }

  // ── Operations ─────────────────────────────────────────────────────────────

  datatype Op =
    | InitVault(key: Bytes)
    | Register(vaultId: Bytes, ct: Bytes)
    | RegisterWithIdentity(projection: Bytes, ct: Bytes)
    | Transfer(sender: Bytes, receiver: Bytes, amount: Bytes)
    | TransferAuthenticated(senderId: Id, receiverId: Id, amount: Bytes, projection: Bytes, proof: Bytes)
    | TransferAuthenticatedBytes(senderId: Id, receiverId: Id, amount: Bytes, wire: Bytes, proof: Bytes, context: Bytes)
    | Import(bytes: Bytes)

  function Opened(v: Vault): VaultState {
    match v.state
    case None => VaultState([], [])
    case Some(st) => st
  }

  function TransferStep(env: LedgerEnv, v: Vault, sender: Bytes, receiver: Bytes, amount: Bytes): (Outcome<LedgerError>, Vault) {
    if |sender| != 32 || |receiver| != 32 then (Fail(Deser), v)
    else
      var b := Opened(v).balances;
      match (Position(b, sender), Position(b, receiver))
      case (Some(si), Some(ri)) =>
        (match env.compute(v.serverKey, b[si].1, b[ri].1, amount)
         case Err(e) => (Fail(e), v)
         case Ok((newSender, newReceiver)) =>
           (Pass, v.(state := Some(Opened(v).(balances := Replace(Replace(b, si, newSender), ri, newReceiver))))))
      case _ => (Fail(NotFound), v)
  }

  /** Whether the caller proved control of the identity the sender was registered under. */
  function Authenticate(env: LedgerEnv, v: Vault, op: Op): Outcome<LedgerError>
    requires op.TransferAuthenticated? || op.TransferAuthenticatedBytes?
  {
    match Lookup(Opened(v).identityProjections, op.senderId)
    case None => Fail(Unauthorized)
    case Some(bound) =>
      match op
      case TransferAuthenticated(_, _, _, projection, proof) =>
        if bound != projection || !env.verifyProof(projection, proof) then Fail(Unauthorized) else Pass
      case TransferAuthenticatedBytes(_, _, _, wire, proof, context) =>
        match env.decodeWire(wire)
        case None => Fail(WireVerifyFailed)
        case Some(projection) =>
          if projection != bound then Fail(Unauthorized)
          else if env.verifyWire(wire, proof, context) != Some(true) then Fail(WireVerifyFailed)
          else Pass
  }

  function Step(env: LedgerEnv, v: Vault, op: Op): (Outcome<LedgerError>, Vault) {
    match op
    case InitVault(key) => if env.validKey(key) then (Pass, v.(serverKey := Some(key))) else (Fail(Deser), v)
    case Register(id, ct) =>
      if |id| != 32 then (Fail(Deser), v)
      else (Pass, v.(state := Some(Opened(v).(balances := Opened(v).balances + [(id, ct)]))))
    case RegisterWithIdentity(projection, ct) =>
      if !env.decodes(projection) then (Fail(Deser), v)
      else
        var id := DeriveVaultId(env.H, projection);
        (Pass, v.(state := Some(VaultState(Opened(v).balances + [(id, ct)], Opened(v).identityProjections + [(id, projection)]))))
    case Transfer(sender, receiver, amount) => TransferStep(env, v, sender, receiver, amount)
    case TransferAuthenticated(sender, receiver, amount, _, _) =>
      (match Authenticate(env, v, op)
       case Fail(e) => (Fail(e), v)
       case Pass => TransferStep(env, v, sender, receiver, amount))
    case TransferAuthenticatedBytes(sender, receiver, amount, _, _, _) =>
      (match Authenticate(env, v, op)
       case Fail(e) => (Fail(e), v)
       case Pass => TransferStep(env, v, sender, receiver, amount))
    case Import(bytes) =>
      if bytes == [] || bytes[0] != VAULT_STATE_VERSION then (Fail(Deser), v)
      else
        match env.decode(bytes[1..])
        case None => (Fail(Deser), v)
        case Some(st) => (Pass, v.(state := Some(st)))
  }

  function Export(env: LedgerEnv, v: Vault): Bytes {
    match v.state
    case None => []
    case Some(st) => [VAULT_STATE_VERSION] + env.encode(st)
  }

  /** An operation's outcome as its caller sees it. */
  function Coded(step: (Outcome<LedgerError>, Vault)): (nat, Vault) { (ReturnCode(step.0), step.1) }

  /** The thread-local cells and the functions that update them in place. */
  class VaultLedger {
    const env: LedgerEnv
    var state: Option<VaultState>
    var serverKey: Option<Bytes>

    function Value(): Vault
      reads this
    {
      Vault(state, serverKey)
    }

    constructor (env: LedgerEnv)
      ensures this.env == env && Value() == Vault(None, None)
    {
      this.env := env;
      state, serverKey := None, None;
    }

    method Init(key: Bytes) returns (code: nat)
      modifies this
      ensures (code, Value()) == Coded(Step(env, old(Value()), InitVault(key)))
    {
      if !env.validKey(key) {
        return ERR_DESER;
      }
      serverKey := Some(key);
      return ERR_OK;
    }

    method OpenState()
      modifies this
      ensures state == Some(Opened(old(Value()))) && serverKey == old(serverKey)
    {
      if state.None? {
        state := Some(VaultState([], []));
      }
    }

    method RegisterVaultCiphertext(vaultId: Bytes, ct: Bytes) returns (code: nat)
      modifies this
      ensures (code, Value()) == Coded(Step(env, old(Value()), Register(vaultId, ct)))
    {
      if |vaultId| != 32 {
        return ERR_DESER;
      }
      OpenState();
      state := Some(state.value.(balances := state.value.balances + [(vaultId, ct)]));
      return ERR_OK;
    }

    method RegisterVaultWithIdentity(projection: Bytes, ct: Bytes) returns (r: Result<Id, nat>)
      modifies this
      ensures (if r.Ok? then ERR_OK else r.error, Value()) == Coded(Step(env, old(Value()), RegisterWithIdentity(projection, ct)))
      ensures r.Ok? ==> r.value == DeriveVaultId(env.H, projection)
    {
      hide DeriveVaultId;
      if !env.decodes(projection) {
        return Err(ERR_DESER);
      }
      var vaultId := DeriveVaultId(env.H, projection);
      OpenState();
      state := Some(state.value.(balances := state.value.balances + [(vaultId, ct)]));
      state := Some(state.value.(identityProjections := state.value.identityProjections + [(vaultId, projection)]));
      return Ok(vaultId);
    }

    method HomomorphicTransfer(sender: Bytes, receiver: Bytes, amount: Bytes) returns (code: nat)
      modifies this
      ensures (code, Value()) == Coded(Step(env, old(Value()), Transfer(sender, receiver, amount)))
    {
      if |sender| != 32 || |receiver| != 32 {
        return ERR_DESER;
      }
      if state.None? {
        return ERR_NOT_FOUND;
      }
      var si := Position(state.value.balances, sender);
      var ri := Position(state.value.balances, receiver);
      if si.None? || ri.None? {
        return ERR_NOT_FOUND;
      }
      var result := env.compute(serverKey, state.value.balances[si.value].1, state.value.balances[ri.value].1, amount);
      match result {
        case Err(e) =>
          return ReturnCode(Fail(e));
        case Ok((newSender, newReceiver)) =>
          state := Some(state.value.(balances := Replace(state.value.balances, si.value, newSender)));
          state := Some(state.value.(balances := Replace(state.value.balances, ri.value, newReceiver)));
          return ERR_OK;
      }
    }

    method HomomorphicTransferAuthenticated(sender: Id, receiver: Id, amount: Bytes, projection: Bytes, proof: Bytes)
      returns (code: nat)
      modifies this
      ensures (code, Value()) == Coded(Step(env, old(Value()), TransferAuthenticated(sender, receiver, amount, projection, proof)))
    {
      var bound := if state.None? then None else Lookup(state.value.identityProjections, sender);
      if bound.None? {
        return ERR_UNAUTHORIZED;
      }
      if bound.value != projection {
        return ERR_UNAUTHORIZED;
      }
      if !env.verifyProof(projection, proof) {
        return ERR_UNAUTHORIZED;
      }
      code := HomomorphicTransfer(sender, receiver, amount);
    }

    method HomomorphicTransferAuthenticatedBytes(sender: Id, receiver: Id, amount: Bytes, wire: Bytes, proof: Bytes, context: Bytes)
      returns (code: nat)
      modifies this
      ensures (code, Value()) == Coded(Step(env, old(Value()), TransferAuthenticatedBytes(sender, receiver, amount, wire, proof, context)))
    {
      var bound := if state.None? then None else Lookup(state.value.identityProjections, sender);
      if bound.None? {
        return ERR_UNAUTHORIZED;
      }
      var projection := env.decodeWire(wire);
      if projection.None? {
        return ERR_WIRE_VERIFY_FAILED;
      }
      if projection.value != bound.value {
        return ERR_UNAUTHORIZED;
      }
      if env.verifyWire(wire, proof, context) != Some(true) {
        return ERR_WIRE_VERIFY_FAILED;
      }
      code := HomomorphicTransfer(sender, receiver, amount);
    }

    method GetBalance(vaultId: Bytes) returns (ct: Option<Bytes>)
      ensures ct == Lookup(Opened(Value()).balances, vaultId)
    {
      if state.None? {
        return None;
      }
      return Lookup(state.value.balances, vaultId);
    }

    method ExportState() returns (bytes: Bytes)
      ensures bytes == Export(env, Value())
    {
      if state.None? {
        return [];
      }
      bytes := [VAULT_STATE_VERSION];
      bytes := bytes + env.encode(state.value);
    }

    method ImportState(bytes: Bytes) returns (code: nat)
      modifies this
      ensures (code, Value()) == Coded(Step(env, old(Value()), Import(bytes)))
    {
      if bytes == [] || bytes[0] != VAULT_STATE_VERSION {
        return ERR_DESER;
      }
      var decoded := env.decode(bytes[1..]);
      if decoded.None? {
        return ERR_DESER;
      }
      state := Some(decoded.value);
      return ERR_OK;
    }
  }
}
