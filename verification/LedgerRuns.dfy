/** Runs of the confidential ledger: the list refines a map, transfers conserve the total, and identity bindings
    hold. */
module LedgerRuns {
  import opened Wrappers
  import opened Words
  import opened Statements
  import opened Ledger

  function Run(env: LedgerEnv, v: Vault, ops: seq<Op>): Vault {
    if ops == [] then v else Step(env, Run(env, v, ops[..|ops| - 1]), ops[|ops| - 1]).1
  }

  lemma FailingStepsChangeNothing(env: LedgerEnv, v: Vault, op: Op)
    requires Step(env, v, op).0.Fail?
    ensures Step(env, v, op).1 == v
  {
    hide Position, Lookup, DeriveVaultId, Authenticate;
  }

  /** The operations of a run that returned OK. */
  function Succeeding(env: LedgerEnv, v: Vault, ops: seq<Op>): seq<Op> {
    if ops == [] then [] else
    var init, last := ops[..|ops| - 1], ops[|ops| - 1];
    var before := Succeeding(env, v, init);
    if Step(env, Run(env, v, init), last).0.Pass? then before + [last] else before
  }

  /** Failures leave no trace: a run ends where the run of its successful operations alone does, and those succeed
      there too. */
  lemma {:induction false} FailuresLeaveNoTrace(env: LedgerEnv, v: Vault, ops: seq<Op>)
    ensures Run(env, v, Succeeding(env, v, ops)) == Run(env, v, ops)
    ensures Succeeding(env, v, Succeeding(env, v, ops)) == Succeeding(env, v, ops)
  {
    hide Step;
    if ops != [] {
      var init, last := ops[..|ops| - 1], ops[|ops| - 1];
      FailuresLeaveNoTrace(env, v, init);
      var before := Succeeding(env, v, init);
      assert (before + [last])[..|before|] == before;
      if Step(env, Run(env, v, init), last).0.Fail? {
        FailingStepsChangeNothing(env, Run(env, v, init), last);
      }
    }
  }

  // ── First registration wins ────────────────────────────────────────────────

  /** What an association list means to its readers: the first entry of each id. */
  function AsMap(entries: seq<Entry>): map<Bytes, Bytes> {
    if entries == [] then map[] else AsMap(entries[1..])[entries[0].0 := entries[0].1]
  }

  function In(m: map<Bytes, Bytes>, id: Bytes): Option<Bytes> {
    if id in m then Some(m[id]) else None
  }

  function PutNew(m: map<Bytes, Bytes>, id: Bytes, bytes: Bytes): map<Bytes, Bytes> {
    if id in m then m else m[id := bytes]
  }

  lemma {:induction false} LookupIsIn(entries: seq<Entry>, id: Bytes)
    ensures Lookup(entries, id) == In(AsMap(entries), id)
  {
    if entries != [] {
      LookupIsIn(entries[1..], id);
    }
  }

  lemma {:induction false} AppendIsPutNew(entries: seq<Entry>, id: Id, bytes: Bytes)
    ensures AsMap(entries + [(id, bytes)]) == PutNew(AsMap(entries), id, bytes)
  {
    if entries == [] {
      assert (entries + [(id, bytes)])[1..] == [];
    } else {
      assert (entries + [(id, bytes)])[1..] == entries[1..] + [(id, bytes)];
      AppendIsPutNew(entries[1..], id, bytes);
    }
  }

  lemma {:induction false} ReplaceIsUpdate(entries: seq<Entry>, i: nat, bytes: Bytes)
    requires i < |entries| && Position(entries, entries[i].0) == Some(i)
    ensures AsMap(Replace(entries, i, bytes)) == AsMap(entries)[entries[i].0 := bytes]
  {
    if i == 0 {
      assert Replace(entries, i, bytes)[1..] == entries[1..];
    } else {
      assert Replace(entries, i, bytes)[1..] == Replace(entries[1..], i - 1, bytes);
      ReplaceIsUpdate(entries[1..], i - 1, bytes);
    }
  }

  lemma {:induction false} ReplaceKeepsPositions(entries: seq<Entry>, i: nat, bytes: Bytes, id: Bytes)
    requires i < |entries|
    ensures Position(Replace(entries, i, bytes), id) == Position(entries, id)
  {
    var after := Replace(entries, i, bytes);
    if i == 0 {
      assert after[1..] == entries[1..];
    } else {
      assert after[1..] == Replace(entries[1..], i - 1, bytes);
      ReplaceKeepsPositions(entries[1..], i - 1, bytes, id);
    }
  }

  /** The ledger a client sees: one balance per id, one bound projection per id. */
  datatype Accounts = Accounts(balances: map<Bytes, Bytes>, projections: map<Bytes, Bytes>, serverKey: Option<Bytes>)

  function Abstract(v: Vault): Accounts {
    Accounts(AsMap(Opened(v).balances), AsMap(Opened(v).identityProjections), v.serverKey)
  }

  function AccountsTransfer(env: LedgerEnv, m: Accounts, sender: Bytes, receiver: Bytes, amount: Bytes): (Outcome<LedgerError>, Accounts) {
    if |sender| != 32 || |receiver| != 32 then (Fail(Deser), m)
    else if sender !in m.balances || receiver !in m.balances then (Fail(NotFound), m)
    else
      match env.compute(m.serverKey, m.balances[sender], m.balances[receiver], amount)
      case Err(e) => (Fail(e), m)
      case Ok((s, r)) => (Pass, m.(balances := m.balances[sender := s][receiver := r]))
  }

  /** The operations on maps: a second registration of an id is answered with success and dropped. */
  function AccountsStep(env: LedgerEnv, m: Accounts, op: Op): (Outcome<LedgerError>, Accounts) {
    match op
    case InitVault(key) => if env.validKey(key) then (Pass, m.(serverKey := Some(key))) else (Fail(Deser), m)
    case Register(id, ct) =>
      if |id| != 32 then (Fail(Deser), m) else (Pass, m.(balances := PutNew(m.balances, id, ct)))
    case RegisterWithIdentity(p, ct) =>
      if !env.decodes(p) then (Fail(Deser), m)
      else
        var id := DeriveVaultId(env.H, p);
        (Pass, m.(balances := PutNew(m.balances, id, ct), projections := PutNew(m.projections, id, p)))
    case Transfer(s, r, t) => AccountsTransfer(env, m, s, r, t)
    case TransferAuthenticated(s, r, t, p, proof) =>
      if In(m.projections, s) == Some(p) && env.verifyProof(p, proof) then AccountsTransfer(env, m, s, r, t)
      else (Fail(Unauthorized), m)
    case TransferAuthenticatedBytes(s, r, t, wire, proof, context) =>
      if s !in m.projections then (Fail(Unauthorized), m)
      else if env.decodeWire(wire).None? then (Fail(WireVerifyFailed), m)
      else if env.decodeWire(wire).value != m.projections[s] then (Fail(Unauthorized), m)
      else if env.verifyWire(wire, proof, context) != Some(true) then (Fail(WireVerifyFailed), m)
      else AccountsTransfer(env, m, s, r, t)
    case Import(bytes) =>
      if bytes == [] || bytes[0] != VAULT_STATE_VERSION || env.decode(bytes[1..]).None? then (Fail(Deser), m)
      else
        var st := env.decode(bytes[1..]).value;
        (Pass, m.(balances := AsMap(st.balances), projections := AsMap(st.identityProjections)))
  }

  lemma TransferRefines(env: LedgerEnv, v: Vault, sender: Bytes, receiver: Bytes, amount: Bytes)
    ensures var (r, after) := TransferStep(env, v, sender, receiver, amount);
            AccountsTransfer(env, Abstract(v), sender, receiver, amount) == (r, Abstract(after))
  {
    hide AsMap, Position;
    var b := Opened(v).balances;
    LookupIsIn(b, sender);
    LookupIsIn(b, receiver);
    if TransferStep(env, v, sender, receiver, amount).0.Pass? {
      var si, ri := Position(b, sender).value, Position(b, receiver).value;
      var (s, r) := env.compute(v.serverKey, b[si].1, b[ri].1, amount).value;
      ReplaceIsUpdate(b, si, s);
      ReplaceKeepsPositions(b, si, s, receiver);
      ReplaceIsUpdate(Replace(b, si, s), ri, r);
    }
  }

  lemma StepRefines(env: LedgerEnv, v: Vault, op: Op)
    ensures var (r, after) := Step(env, v, op); AccountsStep(env, Abstract(v), op) == (r, Abstract(after))
  {
    hide AsMap, Position, PutNew, DeriveVaultId, TransferStep, AccountsTransfer, Lookup;
    match op {
      case InitVault(_) =>
      case Register(id, ct) =>
        if |id| == 32 {
          AppendIsPutNew(Opened(v).balances, id, ct);
        }
      case RegisterWithIdentity(p, ct) =>
        AppendIsPutNew(Opened(v).balances, DeriveVaultId(env.H, p), ct);
        AppendIsPutNew(Opened(v).identityProjections, DeriveVaultId(env.H, p), p);
      case Transfer(s, r, t) => TransferRefines(env, v, s, r, t);
      case TransferAuthenticated(s, r, t, _, _) =>
        LookupIsIn(Opened(v).identityProjections, s);
        TransferRefines(env, v, s, r, t);
      case TransferAuthenticatedBytes(s, r, t, _, _, _) =>
        LookupIsIn(Opened(v).identityProjections, s);
        TransferRefines(env, v, s, r, t);
      case Import(_) =>
    }
  }

  function AccountsRun(env: LedgerEnv, m: Accounts, ops: seq<Op>): Accounts {
    if ops == [] then m else AccountsStep(env, AccountsRun(env, m, ops[..|ops| - 1]), ops[|ops| - 1]).1
  }

  /** In every run the association list is the first-registration-wins map: same state, same answer to every
      operation, same balance read for every id. */
  lemma {:induction false} RunsRefineTheMap(env: LedgerEnv, v: Vault, ops: seq<Op>, next: Op, id: Bytes)
    ensures Abstract(Run(env, v, ops)) == AccountsRun(env, Abstract(v), ops)
    ensures Step(env, Run(env, v, ops), next).0 == AccountsStep(env, AccountsRun(env, Abstract(v), ops), next).0
    ensures Lookup(Opened(Run(env, v, ops)).balances, id) == In(AccountsRun(env, Abstract(v), ops).balances, id)
  {
    hide Step, AccountsStep, AsMap, Lookup, In;
    if ops != [] {
      var n := |ops| - 1;
      RunsRefineTheMap(env, v, ops[..n], ops[n], id);
      StepRefines(env, Run(env, v, ops[..n]), ops[n]);
    }
    StepRefines(env, Run(env, v, ops), next);
    LookupIsIn(Opened(Run(env, v, ops)).balances, id);
  }

  // ── Balances ───────────────────────────────────────────────────────────────

  /** The value a ciphertext decrypts to; malformed bytes are worth nothing. */
  function ValueOf(dec: Bytes -> Option<u64>, ct: Bytes): u64 {
    match dec(ct)
    case None => 0
    case Some(x) => x
  }

  function Total(dec: Bytes -> Option<u64>, entries: seq<Entry>): nat {
    if entries == [] then 0 else Total(dec, entries[..|entries| - 1]) + ValueOf(dec, entries[|entries| - 1].1)
  }

  /** What the balances that can be read add up to: an entry counts if it is the first of its id. */
  function FirstEntriesTotal(dec: Bytes -> Option<u64>, entries: seq<Entry>): nat {
    if entries == [] then 0 else
    var init, last := entries[..|entries| - 1], entries[|entries| - 1];
    FirstEntriesTotal(dec, init) + if Position(init, last.0).None? then ValueOf(dec, last.1) else 0
  }

  function VaultTotal(dec: Bytes -> Option<u64>, v: Vault): nat { Total(dec, Opened(v).balances) }

  function ReadableTotal(dec: Bytes -> Option<u64>, v: Vault): nat { FirstEntriesTotal(dec, Opened(v).balances) }

  /** The decrypted balance of an id. */
  function Balance(dec: Bytes -> Option<u64>, v: Vault, id: Bytes): Option<u64> {
    match Lookup(Opened(v).balances, id)
    case None => None
    case Some(ct) => Some(ValueOf(dec, ct))
  }

  lemma {:induction false} TotalAfterReplace(dec: Bytes -> Option<u64>, entries: seq<Entry>, i: nat, bytes: Bytes)
    requires i < |entries|
    ensures Total(dec, Replace(entries, i, bytes)) == Total(dec, entries) - ValueOf(dec, entries[i].1) + ValueOf(dec, bytes)
    ensures ValueOf(dec, entries[i].1) <= Total(dec, entries)
  {
    var n := |entries| - 1;
    if i == n {
      assert Replace(entries, i, bytes)[..n] == entries[..n];
    } else {
      assert Replace(entries, i, bytes)[..n] == Replace(entries[..n], i, bytes);
      TotalAfterReplace(dec, entries[..n], i, bytes);
    }
  }

  lemma {:induction false} FirstEntriesTotalAfterReplace(dec: Bytes -> Option<u64>, entries: seq<Entry>, i: nat, bytes: Bytes)
    requires i < |entries| && Position(entries, entries[i].0) == Some(i)
    ensures FirstEntriesTotal(dec, Replace(entries, i, bytes))
         == FirstEntriesTotal(dec, entries) - ValueOf(dec, entries[i].1) + ValueOf(dec, bytes)
    ensures ValueOf(dec, entries[i].1) <= FirstEntriesTotal(dec, entries)
  {
    hide Position, ValueOf;
    var n := |entries| - 1;
    var init, last := entries[..n], entries[n];
    if i == n {
      assert Replace(entries, i, bytes)[..n] == init;
      PositionInPrefix(entries, n, last.0);
    } else {
      assert Replace(entries, i, bytes)[..n] == Replace(init, i, bytes);
      PositionInPrefix(entries, n, entries[i].0);
      ReplaceKeepsPositions(init, i, bytes, last.0);
      FirstEntriesTotalAfterReplace(dec, init, i, bytes);
    }
  }

  lemma PositionInPrefix(entries: seq<Entry>, n: nat, id: Bytes)
    requires n <= |entries|
    ensures Position(entries[..n], id) == if Position(entries, id).Some? && Position(entries, id).value < n then Position(entries, id) else None
  {
    var p, q := Position(entries[..n], id), Position(entries, id);
    hide Position;
    if p.Some? {
      assert entries[p.value].0 == id;
    }
    if q.Some? && q.value < n {
      assert entries[..n][q.value].0 == id;
    }
  }

  lemma LookupAfterReplace(entries: seq<Entry>, i: nat, bytes: Bytes, id: Bytes)
    requires i < |entries|
    ensures Lookup(Replace(entries, i, bytes), id) == if Position(entries, id) == Some(i) then Some(bytes) else Lookup(entries, id)
  {
    ReplaceKeepsPositions(entries, i, bytes, id);
  }

  /** A transfer between distinct ids that returns OK moves all of the amount or nothing, wraps nowhere while the
      balances that can be read add up to 64 bits, leaves every other balance as it was, and keeps both totals. */
  lemma TransfersMoveExactly(env: LedgerEnv, dec: Bytes -> Option<u64>, v: Vault, sender: Bytes, receiver: Bytes, amount: Bytes)
    requires ComputesTransfers(env.compute, v.serverKey, dec) && ReadableTotal(dec, v) <= U64_MAX
    requires TransferStep(env, v, sender, receiver, amount).0.Pass? && sender != receiver
    ensures Balance(dec, v, sender).Some? && Balance(dec, v, receiver).Some? && dec(amount).Some?
    ensures var after := TransferStep(env, v, sender, receiver, amount).1;
            var s, r := Balance(dec, v, sender).value, Balance(dec, v, receiver).value;
            var moved := Moved(s, dec(amount).value);
            && r + moved <= U64_MAX
            && (forall id :: Balance(dec, after, id) == if id == sender then Some(s - moved)
                                                        else if id == receiver then Some(r + moved)
                                                        else Balance(dec, v, id))
            && VaultTotal(dec, after) == VaultTotal(dec, v) && ReadableTotal(dec, after) == ReadableTotal(dec, v)
  {
    hide Total, FirstEntriesTotal, Position, ComputesTransfers, ValueOf, Moved;
    var b := Opened(v).balances;
    var si, ri := Position(b, sender).value, Position(b, receiver).value;
    var (newSender, newReceiver) := env.compute(v.serverKey, b[si].1, b[ri].1, amount).value;
    ComputedValues(env.compute, v.serverKey, dec, b[si].1, b[ri].1, amount);
    TotalAfterTwoWrites(dec, b, si, ri, newSender, newReceiver);
    FirstEntriesTotalAfterTwoWrites(dec, b, si, ri, newSender, newReceiver);
    WordsDoNotWrap(ValueOf(dec, b[ri].1) + Moved(ValueOf(dec, b[si].1), dec(amount).value));
    forall id
      ensures Lookup(Replace(Replace(b, si, newSender), ri, newReceiver), id) ==
                if id == sender then Some(newSender) else if id == receiver then Some(newReceiver) else Lookup(b, id)
    {
      LookupAfterReplace(b, si, newSender, id);
      LookupAfterReplace(Replace(b, si, newSender), ri, newReceiver, id);
      ReplaceKeepsPositions(b, si, newSender, id);
    }
  }

  lemma ComputedValues(compute: Computation, key: Option<Bytes>, dec: Bytes -> Option<u64>, s: Bytes, r: Bytes, t: Bytes)
    requires ComputesTransfers(compute, key, dec) && compute(key, s, r, t).Ok?
    ensures dec(t).Some?
    ensures var (x, y) := compute(key, s, r, t).value;
            var moved := Moved(ValueOf(dec, s), dec(t).value);
            ValueOf(dec, x) == ValueOf(dec, s) - moved && ValueOf(dec, y) == Wrap(ValueOf(dec, r) + moved)
  {
    hide Wrap, Moved;
  }

  lemma TotalAfterTwoWrites(dec: Bytes -> Option<u64>, b: seq<Entry>, si: nat, ri: nat, x: Bytes, y: Bytes)
    requires si < |b| && ri < |b| && si != ri
    ensures Total(dec, Replace(Replace(b, si, x), ri, y))
         == Total(dec, b) - ValueOf(dec, b[si].1) - ValueOf(dec, b[ri].1) + ValueOf(dec, x) + ValueOf(dec, y)
  {
    hide Total, ValueOf;
    TotalAfterReplace(dec, b, si, x);
    TotalAfterReplace(dec, Replace(b, si, x), ri, y);
  }

  lemma FirstEntriesTotalAfterTwoWrites(dec: Bytes -> Option<u64>, b: seq<Entry>, si: nat, ri: nat, x: Bytes, y: Bytes)
    requires si < |b| && ri < |b| && si != ri && Position(b, b[si].0) == Some(si) && Position(b, b[ri].0) == Some(ri)
    ensures FirstEntriesTotal(dec, Replace(Replace(b, si, x), ri, y))
         == FirstEntriesTotal(dec, b) - ValueOf(dec, b[si].1) - ValueOf(dec, b[ri].1) + ValueOf(dec, x) + ValueOf(dec, y)
    ensures ValueOf(dec, b[si].1) + ValueOf(dec, b[ri].1) <= FirstEntriesTotal(dec, b) + ValueOf(dec, x)
  {
    hide FirstEntriesTotal, ValueOf, Position;
    ReplaceKeepsPositions(b, si, x, b[ri].0);
    FirstEntriesTotalAfterReplace(dec, b, si, x);
    FirstEntriesTotalAfterReplace(dec, Replace(b, si, x), ri, y);
  }

  /** When a transfer succeeds with a sender whose balance is short, no balance changes. */
  lemma ShortBalancesMoveNothing(env: LedgerEnv, dec: Bytes -> Option<u64>, v: Vault, sender: Bytes, receiver: Bytes, amount: Bytes)
    requires ComputesTransfers(env.compute, v.serverKey, dec)
    requires TransferStep(env, v, sender, receiver, amount).0.Pass?
    requires dec(amount).Some? && Balance(dec, v, sender).Some? && Balance(dec, v, sender).value < dec(amount).value
    ensures forall id :: Balance(dec, TransferStep(env, v, sender, receiver, amount).1, id) == Balance(dec, v, id)
  {
    hide Position;
    var b := Opened(v).balances;
    var si, ri := Position(b, sender).value, Position(b, receiver).value;
    var (newSender, newReceiver) := env.compute(v.serverKey, b[si].1, b[ri].1, amount).value;
    var middle := Replace(b, si, newSender);
    WordsDoNotWrap(dec(b[ri].1).value);
    assert dec(newSender) == dec(b[si].1) && dec(newReceiver) == dec(b[ri].1);
    forall id
      ensures Balance(dec, TransferStep(env, v, sender, receiver, amount).1, id) == Balance(dec, v, id)
    {
      LookupAfterReplace(b, si, newSender, id);
      LookupAfterReplace(middle, ri, newReceiver, id);
      ReplaceKeepsPositions(b, si, newSender, id);
    }
  }

  // ── When a transfer returns OK ─────────────────────────────────────────────

  predicate BothRegistered(v: Vault, sender: Bytes, receiver: Bytes) {
    |sender| == 32 && |receiver| == 32
    && Lookup(Opened(v).balances, sender).Some? && Lookup(Opened(v).balances, receiver).Some?
  }

  /** A native transfer returns OK exactly when both ids are registered and the computation can be carried out. */
  lemma TfheTransferReturnsOkExactlyWhen<K, C(!new), F(!new)>(
    env: LedgerEnv, f: Tfhe<K, C, F>, v: Vault, sender: Bytes, receiver: Bytes, amount: Bytes)
    requires forall k, s, r, t :: env.compute(k, s, r, t) == f.Compute(k, s, r, t)
    ensures TransferStep(env, v, sender, receiver, amount).0.Pass? <==>
              (BothRegistered(v, sender, receiver)
               && f.Answers(v.serverKey, Lookup(Opened(v).balances, sender).value, Lookup(Opened(v).balances, receiver).value, amount))
    ensures TransferStep(env, v, sender, receiver, amount).0 ==
              Refuse(|sender| != 32 || |receiver| != 32, Deser,
              Refuse(!BothRegistered(v, sender, receiver), NotFound,
              Refuse(v.serverKey.None?, InvalidKey,
              Refuse(!TransferStep(env, v, sender, receiver, amount).0.Pass?, Deser, Pass))))
    ensures (forall c :: f.serialize(c).Some?) ==>
              (TransferStep(env, v, sender, receiver, amount).0.Pass? <==>
                 (&& BothRegistered(v, sender, receiver)
                  && v.serverKey.Some? && f.loadKey(v.serverKey.value).Some?
                  && f.deserialize(Lookup(Opened(v).balances, sender).value).Some?
                  && f.deserialize(Lookup(Opened(v).balances, receiver).value).Some? && f.deserialize(amount).Some?))
  {
    hide Position;
  }

  /** So on the native build a short balance is answered with OK like any other, and no balance changes. */
  lemma TfheShortBalancesReturnOk<K, C(!new), F(!new)>(
    env: LedgerEnv, f: Tfhe<K, C, F>, plain: C -> u64, truth: F -> bool, v: Vault, sender: Bytes, receiver: Bytes, amount: Bytes)
    requires forall k, s, r, t :: env.compute(k, s, r, t) == f.Compute(k, s, r, t)
    requires BothRegistered(v, sender, receiver)
    requires f.Answers(v.serverKey, Lookup(Opened(v).balances, sender).value, Lookup(Opened(v).balances, receiver).value, amount)
    requires f.Lawful(f.loadKey(v.serverKey.value).value, plain, truth)
    requires var dec := (b: Bytes) => f.Dec(plain, b);
             dec(amount).Some? && Balance(dec, v, sender).Some? && Balance(dec, v, sender).value < dec(amount).value
    ensures TransferStep(env, v, sender, receiver, amount).0.Pass?
    ensures var dec := (b: Bytes) => f.Dec(plain, b);
            forall id :: Balance(dec, TransferStep(env, v, sender, receiver, amount).1, id) == Balance(dec, v, id)
  {
    var dec := (b: Bytes) => f.Dec(plain, b);
    TfheTransferReturnsOkExactlyWhen(env, f, v, sender, receiver, amount);
    TfheComputesTransfers(f, v.serverKey, plain, truth);
    hide Tfhe.Lawful, Tfhe.Compute, Tfhe.Dec, Tfhe.Answers, TransferStep, Balance, BothRegistered;
    SameComputation(env.compute, (k, s, r, t) => f.Compute(k, s, r, t), v.serverKey, dec);
    ShortBalancesMoveNothing(env, dec, v, sender, receiver, amount);
  }

  lemma SameComputation(a: Computation, b: Computation, key: Option<Bytes>, dec: Bytes -> Option<u64>)
    requires ComputesTransfers(b, key, dec) && forall k, s, r, t :: a(k, s, r, t) == b(k, s, r, t)
    ensures ComputesTransfers(a, key, dec)
  {
    hide TransferPlain;
  }

  /** On the wasm build, with a host that does not fail on well-formed
      ciphertexts, a transfer returns OK exactly when both ids are registered and the three
      ciphertexts are well formed. */
  lemma HostTransferReturnsOkExactlyWhen(
    env: LedgerEnv, h: Host, dec: Bytes -> Option<u64>, decBool: Bytes -> Option<bool>, v: Vault,
    sender: Bytes, receiver: Bytes, amount: Bytes)
    requires forall k, s, r, t :: env.compute(k, s, r, t) == h.Compute(k, s, r, t)
    requires h.Lawful(dec, decBool) && h.Answers(dec, decBool)
    ensures TransferStep(env, v, sender, receiver, amount).0.Pass? <==>
              (BothRegistered(v, sender, receiver) && dec(amount).Some?
               && dec(Lookup(Opened(v).balances, sender).value).Some? && dec(Lookup(Opened(v).balances, receiver).value).Some?)
    ensures TransferStep(env, v, sender, receiver, amount).0 ==
              Refuse(|sender| != 32 || |receiver| != 32, Deser,
              Refuse(!BothRegistered(v, sender, receiver), NotFound,
              Refuse(!TransferStep(env, v, sender, receiver, amount).0.Pass?, Deser, Pass)))
  {
    if BothRegistered(v, sender, receiver) {
      var s, r := Lookup(Opened(v).balances, sender).value, Lookup(Opened(v).balances, receiver).value;
      HostAnswersExactlyWhen(h, dec, decBool, s, r, amount);
      hide Host.Lawful, Host.Answers, Host.Transfer, Position;
    }
    hide Host.Lawful, Host.Answers, Host.Transfer, Position;
  }

  lemma HostAnswersExactlyWhen(
    h: Host, dec: Bytes -> Option<u64>, decBool: Bytes -> Option<bool>, s: Bytes, r: Bytes, t: Bytes)
    requires h.Lawful(dec, decBool) && h.Answers(dec, decBool)
    ensures h.Transfer(s, r, t).Some? <==> (dec(s).Some? && dec(r).Some? && dec(t).Some?)
  {
    hide Wrap;
    if h.Transfer(s, r, t).Some? {
      HostTransferIsPlain(h, dec, decBool, s, r, t);
    }
    if dec(s).Some? && dec(r).Some? && dec(t).Some? {
      var sufficient := h.ge(s, t);
      assert sufficient != [] && decBool(sufficient).Some?;
      var deduction := h.select(sufficient, t, h.zero);
      assert dec(h.zero) == Some(0) && deduction != [] && dec(deduction).Some?;
      assert h.sub(s, deduction) != [] && h.add(r, deduction) != [];
    }
  }

  /** And there too a short balance is answered with OK, and no balance changes. */
  lemma HostShortBalancesReturnOk(
    env: LedgerEnv, h: Host, dec: Bytes -> Option<u64>, decBool: Bytes -> Option<bool>, v: Vault,
    sender: Bytes, receiver: Bytes, amount: Bytes)
    requires forall k, s, r, t :: env.compute(k, s, r, t) == h.Compute(k, s, r, t)
    requires h.Lawful(dec, decBool) && h.Answers(dec, decBool)
    requires BothRegistered(v, sender, receiver) && dec(amount).Some?
    requires dec(Lookup(Opened(v).balances, sender).value).Some? && dec(Lookup(Opened(v).balances, receiver).value).Some?
    requires dec(Lookup(Opened(v).balances, sender).value).value < dec(amount).value
    ensures TransferStep(env, v, sender, receiver, amount).0.Pass?
    ensures forall id :: Balance(dec, TransferStep(env, v, sender, receiver, amount).1, id) == Balance(dec, v, id)
  {
    HostTransferReturnsOkExactlyWhen(env, h, dec, decBool, v, sender, receiver, amount);
    HostComputesTransfers(h, v.serverKey, dec, decBool);
    hide Host.Lawful, Host.Answers, Host.Compute, TransferStep, Position;
    SameComputation(env.compute, (k, s, r, t) => h.Compute(k, s, r, t), v.serverKey, dec);
    ShortBalancesMoveNothing(env, dec, v, sender, receiver, amount);
  }

  // ── Conservation ───────────────────────────────────────────────────────────

  /** To the same id the receiver's write lands last: the balance grows by what was moved, modulo 2^64. */
  lemma SelfTransfersMint(env: LedgerEnv, dec: Bytes -> Option<u64>, v: Vault, id: Bytes, amount: Bytes)
    requires ComputesTransfers(env.compute, v.serverKey, dec) && TransferStep(env, v, id, id, amount).0.Pass?
    ensures Balance(dec, v, id).Some? && dec(amount).Some?
    ensures var after := TransferStep(env, v, id, id, amount).1;
            var s := Balance(dec, v, id).value;
            var minted := Moved(s, dec(amount).value);
            && Balance(dec, after, id) == Some(Wrap(s + minted))
            && VaultTotal(dec, after) == VaultTotal(dec, v) - s + Wrap(s + minted)
            && ReadableTotal(dec, after) == ReadableTotal(dec, v) - s + Wrap(s + minted)
            && (ReadableTotal(dec, after) == ReadableTotal(dec, v) <==> minted == 0)
  {
    hide Total, FirstEntriesTotal, Position;
    var b := Opened(v).balances;
    var i := Position(b, id).value;
    var (newSender, newReceiver) := env.compute(v.serverKey, b[i].1, b[i].1, amount).value;
    TotalAfterReplace(dec, b, i, newSender);
    TotalAfterReplace(dec, Replace(b, i, newSender), i, newReceiver);
    LookupAfterReplace(b, i, newSender, id);
    ReplaceKeepsPositions(b, i, newSender, id);
    FirstEntriesTotalAfterReplace(dec, b, i, newSender);
    FirstEntriesTotalAfterReplace(dec, Replace(b, i, newSender), i, newReceiver);
    LookupAfterReplace(Replace(b, i, newSender), i, newReceiver, id);
  }

  /** The id an operation registers, if it registers one. */
  function RegisteredId(env: LedgerEnv, v: Vault, op: Op): Option<Id> {
    if Step(env, v, op).0.Fail? then None
    else match op
      case Register(id, _) => Some(id)
      case RegisterWithIdentity(projection, _) => Some(DeriveVaultId(env.H, projection))
      case _ => None
  }

  function Deposit(env: LedgerEnv, dec: Bytes -> Option<u64>, v: Vault, op: Op): nat {
    if RegisteredId(env, v, op).None? then 0 else ValueOf(dec, op.ct)
  }

  /** A deposit counts for a reader if its id was not registered before. */
  function FirstDeposit(env: LedgerEnv, dec: Bytes -> Option<u64>, v: Vault, op: Op): nat {
    var id := RegisteredId(env, v, op);
    if id.None? || Lookup(Opened(v).balances, id.value).Some? then 0 else ValueOf(dec, op.ct)
  }

  /** Everything ever registered in a run, including registrations a reader never sees. */
  function Registered(env: LedgerEnv, dec: Bytes -> Option<u64>, v: Vault, ops: seq<Op>): nat {
    if ops == [] then 0 else
    var init := ops[..|ops| - 1];
    Registered(env, dec, v, init) + Deposit(env, dec, Run(env, v, init), ops[|ops| - 1])
  }

  /** What was registered under ids not registered before. */
  function FirstRegistered(env: LedgerEnv, dec: Bytes -> Option<u64>, v: Vault, ops: seq<Op>): nat {
    if ops == [] then 0 else
    var init := ops[..|ops| - 1];
    FirstRegistered(env, dec, v, init) + FirstDeposit(env, dec, Run(env, v, init), ops[|ops| - 1])
  }

  lemma AppendedEntry(dec: Bytes -> Option<u64>, entries: seq<Entry>, id: Id, ct: Bytes)
    ensures var after := entries + [(id, ct)];
            && Total(dec, after) == Total(dec, entries) + ValueOf(dec, ct)
            && FirstEntriesTotal(dec, after) == FirstEntriesTotal(dec, entries) + (if Lookup(entries, id).None? then ValueOf(dec, ct) else 0)
            && forall x :: Lookup(entries, x).Some? ==> Lookup(after, x) == Lookup(entries, x)
  {
    var after := entries + [(id, ct)];
    assert after[..|entries|] == entries;
    forall x | Lookup(entries, x).Some?
      ensures Lookup(after, x) == Lookup(entries, x)
    {
      PositionInPrefix(after, |entries|, x);
      hide Position;
    }
  }

  /** A second registration of an id succeeds, its deposit is held, and no reader ever notices. */
  lemma SecondRegistrationsAreInvisible(env: LedgerEnv, dec: Bytes -> Option<u64>, v: Vault, op: Op)
    requires RegisteredId(env, v, op).Some? && Lookup(Opened(v).balances, RegisteredId(env, v, op).value).Some?
    ensures var after := Step(env, v, op).1;
            && Step(env, v, op).0.Pass?
            && VaultTotal(dec, after) == VaultTotal(dec, v) + ValueOf(dec, op.ct)
            && ReadableTotal(dec, after) == ReadableTotal(dec, v)
            && forall id :: Balance(dec, after, id) == Balance(dec, v, id)
  {
    var id := RegisteredId(env, v, op).value;
    var entries := Opened(v).balances;
    AppendedEntry(dec, entries, id, op.ct);
    AppendIsPutNew(entries, id, op.ct);
    LookupIsIn(entries, id);
    forall x
      ensures Lookup(entries + [(id, op.ct)], x) == Lookup(entries, x)
    {
      LookupIsIn(entries, x);
      LookupIsIn(entries + [(id, op.ct)], x);
      hide Lookup, AsMap;
    }
    hide Lookup, AsMap, Total, FirstEntriesTotal, DeriveVaultId, ValueOf;
  }

  /** No import, and no transfer from an id to itself. */
  predicate Conserving(op: Op) {
    match op
    case Import(_) => false
    case Transfer(s, r, _) => s != r
    case TransferAuthenticated(s, r, _, _, _) => s != r
    case TransferAuthenticatedBytes(s, r, _, _, _, _) => s != r
    case _ => true
  }

  /** Every server key this run can come to hold computes transfers of the values `dec` decrypts. */
  ghost predicate KeysAreRight(env: LedgerEnv, dec: Bytes -> Option<u64>, ops: seq<Op>) {
    ComputesTransfers(env.compute, None, dec)
    && forall op :: op in ops && op.InitVault? && env.validKey(op.key) ==> ComputesTransfers(env.compute, Some(op.key), dec)
  }

  lemma StepConserves(env: LedgerEnv, dec: Bytes -> Option<u64>, v: Vault, op: Op)
    requires ComputesTransfers(env.compute, v.serverKey, dec) && ReadableTotal(dec, v) <= U64_MAX && Conserving(op)
    ensures VaultTotal(dec, Step(env, v, op).1) == VaultTotal(dec, v) + Deposit(env, dec, v, op)
    ensures ReadableTotal(dec, Step(env, v, op).1) == ReadableTotal(dec, v) + FirstDeposit(env, dec, v, op)
  {
    hide ComputesTransfers, TransferStep, DeriveVaultId, Lookup, Total, FirstEntriesTotal, ValueOf, Authenticate;
    match op {
      case Register(id, ct) =>
        if |id| == 32 {
          AppendedEntry(dec, Opened(v).balances, id, ct);
        }
      case RegisterWithIdentity(p, ct) => AppendedEntry(dec, Opened(v).balances, DeriveVaultId(env.H, p), ct);
      case Transfer(s, r, t) => TransferConserves(env, dec, v, s, r, t);
      case TransferAuthenticated(s, r, t, _, _) => TransferConserves(env, dec, v, s, r, t);
      case TransferAuthenticatedBytes(s, r, t, _, _, _) => TransferConserves(env, dec, v, s, r, t);
      case _ =>
    }
  }

  lemma TransferConserves(env: LedgerEnv, dec: Bytes -> Option<u64>, v: Vault, s: Bytes, r: Bytes, t: Bytes)
    requires ComputesTransfers(env.compute, v.serverKey, dec) && ReadableTotal(dec, v) <= U64_MAX && s != r
    ensures VaultTotal(dec, TransferStep(env, v, s, r, t).1) == VaultTotal(dec, v)
    ensures ReadableTotal(dec, TransferStep(env, v, s, r, t).1) == ReadableTotal(dec, v)
  {
    hide ComputesTransfers, Position, Total, FirstEntriesTotal;
    if TransferStep(env, v, s, r, t).0.Pass? {
      TransfersMoveExactly(env, dec, v, s, r, t);
    }
  }

  /** Over every run without imports and without transfers from an id to itself, whoever calls and however calls
      fail: the balances that can be read add up to exactly what was registered under ids new at the time, if that fits
      64 bits, and the ledger as a whole holds exactly all that was registered. */
  lemma {:induction false} TotalIsWhatWasRegistered(env: LedgerEnv, dec: Bytes -> Option<u64>, ops: seq<Op>)
    requires KeysAreRight(env, dec, ops) && forall op :: op in ops ==> Conserving(op)
    requires FirstRegistered(env, dec, Vault(None, None), ops) <= U64_MAX
    ensures ReadableTotal(dec, Run(env, Vault(None, None), ops)) == FirstRegistered(env, dec, Vault(None, None), ops)
    ensures VaultTotal(dec, Run(env, Vault(None, None), ops)) == Registered(env, dec, Vault(None, None), ops)
    ensures ComputesTransfers(env.compute, Run(env, Vault(None, None), ops).serverKey, dec)
  {
    hide ComputesTransfers, Conserving, Deposit, FirstDeposit, Step;
    if ops != [] {
      var init, last := ops[..|ops| - 1], ops[|ops| - 1];
      var v := Run(env, Vault(None, None), init);
      TotalIsWhatWasRegistered(env, dec, init);
      StepConserves(env, dec, v, last);
      KeyAfterStep(env, v, last);
    }
  }

  lemma KeyAfterStep(env: LedgerEnv, v: Vault, op: Op)
    ensures || Step(env, v, op).1.serverKey == v.serverKey
            || (op.InitVault? && env.validKey(op.key) && Step(env, v, op).1.serverKey == Some(op.key))
  {
    hide Position, Lookup, DeriveVaultId, Authenticate;
  }

  // ── Identity bindings ──────────────────────────────────────────────────────

  /** Every binding is to the id derived from its projection, and that id has a balance. */
  predicate BindingsHold(env: LedgerEnv, st: VaultState) {
    forall i :: 0 <= i < |st.identityProjections| ==>
      var (id, projection) := st.identityProjections[i];
      id == DeriveVaultId(env.H, projection) && env.decodes(projection) && exists j :: 0 <= j < |st.balances| && st.balances[j].0 == id
  }

  /** What is persisted and what is taken back: nothing for a ledger never used, otherwise the byte 2 and the encoded
      state; and only a text that begins with the byte 2 and goes on with a decodable state is accepted. */
  lemma SnapshotsAreVersioned(env: LedgerEnv, v: Vault, bytes: Bytes)
    ensures v.state.None? ==> Export(env, v) == []
    ensures v.state.Some? ==> Export(env, v) == [2] + env.encode(v.state.value)
    ensures Step(env, v, Import(bytes)) ==
              if bytes != [] && bytes[0] == 2 && env.decode(bytes[1..]).Some? then (Pass, v.(state := env.decode(bytes[1..])))
              else (Fail(Deser), v)
  {
  }

  /** The persisted form of a state reads back as that state, into any process, and leaves the process's key as it
      was: the key never travels. */
  lemma ExportImportRoundTrip(env: LedgerEnv, v: Vault, w: Vault)
    requires v.state.Some? && env.decode(env.encode(v.state.value)) == v.state
    ensures Step(env, w, Import(Export(env, v))) == (Pass, Vault(v.state, w.serverKey))
    ensures Export(env, v) == Export(env, v.(serverKey := w.serverKey))
  {
    assert Export(env, v)[1..] == env.encode(v.state.value);
  }

  lemma TransferKeepsBindings(env: LedgerEnv, v: Vault, s: Bytes, r: Bytes, t: Bytes)
    requires BindingsHold(env, Opened(v))
    ensures BindingsHold(env, Opened(TransferStep(env, v, s, r, t).1))
  {
    hide DeriveVaultId, Position;
    var after := Opened(TransferStep(env, v, s, r, t).1);
    assert after.identityProjections == Opened(v).identityProjections;
    assert |after.balances| == |Opened(v).balances| && forall j :: 0 <= j < |after.balances| ==> after.balances[j].0 == Opened(v).balances[j].0;
  }

  lemma StepKeepsBindings(env: LedgerEnv, v: Vault, op: Op)
    requires BindingsHold(env, Opened(v)) && !op.Import?
    ensures BindingsHold(env, Opened(Step(env, v, op).1))
  {
    hide DeriveVaultId, TransferStep, Authenticate;
    match op {
      case Register(id, ct) =>
        assert forall j :: 0 <= j < |Opened(v).balances| ==> Opened(Step(env, v, op).1).balances[j] == Opened(v).balances[j];
      case RegisterWithIdentity(p, ct) =>
        var after := Opened(Step(env, v, op).1);
        assert forall j :: 0 <= j < |Opened(v).balances| ==> after.balances[j] == Opened(v).balances[j];
        assert env.decodes(p) ==> after.balances[|Opened(v).balances|].0 == DeriveVaultId(env.H, p);
      case Transfer(s, r, t) => TransferKeepsBindings(env, v, s, r, t);
      case TransferAuthenticated(s, r, t, _, _) => TransferKeepsBindings(env, v, s, r, t);
      case TransferAuthenticatedBytes(s, r, t, _, _, _) => TransferKeepsBindings(env, v, s, r, t);
      case _ =>
    }
  }

  /** How a ledger came to be: a new process, any operation but an import, or the import, by any process, of what any
      other such ledger exported. */
  datatype History =
    | NewProcess
    | Then(before: History, op: Op)
    | Imported(before: History, source: History)
  {
    function State(env: LedgerEnv): Vault {
      match this
      case NewProcess => Vault(None, None)
      case Then(h, op) => Step(env, h.State(env), op).1
      case Imported(h, source) => Step(env, h.State(env), Import(Export(env, source.State(env)))).1
    }

    predicate IsGenuine() {
      match this
      case NewProcess => true
      case Then(h, op) => h.IsGenuine() && !op.Import?
      case Imported(h, source) => h.IsGenuine() && source.IsGenuine()
    }
  }

  lemma ImportKeepsBindings(env: LedgerEnv, w: Vault, source: Vault)
    requires source.state.Some? ==> env.decode(env.encode(source.state.value)) == source.state
    requires BindingsHold(env, Opened(w)) && BindingsHold(env, Opened(source))
    ensures BindingsHold(env, Opened(Step(env, w, Import(Export(env, source))).1))
  {
    hide BindingsHold;
    if source.state.Some? {
      ExportImportRoundTrip(env, source, w);
    }
  }

  /** However processes operate on their ledgers and load each other's snapshots, the bindings hold in all of them. */
  lemma {:induction false} BindingsHoldInEveryHistory(env: LedgerEnv, h: History)
    requires (forall st :: env.decode(env.encode(st)) == Some(st)) && h.IsGenuine()
    ensures BindingsHold(env, Opened(h.State(env)))
  {
    assert BindingsHold(env, VaultState([], []));
    hide BindingsHold, Step, Export;
    match h
    case NewProcess =>
    case Then(before, op) =>
      BindingsHoldInEveryHistory(env, before);
      StepKeepsBindings(env, before.State(env), op);
    case Imported(before, source) =>
      BindingsHoldInEveryHistory(env, before);
      BindingsHoldInEveryHistory(env, source);
      ImportKeepsBindings(env, before.State(env), source.State(env));
  }

  /** The projection an authenticated transfer was proved for. */
  function ProvedProjection(env: LedgerEnv, op: Op): Option<Bytes>
    requires op.TransferAuthenticated? || op.TransferAuthenticatedBytes?
  {
    match op
    case TransferAuthenticated(_, _, _, p, proof) => if env.verifyProof(p, proof) then Some(p) else None
    case TransferAuthenticatedBytes(_, _, _, wire, proof, context) =>
      if env.verifyWire(wire, proof, context) == Some(true) then env.decodeWire(wire) else None
  }

  predicate AuthenticatedAndDone(env: LedgerEnv, v: Vault, op: Op) {
    (op.TransferAuthenticated? || op.TransferAuthenticatedBytes?) && Step(env, v, op).0.Pass?
  }

  /** An authenticated transfer that succeeds was proved for the very projection its sender's id is derived from. */
  lemma AuthenticatedForTheSender(env: LedgerEnv, v: Vault, op: Op)
    requires AuthenticatedAndDone(env, v, op) && BindingsHold(env, Opened(v))
    ensures ProvedProjection(env, op).Some? && DeriveVaultId(env.H, ProvedProjection(env, op).value) == op.senderId
    ensures env.H(Ascii("AETHEL_VAULT_ID_V1") + ProvedProjection(env, op).value) == op.senderId
  {
    assert VaultIdPrefix() == Ascii("AETHEL_VAULT_ID_V1");
    hide TransferStep, Ascii, VaultIdPrefix;
    var projections := Opened(v).identityProjections;
    var i := Position(projections, op.senderId).value;
    assert projections[i].0 == op.senderId;
  }

  /** So at any two points at which the bindings hold, two projections that both authenticate a transfer of one vault are
      the same, or their derivations collide. */
  lemma AuthenticatedTransfersAreForOneIdentity(env: LedgerEnv, v: Vault, op: Op, w: Vault, op': Op)
    requires AuthenticatedAndDone(env, v, op) && BindingsHold(env, Opened(v))
    requires AuthenticatedAndDone(env, w, op') && BindingsHold(env, Opened(w))
    requires op.senderId == op'.senderId
    ensures ProvedProjection(env, op).Some? && ProvedProjection(env, op').Some?
    ensures var p, q := ProvedProjection(env, op).value, ProvedProjection(env, op').value;
            p == q || Collision(env.H, VaultIdPrefix() + p, VaultIdPrefix() + q)
  {
    AuthenticatedForTheSender(env, v, op);
    AuthenticatedForTheSender(env, w, op');
    hide AuthenticatedAndDone, BindingsHold, ProvedProjection, VaultIdPrefix;
    var p, q := ProvedProjection(env, op).value, ProvedProjection(env, op').value;
    if VaultIdPrefix() + p == VaultIdPrefix() + q {
      SamePrefix(VaultIdPrefix(), p, q);
    }
    assert DeriveVaultId(env.H, p) == DeriveVaultId(env.H, q);
  }

  lemma SamePrefix(prefix: Bytes, p: Bytes, q: Bytes)
    requires prefix + p == prefix + q
    ensures p == q
  {
    assert p == (prefix + p)[|prefix|..] && q == (prefix + q)[|prefix|..];
  }
}
