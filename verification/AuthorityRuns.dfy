/** One relying party over time: it takes in revocations and successions, decides authorisations, and starts and
    finishes approval checks over a nonce store it shares with others. */
module AuthorityRuns {
  import opened Wrappers
  import opened Words
  import opened Statements
  import opened Verifier
  import opened Decisions
  import opened ReplayProtocol

  /** What this relying party is, and whose revocations it recognises besides the holder's own. */
  datatype Party = Party(audience: Bytes, authorityKeys: set<Bytes>)

  /** An approval check is two events: the free checks, made with the revoked keys known when it starts, and the
      nonce claim that grants the approval. */
  datatype Event =
    | TakeRevocation(revocation: Revocation)
    | TakeSuccession(succession: Succession)
    | Attempt(delegation: Delegation, principals: set<Bytes>, delegateKey: Bytes, action: Bytes, amount: Option<u128>, now: u64)
    | StartApproval(delegation: Delegation, approval: Approval, params: VerifyParams, principals: set<Bytes>,
                    requestDigest: Bytes32, action: Bytes, approvedAmount: u128)
    | FinishApproval(start: nat)                             // the claim of the check that event `start` began
    | StoreBecomes(seen: map<Bytes32, u64>, storeTime: u64)  // others claim, the store forgets and its clock moves

  /** The key an event ends, if the statement verifies. */
  function EndedKey(V: SigCheck, party: Party, e: Event): Option<Bytes> {
    match e
    case TakeRevocation(r) => if VerifyRevocation(V, r, party.audience, party.authorityKeys).Pass? then Some(r.subjectKey) else None
    case TakeSuccession(s) => (match RetiredKey(V, s, party.audience) case Ok(k) => Some(k) case Err(_) => None)
    case _ => None
  }

  /** The request a started approval check goes on to claim for. */
  function ToRequest(e: Event, revoked: set<Bytes>): Request
    requires e.StartApproval?
  {
    ApprovalRequest(e.delegation, e.approval, e.params, e.principals, revoked, e.requestDigest, e.action, e.approvedAmount)
  }

  /** Whether an event's checks pass, given the revoked keys its caller passes: an attempt is then authorised, an
      approval check goes on to claim its nonce. */
  predicate Permits(V: SigCheck, H: Hash, party: Party, revoked: set<Bytes>, e: Event) {
    match e
    case Attempt(d, principals, delegateKey, action, amount, now) =>
      Authorise(V, d, party.audience, principals, revoked, delegateKey, action, amount, now).Ok?
    case StartApproval(_, _, _, _, _, _, _) => ToRequest(e, revoked).FreeChecks(V, H).Pass?
    case _ => false
  }

  predicate Names(e: Event, key: Bytes) {
    (e.Attempt? || e.StartApproval?) && (e.delegation.principalKey == key || e.delegation.delegateKey == key)
  }

  /** The keys seen ended after a history of events. */
  function RevokedAfter(V: SigCheck, party: Party, events: seq<Event>): set<Bytes> {
    if events == [] then {} else
    var before := RevokedAfter(V, party, events[..|events| - 1]);
    match EndedKey(V, party, events[|events| - 1])
    case None => before
    case Some(k) => before + {k}
  }

  /** Whether the check that event `s` began passed its free part. */
  predicate Passed(V: SigCheck, H: Hash, party: Party, events: seq<Event>, s: nat) {
    s < |events| && events[s].StartApproval? && Permits(V, H, party, RevokedAfter(V, party, events[..s]), events[s])
  }

  /** What event `j` claims when it finishes a check that passed and was not finished before. */
  function ClaimOf(V: SigCheck, H: Hash, party: Party, events: seq<Event>, j: nat): Option<Claim>
    requires j < |events|
  {
    match events[j]
    case FinishApproval(s) =>
      if s < j && Passed(V, H, party, events, s) && FinishApproval(s) !in events[..j] then Some(ToRequest(events[s], {}).ToClaim())
      else None
    case _ => None
  }

  /** The nonce store after the first `n` events. */
  function StoreAfter(V: SigCheck, H: Hash, party: Party, events: seq<Event>, n: nat): map<Bytes32, u64>
    requires n <= |events|
  {
    if n == 0 then map[] else
    var before := StoreAfter(V, H, party, events, n - 1);
    match ClaimOf(V, H, party, events, n - 1)
    case Some(c) => ClaimIn(H, before, c).1
    case None => if events[n - 1].StoreBecomes? then events[n - 1].seen else before
  }

  /** Event `j` grants the approval whose check event `s` began. */
  predicate Grants(V: SigCheck, H: Hash, party: Party, events: seq<Event>, s: nat, j: nat)
    requires j < |events|
  {
    && events[j] == FinishApproval(s)
    && ClaimOf(V, H, party, events, j).Some?
    && ClaimIn(H, StoreAfter(V, H, party, events, j), ClaimOf(V, H, party, events, j).value).0.Pass?
  }

  // ── When authority ends ────────────────────────────────────────────────────

  /** Some event before the `n`-th ended a key that `e` names. */
  predicate EndedBefore(V: SigCheck, party: Party, events: seq<Event>, n: nat, e: Event)
    requires n <= |events|
  {
    exists i :: 0 <= i < n && EndedKey(V, party, events[i]).Some? && Names(e, EndedKey(V, party, events[i]).value)
  }

  /** The keys seen ended are those some event ended. */
  lemma {:induction false} RevokedMeansEnded(V: SigCheck, party: Party, events: seq<Event>, n: nat, key: Bytes)
    requires n <= |events|
    ensures key in RevokedAfter(V, party, events[..n]) <==> exists i :: 0 <= i < n && EndedKey(V, party, events[i]) == Some(key)
  {
    hide EndedKey;
    if n > 0 {
      assert events[..n][..n - 1] == events[..n - 1];
      RevokedMeansEnded(V, party, events, n - 1, key);
    }
  }

  lemma PermitsMonotone(V: SigCheck, H: Hash, party: Party, revoked: set<Bytes>, e: Event)
    ensures Permits(V, H, party, revoked, e) <==>
              (Permits(V, H, party, {}, e) && e.delegation.principalKey !in revoked && e.delegation.delegateKey !in revoked)
  {
    hide VerifyDelegation, CheckEnvelope, CheckSignature, Delegation.Id;
  }

  /** An authorisation is refused, and an approval check stopped, for a key's sake exactly after that key's ending:
      whatever would pass with no key ended passes until a key of its delegation is, and never again. */
  lemma RefusedExactlyAfterAnEnding(V: SigCheck, H: Hash, party: Party, events: seq<Event>, n: nat, e: Event)
    requires n <= |events| && (e.Attempt? || e.StartApproval?)
    ensures Permits(V, H, party, RevokedAfter(V, party, events[..n]), e) <==>
              (Permits(V, H, party, {}, e) && !EndedBefore(V, party, events, n, e))
  {
    hide EndedKey, RevokedAfter, Permits;
    PermitsMonotone(V, H, party, RevokedAfter(V, party, events[..n]), e);
    RevokedMeansEnded(V, party, events, n, e.delegation.principalKey);
    RevokedMeansEnded(V, party, events, n, e.delegation.delegateKey);
  }

  /** Exactly when an approval is granted: its check would pass with no key ended, no key of its delegation was ended
      before the check started, it finishes once, and its nonce is unspent. An ending between start and finish is not
      in the condition. */
  lemma GrantedExactlyWhen(V: SigCheck, H: Hash, party: Party, events: seq<Event>, s: nat, j: nat)
    requires j < |events|
    ensures Grants(V, H, party, events, s, j) <==>
              (&& events[j] == FinishApproval(s) && FinishApproval(s) !in events[..j]
               && s < j && events[s].StartApproval? && Permits(V, H, party, {}, events[s])
               && !EndedBefore(V, party, events, s, events[s])
               && ToRequest(events[s], {}).ToClaim().StoreKey(H) !in StoreAfter(V, H, party, events, j))
  {
    if s < j && events[s].StartApproval? {
      RefusedExactlyAfterAnEnding(V, H, party, events, s, events[s]);
    }
    hide Permits, EndedBefore, RevokedAfter, StoreAfter, Claim.StoreKey, Request.ToClaim;
  }

  /** After a verified revocation of a key, or a verified succession away from it, no later event of any history
      authorises under a delegation naming that key, and every approval granted under one was started before. */
  lemma EndedKeysNeverActAgain(V: SigCheck, H: Hash, party: Party, events: seq<Event>, i: nat, j: nat, s: nat)
    requires i < |events| && j < |events| && EndedKey(V, party, events[i]).Some?
    ensures i < j && Names(events[j], EndedKey(V, party, events[i]).value)
        ==> !Permits(V, H, party, RevokedAfter(V, party, events[..j]), events[j])
    ensures Grants(V, H, party, events, s, j) && Names(events[s], EndedKey(V, party, events[i]).value) ==> s < i
  {
    assert s < |events| && events[s].StartApproval? ==> EndedKey(V, party, events[s]).None?;
    hide Permits, EndedKey, RevokedAfter, StoreAfter;
    if i < j && Names(events[j], EndedKey(V, party, events[i]).value) {
      RefusedExactlyAfterAnEnding(V, H, party, events, j, events[j]);
    }
    GrantedExactlyWhen(V, H, party, events, s, j);
  }

  /** And such a grant does happen: whatever check passes and whatever key of its delegation ends next, finishing the
      check grants the approval with that key already ended. */
  lemma ApprovalInFlightSurvivesAnEnding(V: SigCheck, H: Hash, party: Party, start: Event, ending: Event)
    requires start.StartApproval? && Permits(V, H, party, {}, start)
    requires EndedKey(V, party, ending).Some? && Names(start, EndedKey(V, party, ending).value)
    ensures var events := [start, ending, FinishApproval(0)];
            && Grants(V, H, party, events, 0, 2)
            && EndedKey(V, party, ending).value in RevokedAfter(V, party, events[..2])
            && !Permits(V, H, party, RevokedAfter(V, party, events[..2]), start)
  {
    var events := [start, ending, FinishApproval(0)];
    NothingClaimedYet(V, H, party, events);
    GrantedExactlyWhen(V, H, party, events, 0, 2);
    RevokedMeansEnded(V, party, events, 2, EndedKey(V, party, ending).value);
    RefusedExactlyAfterAnEnding(V, H, party, events, 2, start);
    hide Permits, RevokedAfter, StoreAfter, Claim.StoreKey, Request.ToClaim;
    assert events[1] == ending && ending in events;
  }

  lemma NothingClaimedYet(V: SigCheck, H: Hash, party: Party, events: seq<Event>)
    requires |events| == 3 && events[0].StartApproval? && EndedKey(V, party, events[1]).Some?
    ensures StoreAfter(V, H, party, events, 2) == map[]
  {
    hide Permits, RevokedAfter;
    assert StoreAfter(V, H, party, events, 1) == map[];
  }

  // ── At most once ───────────────────────────────────────────────────────────

  /** The store's clock after the first `n` events. */
  function StoreTime(events: seq<Event>, n: nat): u64
    requires n <= |events|
  {
    if n == 0 then 0 else if events[n - 1].StoreBecomes? then events[n - 1].storeTime else StoreTime(events, n - 1)
  }

  /** What the store owes its users: its clock does not step back, and whatever else happens to it, an entry stays as it
      is until its expiry. */
  predicate StoreKeepsUnexpired(V: SigCheck, H: Hash, party: Party, events: seq<Event>) {
    forall m :: 0 <= m < |events| && events[m].StoreBecomes? ==>
      && StoreTime(events, m) <= events[m].storeTime < U64_MAX
      && var before := StoreAfter(V, H, party, events, m);
         forall k :: k in before ==>
           (k in events[m].seen && events[m].seen[k] == before[k]) || before[k] <= events[m].storeTime
  }

  lemma {:induction false} StoreTimeIsBounded(V: SigCheck, H: Hash, party: Party, events: seq<Event>, n: nat)
    requires n <= |events| && StoreKeepsUnexpired(V, H, party, events)
    ensures StoreTime(events, n) < U64_MAX
  {
    if n > 0 {
      StoreTimeIsBounded(V, H, party, events, n - 1);
    }
  }

  /** One event on, an entry is still there or its time has come. */
  lemma EntryStays(V: SigCheck, H: Hash, party: Party, events: seq<Event>, n: nat, k: Bytes32, retention: u64)
    requires n < |events| && StoreKeepsUnexpired(V, H, party, events)
    requires var before := StoreAfter(V, H, party, events, n);
             (k in before && before[k] == retention) || retention <= StoreTime(events, n)
    ensures var after := StoreAfter(V, H, party, events, n + 1);
            (k in after && after[k] == retention) || retention <= StoreTime(events, n + 1)
  {
    hide Passed, Permits, Claim.StoreKey, Claim.Retention, Request.ToClaim;
    if events[n].StoreBecomes? {
      assert ClaimOf(V, H, party, events, n).None?;
    }
    hide ClaimOf;
  }

  lemma {:induction false} GrantIsRemembered(V: SigCheck, H: Hash, party: Party, events: seq<Event>, s: nat, j: nat, n: nat)
    requires j < n <= |events| && Grants(V, H, party, events, s, j) && StoreKeepsUnexpired(V, H, party, events)
    ensures var c := ClaimOf(V, H, party, events, j).value;
            var store := StoreAfter(V, H, party, events, n);
            (c.StoreKey(H) in store && store[c.StoreKey(H)] == c.Retention()) || c.Retention() <= StoreTime(events, n)
    decreases n
  {
    hide ClaimOf, StoreKeepsUnexpired, Claim.StoreKey, Claim.Retention;
    if n > j + 1 {
      GrantIsRemembered(V, H, party, events, s, j, n - 1);
      var c := ClaimOf(V, H, party, events, j).value;
      hide StoreAfter, StoreTime, Grants;
      EntryStays(V, H, party, events, n - 1, c.StoreKey(H), c.Retention());
    }
  }

  /** The grant at `j` of the check begun at `s` claimed its nonce inside the skew. */
  predicate GrantsInTime(V: SigCheck, H: Hash, party: Party, events: seq<Event>, s: nat, j: nat)
    requires j < |events|
  {
    && Grants(V, H, party, events, s, j)
    && s < |events| && events[s].StartApproval?
    && WithinSkew(events[s].approval.issuedAt, events[s].approval.expiresAt, events[s].params.now, StoreTime(events, j))
  }

  /** A later grant of an approval already granted is outside the skew. */
  lemma NoSecondGrantInTime(V: SigCheck, H: Hash, party: Party, events: seq<Event>, s: nat, j: nat, s': nat, j': nat)
    requires j < j' < |events| && StoreKeepsUnexpired(V, H, party, events)
    requires Grants(V, H, party, events, s, j) && Grants(V, H, party, events, s', j')
    requires events[s].StartApproval? && events[s'].StartApproval?
    requires events[s].approval.(signature := []) == events[s'].approval.(signature := [])
    ensures !GrantsInTime(V, H, party, events, s', j')
  {
    var c := ToRequest(events[s'], {}).ToClaim();
    assert ClaimOf(V, H, party, events, j) == ClaimOf(V, H, party, events, j') == Some(c) by {
      hide Passed, AuthApprovalV1;
    }
    GrantIsRemembered(V, H, party, events, s, j, j');
    GrantedExactlyWhen(V, H, party, events, s', j');
    StoreTimeIsBounded(V, H, party, events, j');
    FreeChecksMean(V, H, ToRequest(events[s'], {}));
    var a, p := events[s'].approval, events[s'].params;
    assert (c.issuedAt, c.expiresAt) == (a.issuedAt, a.expiresAt);
    hide Grants, ClaimOf, StoreAfter, StoreTime, StoreKeepsUnexpired, EndedBefore, Claim.StoreKey, Request.FreeChecks, Request.ToClaim;
    RetentionIsSharp(a.issuedAt, a.expiresAt, p.maxAgeSecs, p.now, StoreTime(events, j'));
    hide NonceRetention, WithinSkew, InWindow;
  }

  /** One history, both guarantees: inside the skew one signed approval is granted at most once, and no grant was
      started after any of its delegation's keys had ended. */
  lemma GrantedOnceAndBeforeEveryEnding(V: SigCheck, H: Hash, party: Party, events: seq<Event>, s: nat, j: nat, s': nat, j': nat)
    requires j < |events| && j' < |events| && StoreKeepsUnexpired(V, H, party, events)
    requires GrantsInTime(V, H, party, events, s, j) && GrantsInTime(V, H, party, events, s', j')
    requires events[s].approval.(signature := []) == events[s'].approval.(signature := [])
    ensures j == j' && s == s'
    ensures forall i :: 0 <= i < |events| && EndedKey(V, party, events[i]).Some? && Names(events[s], EndedKey(V, party, events[i]).value)
              ==> s < i
  {
    if j < j' {
      NoSecondGrantInTime(V, H, party, events, s, j, s', j');
    } else if j' < j {
      NoSecondGrantInTime(V, H, party, events, s', j', s, j);
    }
    forall i | 0 <= i < |events| && EndedKey(V, party, events[i]).Some? && Names(events[s], EndedKey(V, party, events[i]).value)
      ensures s < i
    {
      EndedKeysNeverActAgain(V, H, party, events, i, j, s);
    }
    hide EndedKey, ClaimOf, StoreAfter, StoreKeepsUnexpired, WithinSkew, Permits, RevokedAfter;
  }

  // ── Who may end it ─────────────────────────────────────────────────────────

  /** The statement an event puts before the relying party, when it ends a key. */
  function EndingStatement(e: Event): Option<Statement> {
    match e
    case TakeRevocation(r) => Some(Revoke(r))
    case TakeSuccession(s) => Some(Succeed(s))
    case _ => None
  }

  /** A signed statement that ends `key` at this relying party: its own revocation, a recognised
      authority's, or its own succession. Nothing else can. */
  predicate Ends(party: Party, signed: Statement, key: Bytes) {
    match signed
    case Revoke(r) =>
      && r.subjectKey == key && r.audience == party.audience
      && (if r.revokedBy.ByHolder? then r.signerKey == key else r.signerKey in party.authorityKeys)
    case Succeed(s) => s.fromKey == key && s.audience == party.audience && s.toKey != key
    case _ => false
  }

  /** Every revocation or succession this relying party acts on was signed field for field by the key it names as its
      signer, and ends its key by right: the key's own word, or a recognised authority's. */
  lemma EndingsWereSigned(V: SigCheck, party: Party, e: Event, signed: seq<Statement>)
    requires forall s :: s in signed ==> s.IsSignable() && s.Unsigned() == s
    requires EndedKey(V, party, e).Some?
    requires EndingStatement(e).Some? ==> NotForged(V, signed, EndingStatement(e).value)
    ensures EndingStatement(e).Some?
    ensures EndingStatement(e).value.Unsigned() in signed
    ensures Ends(party, EndingStatement(e).value.Unsigned(), EndedKey(V, party, e).value)
  {
    EndingChecksMean(V, party, e);
    SignedFieldForField(V, signed, EndingStatement(e).value);
    hide EndedKey, NotForged;
  }

  /** So only the key itself or a recognised authority ends a key, and only the outgoing key can retire itself in
      favour of another: each key seen ended goes back to such a statement. */
  lemma EndedKeysWereSignedAway(V: SigCheck, party: Party, events: seq<Event>, signed: seq<Statement>, key: Bytes)
    requires forall s :: s in signed ==> s.IsSignable() && s.Unsigned() == s
    requires forall e :: e in events && EndingStatement(e).Some? ==>
               NotForged(V, signed, EndingStatement(e).value)
    requires key in RevokedAfter(V, party, events)
    ensures exists s :: s in signed && Ends(party, s, key)
  {
    assert events[..|events|] == events;
    RevokedMeansEnded(V, party, events, |events|, key);
    hide EndedKey, NotForged, RevokedAfter;
    var i :| 0 <= i < |events| && EndedKey(V, party, events[i]) == Some(key);
    assert events[i] in events;
    EndingsWereSigned(V, party, events[i], signed);
    assert Ends(party, EndingStatement(events[i]).value.Unsigned(), key);
  }

  lemma EndingChecksMean(V: SigCheck, party: Party, e: Event)
    requires EndedKey(V, party, e).Some?
    ensures EndingStatement(e).Some?
    ensures var p := EndingStatement(e).value;
            && V(p.Signer(), p.Purpose(), p.Message(), p.Signature()) == Verified
            && Ends(party, p.Unsigned(), EndedKey(V, party, e).value)
  {
    hide AuthRevocationV1, AuthSuccessionV1, Revocation.SigningBytes, Succession.SigningBytes;
  }

  /** Whatever is permitted is under a delegation its principal signed with exactly these terms, from a recognised
      principal, with neither key seen ended, while it is live. An authorisation is to the delegate it names, for an
      action and an amount, stated or not, that its bounds allow; an approval is the same principal's, signed for this
      delegation and exactly this request. */
  lemma PermittedUnderASignedDelegation(V: SigCheck, H: Hash, party: Party, revoked: set<Bytes>, signed: seq<Statement>, e: Event)
    requires Permits(V, H, party, revoked, e)
    requires forall s :: s in signed ==> s.IsSignable() && s.Unsigned() == s
    requires NotForged(V, signed, Delegate(e.delegation)) && (e.StartApproval? ==> NotForged(V, signed, Approve(e.approval)))
    ensures var d := e.delegation;
            && Delegate(d).Unsigned() in signed
            && d.principalKey in e.principals && d.principalKey !in revoked && d.delegateKey !in revoked
            && (e.Attempt? ==>
                  && d.audience == party.audience && d.notBefore <= e.now < d.expiresAt
                  && e.delegateKey == d.delegateKey && e.action in d.bounds.actions && AmountAllowed(d.bounds, e.amount))
            && (e.StartApproval? ==>
                  && d.audience == e.params.expectedAudience && d.notBefore <= e.params.now < d.expiresAt
                  && Approve(e.approval).Unsigned() in signed && e.approval.principalKey == d.principalKey
                  && e.approval.delegationId == d.Id(H)
                  && (e.approval.requestDigest, e.approval.action, e.approval.amount) == (e.requestDigest, e.action, e.approvedAmount))
  {
    var d := Delegate(e.delegation);
    WhatIsPermittedHolds(V, H, party, revoked, e);
    hide Permits, NotForged, Statement.IsSignable, AmountAllowed, Delegation.Id;
    assert V(d.Signer(), d.Purpose(), d.Message(), d.Signature()) == Verified;
    SignedFieldForField(V, signed, d);
    if e.StartApproval? {
      var p := Approve(e.approval);
      assert V(p.Signer(), p.Purpose(), p.Message(), p.Signature()) == Verified;
      SignedFieldForField(V, signed, p);
    }
  }

  lemma WhatIsPermittedHolds(V: SigCheck, H: Hash, party: Party, revoked: set<Bytes>, e: Event)
    requires Permits(V, H, party, revoked, e)
    ensures e.Attempt? ==>
              && Holds(V, e.delegation, party.audience, e.principals, revoked, e.now)
              && e.delegateKey == e.delegation.delegateKey && e.action in e.delegation.bounds.actions
              && AmountAllowed(e.delegation.bounds, e.amount)
    ensures e.StartApproval? ==>
              && Holds(V, e.delegation, e.params.expectedAudience, e.principals, revoked, e.params.now)
              && e.approval.principalKey == e.delegation.principalKey && e.approval.delegationId == e.delegation.Id(H)
              && (e.approval.requestDigest, e.approval.action, e.approval.amount) == (e.requestDigest, e.action, e.approvedAmount)
              && V(e.delegation.principalKey, AuthApprovalV1(), e.approval.SigningBytes(), e.approval.signature) == Verified
  {
    match e {
      case Attempt(d, principals, delegateKey, action, amount, now) =>
        AuthorisedExactlyWhen(V, d, party.audience, principals, revoked, delegateKey, action, amount, now);
      case StartApproval(d, p, params, principals, digest, action, amount) =>
        ApprovalGrantedExactlyWhen(V, H, map[], d, p, params, principals, revoked, digest, action, amount);
      case _ =>
    }
    hide Authorise, ApprovalChecks, Delegation.Id, NonceKey, AuthApprovalV1, Holds, Approval.SigningBytes;
  }
}
