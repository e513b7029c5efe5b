# Aethel: statements, wallet and ledger, verified

A Dafny model of the two crates that decide who may act and what may be spent: the relying-party verifier
`aethel-auth` and the agent wallet and ledger `aethel-vault`, with proofs about every run of them.

| module | what it models |
|---|---|
| `Words`, `Bits` | machine words, big-endian integers, length-prefixed framing and its readers; shifts, or and masks bit by bit |
| `Statements` | the six signed statements, the bytes a signature covers, and a parser that inverts each encoding |
| `NonceStore`, `Verifier` | the in-process nonce store, the shared envelope, the free checks, the nonce claim, delegation, revocation and succession checks |
| `Decisions` | every decision of the relying party as one table of refusals over what is presented, and the exact conditions of success |
| `Holders` | the signing side, and when its statements are accepted |
| `ReplayProtocol` | any number of verifiers, in-flight checks, one store that forgets, moving clocks |
| `AuthorityRuns` | a relying party that takes in revocations and successions while it authorises, starts approval checks and finishes them |
| `Base64Url` | the strict text codec |
| `SpendPolicy`, `PolicyRuns` | the spend policy, its daily window, and runs of recorded spends |
| `Correspondence` | the claim that a spend policy and a delegation's bounds decide alike |
| `Eip712`, `Wallet`, `WalletRuns` | authorization digests, the authorize operation, and runs of a wallet |
| `WalletBind` | hex, decimal and JSON escaping, the canonical binding body and the binding message |
| `Ledger`, `LedgerRuns` | the confidential ledger, blind transfers, and runs of them |

Operations that the crates perform by updating state are methods: buffers are built by appending, the nonce store,
the policy state, the external signer, the wallet and the ledger are classes. Each method is proved equal to a
specification function, and the results are proved about those functions.

## How the outside is modelled

- **Hashes** (SHAKE-256, Keccak-256) are parameters of which nothing is assumed. Where two digests must differ, the
  result names the two pre-images that would have to collide.
- **ML-DSA** verification is a parameter `V`. Where a result needs signatures to be unforgeable it says so about the
  presented statement: if it verifies, its key signed those bytes under that purpose. Signature bytes may differ
  between two copies of a statement; copies count as the same.
- **Purposes**: `AUTH_APPROVAL_V1` is defined in this repository. The others are registered in `aethel-core`, which is
  not part of this model; they are given the documented form `aethel-auth/<thing>/v<n>`, and only their being
  different is used.
- **Time** is always an input: a verifier's captured clock, the store's clock, the wallet's `now_unix`.
- **Homomorphic encryption** is a set of functions with the laws a correct implementation has for one client's keys;
  an operation may fail at any point.
- **The external signer, the vault's identity, bincode, and PLP proofs** are parameters; the signer's address is its
  answer in each call.

## What the proofs found

Where the code and its documentation differ, the model follows the code.

- *The skew is one second too generous.* The documentation asks for clocks within 300 s. A nonce is forgotten as soon
  as its expiry is reached, while an age equal to the ceiling is accepted. With clocks that never disagree by more than
  300 s a request is replayed if and only if its verifier's clock reads exactly `issued_at` plus the age ceiling
  (`ReplayProtocol.TheSkewReplaysExactlyAtTheCeiling`); strictly below 300 s nothing is ever replayed.
- *The "rolling" day is a tumbling one.* A window restarts at the first recorded spend after it elapses, so n days can
  see n + 1 caps and never more (`PolicyRuns.IntervalBound`). More than n caps fit in n days for every policy under
  which anything can be spent at all (`PolicyRuns.RollingCapFailsExactly`, `PolicyRuns.IntervalBoundIsTight`). With a
  clock that steps back only the bound on each window is left (`PolicyRuns.SteppingBackEscapesTheDay`).
- *A cap of 2^128 - 1 is no cap*: the saturating sum never exceeds it, and it is the only cap that can be overspent
  within a window (`PolicyRuns.CapFailsExactlyAtAllOnes`). It is also the only value for which a delegation with the
  policy's bounds decides differently (`Correspondence.DelegationsMirrorPolicies`).
- *Lengths wrap at 2^32*: a field's framed bytes are ambiguous if and only if it is that long
  (`Words.FramingIsAmbiguousExactlyFromTwo32`).
- *A transfer to the same id mints*: the receiver's write lands last (`LedgerRuns.SelfTransfersMint`).
- *A signature can outlive its accounting*: if the wallet's own signing or serialising fails after the external signer
  has signed, nothing is recorded, and repeating the call is not limited by the cap
  (`WalletRuns.FailingRecordsEscapeTheCap`). Whether that can happen is decided outside this repository, by ML-DSA
  signing in `aethel-core` and by bincode on a fixed-size record; the code here returns their errors. The signatures handed out are the authorised spends exactly when no
  record fails (`WalletRuns.SignedIsAuthorizedExactlyWhenNoRecordFails`).
- *A second registration of an id succeeds and is invisible*: the ledger is a first-registration-wins map
  (`LedgerRuns.RunsRefineTheMap`); the deposit is held and never read (`LedgerRuns.SecondRegistrationsAreInvisible`).
- *A plain transfer asks for no proof*, bound identity or not, as the documentation says: what
  `LedgerRuns.AuthenticatedTransfersAreForOneIdentity` promises is about the two authenticated operations only.
- *An approval in flight survives a revocation*: its keys are checked when the check starts and not again when the nonce
  is claimed (`AuthorityRuns.ApprovalInFlightSurvivesAnEnding`). That is the only way: every approval granted under an
  ended key was started before the ending (`AuthorityRuns.EndedKeysNeverActAgain`, `AuthorityRuns.GrantedExactlyWhen`).

## Model

| member | source | states |
|---|---|---|
| `Words.PushLenPrefixed` | crates/aethel-auth/src/proof.rs:169-172 | appends the field behind its length cast to 32 bits |
| `Words.FramedFieldsAgree` | crates/aethel-auth/src/proof.rs:169-172 | below 2^32 bytes two framed fields that spell the same bytes are the same field with the same remainder |
| `Words.ShortRemaindersFixTheField` | crates/aethel-auth/src/proof.rs:169-172 | before a remainder shorter than 2^32 bytes a field of any length has one reading |
| `Words.FramingIsAmbiguousExactlyFromTwo32` | crates/aethel-auth/src/proof.rs:169-172 | a field shares its framed bytes with a shorter field if and only if it has 2^32 bytes or more |
| `Statements.LoginProof.SigningInput` | crates/aethel-auth/src/proof.rs:180-201 | the pushed buffer is the specified encoding, the digest only when present |
| `Statements.LoginParses` | crates/aethel-auth/src/proof.rs:180-201 | a parser recovers every signed field of every login proof, with and without commitment and digest |
| `Statements.LoginBytesDetermineTheProof` | crates/aethel-auth/src/proof.rs:180-201 | two logins of one key with the same signed bytes agree in every field, with no limit on the audience's length |
| `Statements.DigestExtendsTheUnboundBytes` | crates/aethel-auth/src/proof.rs:174-201 | a digest only extends the unbound bytes, and no bound proof shares its bytes with an unbound one |
| `Statements.StepUpProof.SigningInput` | crates/aethel-auth/src/proof.rs:527-538 | the pushed buffer is the specified encoding |
| `Statements.StepUpParses` | crates/aethel-auth/src/proof.rs:527-538 | a parser recovers every signed field |
| `Statements.StepUpBytesDetermineTheProof` | crates/aethel-auth/src/proof.rs:527-538 | likewise for step-ups |
| `Statements.Approval.SigningInput` | crates/aethel-auth/src/approval.rs:78-89 | the pushed buffer is the specified encoding |
| `Statements.ApprovalParses` | crates/aethel-auth/src/approval.rs:78-89 | a parser recovers every signed field |
| `Statements.Delegation.SigningInput` | crates/aethel-auth/src/delegation.rs:189-228 | the loop-built buffer is the specified encoding: counted list, then four tagged options |
| `Statements.ItemsParse` | crates/aethel-auth/src/delegation.rs:189-228 | a counted list of framed actions is read back item by item, so it cannot be split differently |
| `Statements.Tagged128Parses` | crates/aethel-auth/src/delegation.rs:189-228 | an absent amount bound and a bound of zero stay apart, whatever follows |
| `Statements.Tagged64Parses` | crates/aethel-auth/src/delegation.rs:189-228 | likewise for the window |
| `Statements.DelegationParses` | crates/aethel-auth/src/delegation.rs:189-228 | a parser recovers principal, delegate, audience, every action, every bound and both times |
| `Statements.DelegationIdNamesOneDelegation` | crates/aethel-auth/src/delegation.rs:260-267 | equal ids mean the same delegation with the same signature, or a collision of the two pre-images |
| `Statements.Revocation.SigningInput` | crates/aethel-auth/src/statements.rs:103-113 | the pushed buffer is the specified encoding |
| `Statements.RevocationParses` | crates/aethel-auth/src/statements.rs:97-113 | a parser recovers every signed field, who revoked included |
| `Statements.Succession.SigningInput` | crates/aethel-auth/src/statements.rs:147-155 | the pushed buffer is the specified encoding |
| `Statements.SuccessionParses` | crates/aethel-auth/src/statements.rs:140-155 | a parser recovers every signed field |
| `Statements.PurposesAreDistinct` | crates/aethel-auth/README.md:49-51 | under the documented form no two statement kinds share a purpose |
| `Statements.LabelsHaveTheDocumentedForm` | crates/aethel-auth/README.md:49-51 | every purpose and both hash labels are the prefix, the thing and the version |
| `Statements.StatementParses` | crates/aethel-auth/src/proof.rs:174-201 | key, purpose and signed bytes are read back as the statement, across all six kinds |
| `Statements.SignableIsFramed` | crates/aethel-auth/src/proof.rs:169-172 | in fewer than 2^32 signed bytes no length has wrapped, whoever wrote them |
| `Statements.SignedBytesDetermineTheStatement` | crates/aethel-auth/src/proof.rs:174-201 | no two statements with different field values share key, purpose and signed bytes |
| `Statements.NonceKeysDoNotInterfere` | crates/aethel-auth/src/proof.rs:284-297 | two claims share a store key only if purpose, signer and nonce agree, or the pre-images collide, for signer keys of any length |
| `Statements.NonceKeyPreimageReads` | crates/aethel-auth/src/proof.rs:290-297 | what is hashed into a nonce key reads back as label, purpose, signer key and nonce, in this order |
| `Statements.IdPreimageReads` | crates/aethel-auth/src/delegation.rs:260-267 | what is hashed into a delegation id reads back as label, principal, signed bytes and signature |
| `NonceStore.InMemoryNonceStore.Claim` | crates/aethel-auth/src/nonce.rs:101-113 | insert-if-absent in one step, keeping a spent nonce's entry |
| `NonceStore.InMemoryNonceStore.EvictExpired` | crates/aethel-auth/src/nonce.rs:83-88 | drops exactly the entries whose expiry has been reached |
| `Verifier.EnvelopeIsTheWindow` | crates/aethel-auth/src/proof.rs:222-248 | the envelope passes exactly for the right nonempty audience inside the window |
| `Verifier.RetentionIsSharp` | crates/aethel-auth/src/proof.rs:222-282 | an entry outlives every acceptance inside the skew, and for every statement the first lag outside it is reached |
| `Decisions.RetentionInNumbers` | crates/aethel-auth/src/proof.rs:258-282 | a nonce is kept until its statement expires or turns 3,600 s old, and 300 s more |
| `Verifier.ComputeNonceKey` | crates/aethel-auth/src/proof.rs:290-297 | hashes the four framed fields |
| `Verifier.ClaimNonce` | crates/aethel-auth/src/proof.rs:301-318 | claims the key with the statement's own retention, or refuses and changes nothing |
| `Verifier.VerifyLoginInner` | crates/aethel-auth/src/proof.rs:413-467 | outcome and store of a login: the checks in order, then the claim |
| `Verifier.VerifyLogin` | crates/aethel-auth/src/proof.rs:382-388 | the whole result and store of an unbound login: accepts exactly what passes the checks with a fresh nonce, and refuses every request-bound proof without spending its nonce |
| `Verifier.VerifyLoginForRequest` | crates/aethel-auth/src/proof.rs:402-409 | the whole result and store of a bound login: accepts only a proof bound to the expected digest, and spends no nonce on any other |
| `Verifier.VerifyStepUp` | crates/aethel-auth/src/proof.rs:546-594 | outcome and store of a step-up: the checks in order, then the claim |
| `Verifier.CheckApproval` | crates/aethel-auth/src/approval.rs:107-167 | outcome and store of an approval: parties, delegation, envelope, exact request, signature, then the claim |
| `Decisions.LoginDecision` | crates/aethel-auth/src/proof.rs:413-467 | every refusal of a login in order, with its error, over any presented proof |
| `Decisions.LoginAcceptedExactlyWhen` | crates/aethel-auth/src/proof.rs:413-467 | the exact condition under which any presented login is accepted |
| `Decisions.StepUpDecision` | crates/aethel-auth/src/proof.rs:546-594 | every refusal of a step-up in order, with its error |
| `Decisions.StepUpAcceptedExactlyWhen` | crates/aethel-auth/src/proof.rs:546-594 | the exact condition under which any presented step-up is accepted |
| `Decisions.DelegationDecision` | crates/aethel-auth/src/delegation.rs:312-346 | every refusal of a delegation in order, with its error |
| `Decisions.AuthoriseDecision` | crates/aethel-auth/src/delegation.rs:369-428 | every refusal of an attempt in order, with its error |
| `Decisions.AuthorisedExactlyWhen` | crates/aethel-auth/src/delegation.rs:348-428 | the exact condition of an authorisation for every delegation and every stated or unstated amount, and exactly the obligations left to the caller |
| `Decisions.ApprovalDecision` | crates/aethel-auth/src/approval.rs:107-167 | every refusal of an approval in order, with its error |
| `Decisions.ApprovalGrantedExactlyWhen` | crates/aethel-auth/src/approval.rs:107-167 | the exact condition under which any approval is granted under any delegation: signed by that delegation's own principal, for it and exactly the request |
| `Decisions.RevocationDecision` | crates/aethel-auth/src/statements.rs:166-205 | every refusal of a revocation in order, with its error |
| `Decisions.SuccessionDecision` | crates/aethel-auth/src/statements.rs:215-266 | every refusal of a succession in order, and the key a verified one retires |
| `Verifier.StoreHoldsExactlyTheAccepted` | crates/aethel-auth/src/proof.rs:290-318 | over any sequence of logins, step-ups and approvals the store gains exactly one entry per acceptance, each under its own key with the retention of its statement alone, and loses and changes nothing |
| `Verifier.RequestsWithDifferentNoncesCommute` | crates/aethel-auth/src/proof.rs:284-318 | requests by different signers, purposes or nonces settle alike in either order, or their nonce keys collide |
| `Verifier.RevocationOnlyRemovesAuthority` | crates/aethel-auth/src/delegation.rs:369-428 | authorisation is antitone in the revoked keys and monotone in the principals, with unchanged obligations |
| `Verifier.RevocationOnlyRemovesApproval` | crates/aethel-auth/src/approval.rs:107-157 | so are an approval's checks, and the nonce they go on to claim depends on neither |
| `Holders.LoginIsAccepted` | crates/aethel-auth/src/holder.rs:87-130 | a built login is accepted exactly at its audience, for its digest, at the predicted clock values, with an unused nonce and nonempty key and audience |
| `Holders.StepUpIsAccepted` | crates/aethel-auth/src/holder.rs:136-160 | likewise for a step-up and its action digest |
| `Holders.ApprovalIsAccepted` | crates/aethel-auth/src/holder.rs:164-192 | likewise for an approval: only with a live delegation, both keys standing, and exactly the approved request |
| `Holders.DelegationIsAccepted` | crates/aethel-auth/src/holder.rs:195-216 | a built delegation verifies exactly at its audience between its two times |
| `Holders.SelfRevocationIsAccepted` | crates/aethel-auth/src/holder.rs:219-232 | a holder can always end its own authority, whoever the authorities are |
| `Holders.AuthorityRevocationIsAccepted` | crates/aethel-auth/src/holder.rs:258-276 | an authority's revocation is accepted exactly where that authority is recognised |
| `Holders.SuccessionIsAccepted` | crates/aethel-auth/src/holder.rs:237-250 | retires the outgoing key exactly at the audience and for a different, nonempty successor, with the error of every other case |
| `Holders.HolderWindow` | crates/aethel-auth/src/holder.rs:110-130 | the accepted clock values of a statement, saturating expiries included |
| `Holders.LoginSaysWhatWasAsked` | crates/aethel-auth/src/holder.rs:87-130 | what is signed reads back as exactly the arguments, with no session commitment |
| `Holders.StepUpSaysWhatWasAsked` | crates/aethel-auth/src/holder.rs:136-160 | likewise for a step-up |
| `Holders.ApprovalSaysWhatWasAsked` | crates/aethel-auth/src/holder.rs:164-192 | likewise for an approval and the id of its delegation |
| `Holders.DelegationSaysWhatWasAsked` | crates/aethel-auth/src/holder.rs:195-216 | likewise for a delegation: principal, delegate, audience, every bound and both times |
| `Holders.RevocationsSayWhatWasAsked` | crates/aethel-auth/src/holder.rs:219-276 | likewise for both kinds of revocation |
| `Holders.SuccessionSaysWhatWasAsked` | crates/aethel-auth/src/holder.rs:237-250 | likewise for a succession |
| `Holders.AttemptsUnderABuiltDelegation` | crates/aethel-auth/src/holder.rs:195-216 | an attempt under a built delegation is authorised, and approval asked for, exactly by the bounds given to the builder |
| `ReplayProtocol.EvictExpiredIsAStep` | crates/aethel-auth/src/nonce.rs:83-88 | the in-process eviction is one of the evictions the protocol allows |
| `ReplayProtocol.StepKeepsInv` | crates/aethel-auth/src/proof.rs:290-318 | every step keeps: accepted statements are still in the store or past their retention, and repeats come only after it |
| `ReplayProtocol.RunKeepsInv` | crates/aethel-auth/src/proof.rs:290-318 | so does every run, of any length and interleaving |
| `ReplayProtocol.AcceptedStatementsWereSignedAndAreNotReplayed` | crates/aethel-auth/src/proof.rs:222-318 | in every state of every run each acceptance is of a statement signed field for field under its purpose, and none inside the skew repeats an earlier one |
| `ReplayProtocol.InjectiveAgreement` | crates/aethel-auth/src/proof.rs:413-594 | with every acceptance inside the skew, acceptances map one-to-one to signing events with exactly the accepted values |
| `ReplayProtocol.AcceptedApprovalsAreThePrincipalsOwn` | crates/aethel-auth/src/approval.rs:118-157 | in every run each accepted approval was signed, as an approval, by the very key that signed, as a delegation, the delegation it was accepted under |
| `ReplayProtocol.ApprovalNamesOneDelegation` | crates/aethel-auth/src/approval.rs:107-167 | one signed approval is accepted for one request under one delegation, or two delegation ids collide |
| `ReplayProtocol.ReplayIffRetentionIsOver` | crates/aethel-auth/src/proof.rs:252-282 | some run, with clocks in agreement until then, replays a statement at a store time if and only if its retention is over by then |
| `ReplayProtocol.TheSkewReplaysExactlyAtTheCeiling` | crates/aethel-auth/src/proof.rs:258-282 | with clocks that never disagree by more than the documented skew, a request is replayed if and only if its verifier reads the last second the age ceiling allows |
| `AuthorityRuns.RefusedExactlyAfterAnEnding` | crates/aethel-auth/src/delegation.rs:382-398 | an authorisation or an approval check that passes with no key ended passes until a key of its delegation is ended, and never after |
| `AuthorityRuns.GrantedExactlyWhen` | crates/aethel-auth/src/approval.rs:107-167 | the exact condition of a granted approval: its delegation's keys stood when its check started, it finishes once, its nonce is unspent; an ending in between is not in it |
| `AuthorityRuns.EndedKeysNeverActAgain` | crates/aethel-auth/src/delegation.rs:382-398 | after a verified revocation of a key, or a succession away from it, nothing is authorised under a delegation naming it, and every approval granted under one was started before |
| `AuthorityRuns.ApprovalInFlightSurvivesAnEnding` | crates/aethel-auth/src/approval.rs:118-166 | whatever check passes and whatever key of its delegation is ended next, finishing it grants the approval |
| `AuthorityRuns.GrantedOnceAndBeforeEveryEnding` | crates/aethel-auth/src/approval.rs:107-167 | in one history with a store that keeps unexpired entries: inside the skew one signed approval is granted at most once, and it was started before every ending of its delegation's keys |
| `AuthorityRuns.EndingsWereSigned` | crates/aethel-auth/src/statements.rs:166-266 | every revocation or succession acted on was signed field for field by its named signer, and ends its key by right |
| `AuthorityRuns.EndedKeysWereSignedAway` | crates/aethel-auth/src/statements.rs:166-266 | every key seen ended goes back to its own signed revocation or succession, or a recognised authority's |
| `AuthorityRuns.PermittedUnderASignedDelegation` | crates/aethel-auth/src/delegation.rs:312-428 | whatever is permitted is under a delegation its principal signed with exactly these terms, neither key ended; an attempt is within its bounds, amount stated or not; an approval is the same principal's, for this delegation and request |
| `Base64Url.BytesAreGrouped` | crates/aethel-auth/src/b64.rs:33-35 | the three shifted and or-ed bytes are their 24-bit group |
| `Base64Url.SymbolIsAdded` | crates/aethel-auth/src/b64.rs:59-62 | or-ing the next shifted symbol into the group adds it at its place |
| `Base64Url.FieldsAreCutOut` | crates/aethel-auth/src/b64.rs:37-39 | shift and mask cut out symbol i, shift and truncation byte i |
| `Base64Url.EncodeChunkText` | crates/aethel-auth/src/b64.rs:32-40 | the symbol loop of a chunk, on shifts and masks, computes its encoding |
| `Base64Url.DecodeChunkText` | crates/aethel-auth/src/b64.rs:58-66 | the two loops of a chunk, on shifts and ors, compute its decoding or stop at a symbol outside the alphabet |
| `Base64Url.EncodeText` | crates/aethel-auth/src/b64.rs:30-42 | the chunk loop computes the encoding |
| `Base64Url.DecodeAnyText` | crates/aethel-auth/src/b64.rs:51-68 | the two nested loops compute the lenient decoding, refusals included |
| `Base64Url.DecodeText` | crates/aethel-auth/src/b64.rs:46-49 | decode, re-encode, compare |
| `Base64Url.SymbolsAreTheRfcs` | crates/aethel-auth/src/b64.rs:28 | the table is table 2 of section 5 of RFC 4648, symbol for symbol |
| `Base64Url.ValuesAreTheRfcs` | crates/aethel-auth/src/b64.rs:51-53 | a byte has the value that table gives it, and none if it is not in it |
| `Base64Url.StrictMeansCanonical` | crates/aethel-auth/src/b64.rs:44-49 | accepts exactly the texts that meet sections 5 and 3.5 of RFC 4648, stated over the RFC's own table: its characters only, no padding, possible length, unused bits zero |
| `Base64Url.RoundTrip` | crates/aethel-auth/src/b64.rs:30-68 | every byte string decodes back from its encoding |
| `Base64Url.OneSpellingPerValue` | crates/aethel-auth/src/b64.rs:44-49 | a text decodes to bytes exactly when it is their encoding |
| `Base64Url.LenientSpellingsAgree` | crates/aethel-auth/src/b64.rs:51-68 | two lenient spellings decode alike exactly when they differ at most in the last symbol's unused bits |
| `Base64Url.EncodingIsAChangeOfBase` | crates/aethel-auth/src/b64.rs:30-42 | the symbols spell, in base 64, the number the bytes spell in base 256 with the padding bits behind it |
| `SpendPolicy.PolicyState.Record` | src/policy.rs:190-197 | restarts an elapsed window at the spend, otherwise adds to it |
| `SpendPolicy.BuildHitlApprovalMessage` | src/policy.rs:207-213 | the filled buffer is the specified message |
| `SpendPolicy.HitlMessageBindsItsFields` | src/policy.rs:207-213 | one approval message binds one digest, amount and expiry |
| `SpendPolicy.HitlMessageReads` | src/policy.rs:200-213 | the message is 32 bytes of hash, 16 of amount and 8 of expiry, in this order |
| `SpendPolicy.ApprovalVerifiesExactlyWhen` | src/policy.rs:260-284 | exactly when an approval verifies, and exactly when it cannot be evaluated |
| `SpendPolicy.CheckDecision` | src/policy.rs:146-170 | which violation a refused spend gets, and exactly when an allowed one needs approval, with the day as 86,400 s |
| `SpendPolicy.RecordInNumbers` | src/policy.rs:190-196 | a window that has run for 86,400 s restarts at the spend, any other grows by it |
| `PolicyRuns.SpentIsTheWindowsTotal` | src/policy.rs:146-196 | what is recorded is exactly what was spent since the window began, and at most the cap, whatever the clock does |
| `PolicyRuns.IntervalBound` | src/policy.rs:146-196 | with an advancing clock at most n + 1 caps pass in any n whole days |
| `PolicyRuns.RollingCapFailsExactly` | src/policy.rs:50-52 | the documented rolling cap: for every n, more than n caps can be spent within n days if and only if anything can be spent at all |
| `PolicyRuns.IntervalBoundIsTight` | src/policy.rs:190-197 | for every n the bound of n + 1 caps is reached by exactly the policies that have no cap to reach or let something be spent |
| `PolicyRuns.SteppingBackEscapesTheDay` | src/policy.rs:175-197 | with a clock that steps back, one cap more per restart can be spent at times inside one day |
| `PolicyRuns.CapFailsExactlyAtAllOnes` | src/policy.rs:146-169 | some run spends more than the cap within one window if and only if the cap is 2^128 - 1 and anything may be spent at all |
| `Correspondence.DelegationsMirrorPolicies` | crates/aethel-auth/src/delegation.rs:3-13 | a standing delegation with a policy's bounds accepts the same amounts and asks for approval alike, exactly unless the policy's sum saturates |
| `Correspondence.RunsMirrorPolicies` | crates/aethel-auth/src/delegation.rs:369-428 | the sequences of spends a policy passes are those a relying party accepts |
| `Eip712.Chain.DomainSeparator` | src/settlement.rs:202-210 | the appended words are the domain's encodeData |
| `Eip712.Authorization.StructHash` | src/settlement.rs:257-267 | the appended words are the authorization's encodeData |
| `Eip712.Authorization.Eip712Digest` | src/settlement.rs:271-280 | hashes 0x19 0x01, the domain separator and the struct hash |
| `Eip712.JoinInjective` | src/settlement.rs:257-267 | a text of 32-byte words is cut up in one way |
| `Eip712.EncodedAuthorization` | src/settlement.rs:257-267 | read at EIP-712's offsets the hashed text is type, payer, payee, amount, both times and nonce |
| `Eip712.EncodedDomain` | src/settlement.rs:202-210 | read at EIP-712's offsets the hashed text is type, name, version, chain id and contract |
| `Eip712.DigestsAreOfTheirAuthorization` | src/settlement.rs:271-280 | every digest is the hash of 0x19 0x01, the hash of the encoded domain and the hash of the encoded authorization |
| `Eip712.TransferTypeText` | src/settlement.rs:127-131 | the authorization's type string in full |
| `Eip712.DomainTexts` | src/settlement.rs:122-124 | the domain's type string, name and version in full |
| `Eip712.ChainTable` | src/settlement.rs:151-192 | chain ids, contracts and rails of the three chains |
| `Eip712.DigestBindsTheAuthorization` | src/settlement.rs:202-280 | equal digests mean equal fields and chain, or a collision on one of three named pairs of pre-images |
| `Wallet.ExternalSigner.SignDigest` | src/settlement.rs:403-414 | an opaque answer to exactly one remembered request |
| `Wallet.AgentWallet.constructor` | src/settlement.rs:506-514 | starts with an empty window, no receipt and nothing asked |
| `Wallet.AgentWallet.AuthorizeEip3009` | src/settlement.rs:547-627 | result, accounting, receipt and what the signer was asked, in the order of the operation, for every error |
| `WalletRuns.WhatACallChanges` | src/settlement.rs:524-627 | an error changes no accounting and no receipt; the signer is asked for exactly the digest of a call that policy and approval let pass, and never after a refusal |
| `WalletRuns.AuthorisedExactlyWhen` | src/settlement.rs:547-627 | the exact condition under which a call succeeds: a right approval lets a large call through, and a small one needs none |
| `WalletRuns.RefusalsOfTheWallet` | src/settlement.rs:547-627 | the error of every call that does not, in order |
| `WalletRuns.SpentIsWhatWasAuthorized` | src/settlement.rs:547-627 | in every run the recorded amount is the sum of the authorizations returned since the window began, and at most the cap |
| `WalletRuns.AccountedSpendsAreTheReturned` | src/settlement.rs:556-626 | in every run the accounted spends are, one for one and in order, the authorizations returned, each with the validity window of the policy, the digest of its own fields and an intent that repeats them, and each asked of the signer |
| `WalletRuns.AuthorizedInAnyInterval` | src/settlement.rs:547-627 | with an advancing clock at most n + 1 caps are authorised in any n whole days, whatever fails |
| `WalletRuns.SignedIsAuthorizedExactlyWhenNoRecordFails` | src/settlement.rs:597-608 | the spends signed outside exceed the authorised ones by one per failed record, and are the same exactly when none failed |
| `WalletRuns.FailingRecordsEscapeTheCap` | src/settlement.rs:597-608 | with failing records n calls get n signatures and record nothing |
| `WalletRuns.OneApprovalOneAuthorization` | src/settlement.rs:556-595 | two successful calls above the threshold with one approval are the same call for the same authorization, or Keccak collides on a named pair |
| `WalletRuns.LargeCallsWereApproved` | src/settlement.rs:579-595 | a success above the threshold had an unexpired approval of its digest and amount, verified under the configured key |
| `WalletRuns.LargeSpendsWereSignedByTheApprover` | src/policy.rs:260-284 | every authorization above the threshold has its exact digest and amount signed by the configured approver, unexpired |
| `WalletBind.ToHexLower` | src/settlement.rs:111-117 | the loop computes the lower-case hex text |
| `WalletBind.HexRoundTrip` | src/settlement.rs:102-117 | hex reads back, for every byte string |
| `WalletBind.HexIsLowerCase` | src/settlement.rs:111-117 | every digit is one of 0-9 and a-f |
| `WalletBind.DecimalRoundTrip` | src/settlement.rs:361-367 | decimal reads back, for every number |
| `WalletBind.JsonEscape` | src/settlement.rs:334-348 | the loop computes the escaped text |
| `WalletBind.EscapesAreAsShortAsTheyGet` | src/settlement.rs:334-348 | which escape is chosen for which character |
| `WalletBind.EscapedStringsAreReadBack` | src/settlement.rs:334-348 | a reader following section 7 of RFC 8259 recovers every string and stops at exactly the closing quote |
| `WalletBind.WalletBindCanonicalJson` | src/settlement.rs:355-368 | the assembled text is the specified body |
| `WalletBind.CanonicalJsonIsReadBack` | src/settlement.rs:355-368 | a reader recovers did, chain id, address and nonce |
| `WalletBind.CanonicalJsonBindsItsFields` | src/settlement.rs:350-368 | one body binds one did, chain, address and nonce, whatever the did contains |
| `WalletBind.BindMessageIsReadBack` | src/settlement.rs:299-312 | a reader recovers every field of the unescaped message from its end, line breaks in the did included |
| `WalletBind.BindMessageBindsItsFields` | src/settlement.rs:285-312 | one message binds one did, chain, address and nonce |
| `Ledger.CodesTellOutcomesApart` | src/vault.rs:139-163 | the documented numeric codes, different for different outcomes |
| `Ledger.WrapIsModular` | src/vault.rs:470-472 | encrypted 64-bit arithmetic keeps the residue modulo 2^64 |
| `Ledger.HostComputesTransfers` | src/vault.rs:358-439 | the five host calls, when none fails, decrypt to the plain all-or-nothing transfer |
| `Ledger.TfheComputesTransfers` | src/vault.rs:444-475 | so does the native version, and fails without a server key |
| `Ledger.VaultLedger.Init` | src/vault.rs:502-520 | installs a valid key and nothing else |
| `Ledger.VaultLedger.RegisterVaultCiphertext` | src/vault.rs:539-560 | appends an entry for a 32-byte id |
| `Ledger.VaultLedger.RegisterVaultWithIdentity` | src/vault.rs:835-854 | appends an entry and a binding under the derived id |
| `Ledger.VaultLedger.HomomorphicTransfer` | src/vault.rs:587-666 | lookups, computation, sender write, then receiver write, with the error of every failure |
| `Ledger.VaultLedger.HomomorphicTransferAuthenticated` | src/vault.rs:887-921 | the binding, then the proof, then the transfer |
| `Ledger.VaultLedger.HomomorphicTransferAuthenticatedBytes` | src/vault.rs:970-1009 | binding, wire decoding, comparison, proof, transfer, with the code of each failure |
| `Ledger.VaultLedger.GetBalance` | src/vault.rs:806-816 | the first entry with the id |
| `Ledger.VaultLedger.ExportState` | src/vault.rs:696-709 | version byte and encoded state, or nothing |
| `Ledger.VaultLedger.ImportState` | src/vault.rs:748-763 | replaces the state for a recognised version and a decodable body only |
| `LedgerRuns.FailuresLeaveNoTrace` | src/vault.rs:587-666 | a run ends, state and key alike, where the run of its successful operations alone does |
| `LedgerRuns.RunsRefineTheMap` | src/vault.rs:555-662 | in every run the list is the first-registration-wins map: same state, same answers, same reads |
| `LedgerRuns.TransfersMoveExactly` | src/vault.rs:640-662 | between distinct ids all or nothing moves, nothing wraps while the readable balances add up to 64 bits, no other balance changes and neither total does |
| `LedgerRuns.TfheTransferReturnsOkExactlyWhen` | src/vault.rs:587-666 | a native transfer returns OK if and only if both ids are registered, the key loads, the ciphertexts deserialize and the results serialize (with a serializer that does not fail: ids, key and ciphertexts alone), with the error of each other case; no balance is in the condition |
| `LedgerRuns.TfheShortBalancesReturnOk` | src/vault.rs:444-475 | so a short balance returns OK, and no balance changes |
| `LedgerRuns.HostTransferReturnsOkExactlyWhen` | src/vault.rs:358-439 | with a host that does not fail on well-formed ciphertexts, a transfer returns OK if and only if both ids are registered and the three ciphertexts are well formed |
| `LedgerRuns.HostShortBalancesReturnOk` | src/vault.rs:358-439 | so a short balance returns OK there too, and no balance changes |
| `LedgerRuns.SelfTransfersMint` | src/vault.rs:658-661 | to the same id the balance grows by what was moved, and the total is kept exactly when that is zero |
| `LedgerRuns.SecondRegistrationsAreInvisible` | src/vault.rs:539-560 | a repeat registration succeeds, its deposit is held, and no balance that can be read changes |
| `LedgerRuns.TotalIsWhatWasRegistered` | src/vault.rs:535-666 | over every run without imports and self-transfers the readable balances add up to exactly what was registered under new ids, if that fits 64 bits, and the ledger holds exactly all that was registered |
| `LedgerRuns.SnapshotsAreVersioned` | src/vault.rs:691-763 | what is exported and exactly what is accepted back, version byte included |
| `LedgerRuns.ExportImportRoundTrip` | src/vault.rs:691-763 | an exported state reads back into any process and never carries the server key |
| `LedgerRuns.BindingsHoldInEveryHistory` | src/vault.rs:711-854 | every binding is to the id derived from its projection and has a balance, however processes operate on their ledgers and load each other's snapshots |
| `LedgerRuns.AuthenticatedForTheSender` | src/vault.rs:887-1009 | an authenticated transfer that succeeds was proved for the projection its sender's id is derived from |
| `LedgerRuns.AuthenticatedTransfersAreForOneIdentity` | src/vault.rs:887-1009 | authenticated transfers of one vault are all proved for one projection, or two derivations collide |

## Left out

- ML-DSA, SHAKE-256, Keccak-256, PLP proofs and TFHE themselves: outside this repository; parameters here.
- ReplayProtocol.AcceptedStatementsWereSignedAndAreNotReplayed: what keys sign is fewer than 2^32 bytes long (nothing is assumed of what is presented), and the store's clock stays below 2^64 - 1, where retention saturates.
- Statements.PurposesAreDistinct: only `AUTH_APPROVAL_V1` is spelled in this repository; the other strings are written in the documented form, and it is for those spellings that the lemma holds.
- Base64Url.EncodeText: bit operations are defined bit by bit on numbers below 2^32, not on a machine type.
- Concurrency below the steps of the protocol: a nonce claim is one step, as the store's contract requires.
- `RevokedKeys` is a finite set of keys; a relying party's own `is_revoked` function is the set of keys it answers for.
- The error a public caller sees, and the length of an error's wording: every refusal is one opaque error by design.
- `key_fingerprint`, session handling and the serde wrappers around the base64url codec.
- Holders: the builders are functions that return a signed record; setting the signature field in place is not captured.
- Base64Url.StrictMeansCanonical: texts are their UTF-8 bytes; that a Rust `str` is valid UTF-8 plays no part.
- PolicyRuns.IntervalBound: for a clock that does not step back; `SteppingBackEscapesTheDay` states what happens otherwise.
- LedgerRuns.BindingsHoldInEveryHistory: a snapshot some ledger exported may be loaded by any process; bytes no ledger exported may decode to any state, bindings included.
- LedgerRuns.TotalIsWhatWasRegistered: excludes imports, which replace the ledger, and self-transfers, which mint; `SelfTransfersMint` states what those do.
- Ledger.TfheComputesTransfers: the laws are those of a server key that matches the client's; another valid key computes other values.
- The 64 KB result buffer of the wasm host calls and raw pointers: byte strings here. `ERR_INSUFFICIENT_BALANCE` is never returned.
- The EIP-191 digest of the binding message: its pre-image is modelled as text, not its UTF-8 bytes.
- bincode: the encodings of the spend intent and of the ledger state are parameters; round trips assume the latter decodes what it encoded.
- Receipts and their signatures, the client SDKs, storage back ends, the command-line tool: packaging around what is modelled.
- Constant-time comparison, zeroization, privacy and unlinkability: not properties of these functions' results.
