# Telos arbitration contract — a Dafny model

This project models the `eosio.arbitration` smart contract of the Telos governance platform
(`contracts/eosio.arbitration/include/eosio.arbitration/eosio.arbitration.hpp`). The contract runs elections that fill a
bounded roster of arbitrators, accepts dispute cases filed by a claimant with one or more
claims, moves each case through a fixed sequence of phases (CASE_SETUP, AWAITING_ARBS,
CASE_INVESTIGATION, HEARING, DELIBERATION, DECISION, ENFORCEMENT, RESOLVED, plus the terminal
side branch DISMISSED), and lets arbitrators merge cases into joinders.

Layout:

- `types.dfy` (`ArbTypes`): the records `nominee`, `arbitrator`, `claim`, `casefile`,
  `joinder` and `config` as datatypes, and the enums `case_state`, `claim_class`,
  `arb_status` and `election_status` as datatypes with their `uint8` codes and decoders.
  An account `name` is its 64-bit value.
- `keys.dfy` (`CaseKeys`): the secondary keys `by_claimant` and `by_uuid` of a case file.
- `lifecycle.dfy` (`CaseLifecycle`): the phase order, a transition table keyed on
  (action, phase) that every status-changing action consults, and lemmas over runs of actions.
- `claims.dfy` (`ClaimLists`): finding and withdrawing an unread claim by its document hash.
- `seqs.dfy` (`Seqs`): duplicate-free sequences and removal of an element.
- `vectors.dfy` (`Vectors`): the `map` helper, which walks a vector in place and hands each
  element to a handler.
- `tables.dfy` (`CaseTables`): the consistency predicates over the contract's tables and, for
  each kind of table update an action makes, a lemma that the update keeps them. Among other
  things, the tables are consistent when:
  - every assigned arbitrator lists the case among its open cases, or among its closed cases
    once the case is resolved;
  - every accepted claim id is in the claims table;
  - every case named in a joinder exists and has left CASE_SETUP.
- `elections.dfy` (`Elections`): seat expiry, free seats, the winners of an election, and the
  walk that seats them.
- `arbitration.dfy` (`Arbitration`): the class `Contract`. It holds the tables as maps keyed by
  primary key and has one method per action. Each action either commits in full, returning
  `Pass`, or fails with an `Error` and leaves the object unchanged. Every action preserves
  `Valid()`, which says the tables are consistent.

Modelling choices:

- The header declares the actions but not their bodies. The actions' behaviour comes from:
  - the doc comments on the declarations;
  - the enum notes: joinders stop at DECISION, and DISMISSED is final.

  Where these say nothing, the model makes one choice and states it in the method's contract.
- Failure checks mostly run in this order: existence (`NotFound`), then the caller's role
  (`Unauthorized`), then the phase (`InvalidState`), then the arguments (`EmptyCase`,
  `MalformedReference`, `InvalidArgument`, `DuplicateEntry`). The exceptions, each stated in
  its method's contract:
  - `newarbstatus` and `newcfstatus` reject a status code that does not decode
    (`InvalidArgument`) before they look at the current state;
  - `newjoinder` rejects joining a case to itself (`InvalidArgument`) before the role check;
  - `removeclaim`, `dismissclaim` and `acceptclaim` report a missing claim (`NotFound`) after
    the phase check, since the claim is looked up inside a case that must be in the right phase.
- The caller's authority is a comparison of the acting name. For the claimant actions it is
  compared with the case's claimant; for the arbitrator actions, with the case's assigned
  arbitrators.
- `validate_ipfs_url` is a predicate the contract is constructed with. The current time is an
  argument.
- `newcfstatus` may only move a case one phase forward, starting anywhere from
  CASE_INVESTIGATION up to DECISION. `advancecase` stops at DECISION. RESOLVED and DISMISSED
  are reached only through `resolvecase` and `dismisscase`, which record a ruling.
- `dismisscase` needs an assigned arbitrator, so in practice it applies from
  CASE_INVESTIGATION up to DELIBERATION. The model reads the DECISION note of the case-state
  enumeration as closing dismissal from DECISION on; cases in CASE_SETUP and AWAITING_ARBS have
  no arbitrator who could act.
- `recuse` is allowed in the phases from CASE_INVESTIGATION to ENFORCEMENT. A case left with
  no arbitrators goes back to AWAITING_ARBS, even from DECISION or ENFORCEMENT. Such a case
  can then be assigned again and, being before DECISION once more, joined to a joinder.
- `initelection` opens the voting window `election_start` after the call, or at once when
  `auto_start_election` is set, and the window lasts `election_duration`. The header gives no
  body, so `election_start` is read as a delay from the call.
- An election may seat two kinds of nominee: a name without a roster record, which gets a
  fresh record; and an arbitrator whose seat has expired and who stands again. The second
  keeps its record, which becomes AVAILABLE for a new term and keeps its case lists. A
  nominee who still holds a seat in any other status is passed over.
- The primary keys handed out by the tables (`available_primary_key`) are counters kept
  beside each table.

## Model

| member | source | states |
|---|---|---|
| `ArbTypes.CaseState.Code` | contracts/eosio.arbitration/include/eosio.arbitration/eosio.arbitration.hpp:37-47 | each phase has a code from 0 to 8, and 8 is exactly DISMISSED |
| `ArbTypes.CaseStateOf` | contracts/eosio.arbitration/include/eosio.arbitration/eosio.arbitration.hpp:37-47 | a byte names a phase exactly when it is at most 8, and the phase decoded has that byte as its code |
| `ArbTypes.ClaimClass.Code` | contracts/eosio.arbitration/include/eosio.arbitration/eosio.arbitration.hpp:49-65 | each claim class has a code from 0 to 14, and 0 is exactly UNDECIDED |
| `ArbTypes.ClaimClassOf` | contracts/eosio.arbitration/include/eosio.arbitration/eosio.arbitration.hpp:49-65 | a byte names a claim class exactly when it is at most 14, and decodes to the class with that code |
| `ArbTypes.ArbStatus.Code` | contracts/eosio.arbitration/include/eosio.arbitration/eosio.arbitration.hpp:67-72 | each arbitrator status has a code from 0 to 3, and 3 is exactly SEAT_EXPIRED |
| `ArbTypes.ArbStatusOf` | contracts/eosio.arbitration/include/eosio.arbitration/eosio.arbitration.hpp:67-72 | a byte names an arbitrator status exactly when it is at most 3, and decodes to the status with that code |
| `CaseKeys.ByUuid` | contracts/eosio.arbitration/include/eosio.arbitration/eosio.arbitration.hpp:309-314 | the high 64 bits of the key are `by_claimant` (the claimant's name) and the low 64 bits are the respondent's name |
| `CaseKeys.ByUuidInjective` | contracts/eosio.arbitration/include/eosio.arbitration/eosio.arbitration.hpp:310-314 | two cases share a `by_uuid` key if and only if they have the same claimant and the same respondent |
| `CaseKeys.ByClaimantMatches` | contracts/eosio.arbitration/include/eosio.arbitration/eosio.arbitration.hpp:309 | two cases share a `by_claimant` key if and only if they have the same claimant |
| `CaseLifecycle.Successor` | contracts/eosio.arbitration/include/eosio.arbitration/eosio.arbitration.hpp:37-47 | every phase except RESOLVED and DISMISSED has a next phase, and its code is one higher |
| `CaseLifecycle.Transition` | contracts/eosio.arbitration/include/eosio.arbitration/eosio.arbitration.hpp:37-47 | no action leaves RESOLVED or DISMISSED; every admitted move is legal, and a legal forward move goes exactly one phase ahead except DECISION to RESOLVED and the dismissal; DISMISSED is reached exactly by `dismisscase` from CASE_INVESTIGATION up to DELIBERATION, RESOLVED exactly by `resolvecase` from DECISION or ENFORCEMENT; `readycase` applies exactly in CASE_SETUP; the only backward move is a recusal to AWAITING_ARBS |
| `CaseLifecycle.ClosedMovesNowhere` | contracts/eosio.arbitration/include/eosio.arbitration/eosio.arbitration.hpp:45-46 | the only legal move from RESOLVED or DISMISSED is to stay |
| `CaseLifecycle.NoSkippedPhases` | contracts/eosio.arbitration/include/eosio.arbitration/eosio.arbitration.hpp:37-47 | a legal forward move other than dismissal goes exactly one phase ahead, or from DECISION straight to RESOLVED |
| `CaseLifecycle.ClosedIsFinal` | contracts/eosio.arbitration/include/eosio.arbitration/eosio.arbitration.hpp:46 | a resolved or dismissed case keeps its phase under any sequence of actions |
| `CaseLifecycle.ForwardWithoutRecusal` | contracts/eosio.arbitration/include/eosio.arbitration/eosio.arbitration.hpp:37-47 | a sequence of actions without a recusal never lowers a case's phase |
| `CaseLifecycle.SetupLeftOnlyByReady` | contracts/eosio.arbitration/include/eosio.arbitration/eosio.arbitration.hpp:138-140 | a case leaves CASE_SETUP only through `readycase` |
| `ClaimLists.FindClaim` | contracts/eosio.arbitration/include/eosio.arbitration/eosio.arbitration.hpp:393 | finds a claim exactly when one carries the hash, and then the position of the first such claim |
| `ClaimLists.RemoveAt` | contracts/eosio.arbitration/include/eosio.arbitration/eosio.arbitration.hpp:395 | drops exactly the claim at the position, keeps the others in order, and the multiset of claims loses exactly that one |
| `ClaimLists.TakeClaim` | contracts/eosio.arbitration/include/eosio.arbitration/eosio.arbitration.hpp:393-395 | fails exactly when no unread claim has the hash; otherwise returns a claim with that hash and a list one shorter that, with it, is a permutation of the original |
| `ClaimLists.Count` | contracts/eosio.arbitration/include/eosio.arbitration/eosio.arbitration.hpp:300 | the number of unread claims with a hash is zero exactly when none has it |
| `ClaimLists.TakeClaimCountsDown` | contracts/eosio.arbitration/include/eosio.arbitration/eosio.arbitration.hpp:130-132 | withdrawing a claim by hash removes exactly one claim with that hash |
| `ClaimLists.CountSplit` | contracts/eosio.arbitration/include/eosio.arbitration/eosio.arbitration.hpp:300 | the count over a list is the sum of the counts over its two halves |
| `Seqs.Remove` | contracts/eosio.arbitration/include/eosio.arbitration/eosio.arbitration.hpp:263 | removing an id keeps every other element and drops it; a duplicate-free list stays duplicate-free; a list without it is unchanged |
| `Vectors.Map` | contracts/eosio.arbitration/include/eosio.arbitration/eosio.arbitration.hpp:397-402 | the vector in place, and the handler's captured state, end as the handler's front-to-back walk defines |
| `Vectors.VisitKeepsLength` | contracts/eosio.arbitration/include/eosio.arbitration/eosio.arbitration.hpp:397-402 | the walk does not change the vector's length |
| `Vectors.VisitsEachIndexInOrder` | contracts/eosio.arbitration/include/eosio.arbitration/eosio.arbitration.hpp:399-401 | the handler is shown every index exactly once, in increasing order |
| `Vectors.VisitAt` | contracts/eosio.arbitration/include/eosio.arbitration/eosio.arbitration.hpp:399-401 | each element becomes what the handler makes of it, given the state the earlier calls left |
| `CaseTables.MoveToClosed` | contracts/eosio.arbitration/include/eosio.arbitration/eosio.arbitration.hpp:263-264 | a resolved case leaves an arbitrator's open cases and joins its closed cases; the other open cases stay |
| `CaseTables.NomineeKeysIdentify` | contracts/eosio.arbitration/include/eosio.arbitration/eosio.arbitration.hpp:251 | no two nominees share a primary key (the nominee's name) |
| `CaseTables.ArbitratorKeysIdentify` | contracts/eosio.arbitration/include/eosio.arbitration/eosio.arbitration.hpp:270 | no two arbitrators share a primary key (the arbitrator's name) |
| `CaseTables.ClaimKeysIdentify` | contracts/eosio.arbitration/include/eosio.arbitration/eosio.arbitration.hpp:282 | no two stored claims share a primary key, and the next claim id is unused |
| `CaseTables.CaseKeysIdentify` | contracts/eosio.arbitration/include/eosio.arbitration/eosio.arbitration.hpp:307 | no two case files share a primary key, and the next case id is unused |
| `CaseTables.JoinderKeysIdentify` | contracts/eosio.arbitration/include/eosio.arbitration/eosio.arbitration.hpp:357 | no two joinders share a primary key, and the next joinder id is unused |
| `Elections.AvailableSeats` | contracts/eosio.arbitration/include/eosio.arbitration/eosio.arbitration.hpp:387 | the free seats plus the AVAILABLE arbitrators reach the configured maximum, and equal it whenever a seat is free |
| `Elections.ExpireSeats` | contracts/eosio.arbitration/include/eosio.arbitration/eosio.arbitration.hpp:267 | after expiry no AVAILABLE arbitrator's term has ended; an AVAILABLE seat whose term has ended becomes SEAT_EXPIRED, and every other record is unchanged |
| `Elections.Winners` | contracts/eosio.arbitration/include/eosio.arbitration/eosio.arbitration.hpp:114-115 | an election seats no more nominees than there are seats, only eligible ranked nominees, none twice |
| `Elections.WinnersFillSeats` | contracts/eosio.arbitration/include/eosio.arbitration/eosio.arbitration.hpp:114-115 | an election seats as many nominees as it can: the smaller of the seats and the ranked eligible nominees |
| `Elections.WinnersTopRanked` | contracts/eosio.arbitration/include/eosio.arbitration/eosio.arbitration.hpp:114-115 | an eligible ranked name is passed over only when every seat is taken, and only by names whose first place in the ranking is above it |
| `Elections.WinnersOutrankPassedOver` | contracts/eosio.arbitration/include/eosio.arbitration/eosio.arbitration.hpp:114-115 | with each name ranked once, no winner is ranked below an eligible name that was passed over |
| `Elections.NewArbitrator` | contracts/eosio.arbitration/include/eosio.arbitration/eosio.arbitration.hpp:389 | a newly seated arbitrator is AVAILABLE, has no cases, and its term runs one term length from now |
| `Elections.Seat` | contracts/eosio.arbitration/include/eosio.arbitration/eosio.arbitration.hpp:389 | a seated nominee is AVAILABLE from now for one term with its nomination's credentials link; a newcomer has no cases, a re-elected arbitrator keeps its case lists and languages |
| `Elections.WalkSeat` | contracts/eosio.arbitration/include/eosio.arbitration/eosio.arbitration.hpp:389 | seating a ranked eligible nominee while a seat is left continues the walk towards exactly the winners |
| `Elections.WalkSkip` | contracts/eosio.arbitration/include/eosio.arbitration/eosio.arbitration.hpp:389 | passing over a name that is not eligible, or when no seat is left, continues the walk towards exactly the winners |
| `Elections.SeatWinners` | contracts/eosio.arbitration/include/eosio.arbitration/eosio.arbitration.hpp:389 | the walk seats exactly the winners among the eligible nominees: they leave the registry and hold a new term on the roster; every other roster record is untouched |
| `Elections.ExpiryKeepsBooking` | contracts/eosio.arbitration/include/eosio.arbitration/eosio.arbitration.hpp:387 | marking lapsed seats SEAT_EXPIRED keeps the roster keyed by name and every case's arbitrators on the roster with the case booked |
| `Elections.ElectionKeepsBooking` | contracts/eosio.arbitration/include/eosio.arbitration/eosio.arbitration.hpp:114-115 | after an election every case's arbitrators are still on the roster with the case booked |
| `CaseTables.CloseCaseFor` | contracts/eosio.arbitration/include/eosio.arbitration/eosio.arbitration.hpp:168-169 | the loop leaves the roster in which every arbitrator of the case, and no one else, has moved the case to its closed list |
| `CaseTables.BookAssign` | contracts/eosio.arbitration/include/eosio.arbitration/eosio.arbitration.hpp:148-149 | assigning an arbitrator to a case and the case to the arbitrator keeps every case booked |
| `CaseTables.BookRecuse` | contracts/eosio.arbitration/include/eosio.arbitration/eosio.arbitration.hpp:174-175 | taking an arbitrator off a case and the case off the arbitrator keeps every case booked |
| `CaseTables.BookResolve` | contracts/eosio.arbitration/include/eosio.arbitration/eosio.arbitration.hpp:168-169 | resolving a case and closing it for each of its arbitrators keeps every case booked |
| `CaseTables.CaseEditKeeps` | contracts/eosio.arbitration/include/eosio.arbitration/eosio.arbitration.hpp:126-128 | changing one case without touching its arbitrators, its resolved-ness or sending it back to CASE_SETUP keeps the tables consistent, also when the claims table grows |
| `CaseTables.FileKeeps` | contracts/eosio.arbitration/include/eosio.arbitration/eosio.arbitration.hpp:122-124 | opening a new case in CASE_SETUP under the next free id keeps the tables consistent |
| `CaseTables.AssignKeeps` | contracts/eosio.arbitration/include/eosio.arbitration/eosio.arbitration.hpp:148-149 | putting a new arbitrator on an open case, and the case on its open list, keeps the tables consistent |
| `CaseTables.RecuseKeeps` | contracts/eosio.arbitration/include/eosio.arbitration/eosio.arbitration.hpp:174-175 | an assigned arbitrator leaving a case in progress, with the case reverting to AWAITING_ARBS when no one is left, keeps the tables consistent |
| `CaseTables.ResolveKeeps` | contracts/eosio.arbitration/include/eosio.arbitration/eosio.arbitration.hpp:168-169 | resolving a case from DECISION or ENFORCEMENT and closing it for each of its arbitrators keeps the tables consistent |
| `Arbitration.Contract.constructor` | contracts/eosio.arbitration/include/eosio.arbitration/eosio.arbitration.hpp:25 | all tables start empty with the given configuration, no election open, and the invariant holds |
| `Arbitration.Contract.SetConfig` | contracts/eosio.arbitration/include/eosio.arbitration/eosio.arbitration.hpp:29-30 | fails unless there is a seat, an election length and a fee schedule; otherwise overwrites exactly those settings and the edit time |
| `Arbitration.Contract.InitElection` | contracts/eosio.arbitration/include/eosio.arbitration/eosio.arbitration.hpp:99-100 | fails while an election is open, or when no seat is free once lapsed terms are noticed; otherwise marks every AVAILABLE seat past its term SEAT_EXPIRED, leaves the case tables and nominees as they were, and opens an election under a new ballot id, whose window opens `election_start` from now (at once when auto-start is set) and lasts `election_duration` |
| `Arbitration.Contract.RegisterNominee` | contracts/eosio.arbitration/include/eosio.arbitration/eosio.arbitration.hpp:102-103 | fails on a malformed link or an existing application; otherwise adds exactly that nominee |
| `Arbitration.Contract.UnregisterNominee` | contracts/eosio.arbitration/include/eosio.arbitration/eosio.arbitration.hpp:105-106 | fails for an unknown nominee; otherwise removes exactly that nominee |
| `Arbitration.Contract.CandidateAddLead` | contracts/eosio.arbitration/include/eosio.arbitration/eosio.arbitration.hpp:108-109 | fails for an unknown nominee or a malformed link; otherwise replaces only that nominee's credentials link |
| `Arbitration.Contract.CandidateRemoveLead` | contracts/eosio.arbitration/include/eosio.arbitration/eosio.arbitration.hpp:111-112 | fails for an unknown nominee; otherwise clears only that nominee's credentials link and keeps the nomination |
| `Arbitration.Contract.EndElection` | contracts/eosio.arbitration/include/eosio.arbitration/eosio.arbitration.hpp:114-115 | fails unless an election is open and its window has ended; otherwise expires lapsed seats, seats the winners among the nominees without a seat or with an expired one, removes them from the registry, closes the election and keeps its window |
| `Arbitration.Contract.NewArbStatus` | contracts/eosio.arbitration/include/eosio.arbitration/eosio.arbitration.hpp:189-190 | an arbitrator sets its own status to a valid status other than SEAT_EXPIRED; an expired seat cannot be revived; nothing else changes |
| `Arbitration.Contract.FileCase` | contracts/eosio.arbitration/include/eosio.arbitration/eosio.arbitration.hpp:122-124 | with a valid link, creates a new case under the next case id, which is then used up, in CASE_SETUP, without respondent, holding exactly that one unread claim |
| `Arbitration.Contract.AddClaim` | contracts/eosio.arbitration/include/eosio.arbitration/eosio.arbitration.hpp:126-128 | only the claimant, only in CASE_SETUP, with a valid link: appends one unread claim and changes nothing else |
| `Arbitration.Contract.RemoveClaim` | contracts/eosio.arbitration/include/eosio.arbitration/eosio.arbitration.hpp:130-132 | only the claimant, only in CASE_SETUP: withdraws exactly the first unread claim with the hash, and no other case field changes |
| `Arbitration.Contract.ShredCase` | contracts/eosio.arbitration/include/eosio.arbitration/eosio.arbitration.hpp:134-136 | only the claimant, only in CASE_SETUP: deletes exactly that case; otherwise the case table is unchanged |
| `Arbitration.Contract.ReadyCase` | contracts/eosio.arbitration/include/eosio.arbitration/eosio.arbitration.hpp:138-140 | only the claimant, only from CASE_SETUP, and never with zero claims: the case moves to AWAITING_ARBS and nothing else changes |
| `Arbitration.Contract.AssignToCase` | contracts/eosio.arbitration/include/eosio.arbitration/eosio.arbitration.hpp:148-149 | an AVAILABLE arbitrator not yet on the case joins a case awaiting arbitrators or in progress before DECISION; the case and the arbitrator's open cases change together; claims, joinders, registry, settings, election window and id counters stay |
| `Arbitration.Contract.DismissClaim` | contracts/eosio.arbitration/include/eosio.arbitration/eosio.arbitration.hpp:154-155 | an assigned arbitrator of a case in progress drops exactly one unread claim with the hash |
| `Arbitration.Contract.AcceptClaim` | contracts/eosio.arbitration/include/eosio.arbitration/eosio.arbitration.hpp:157-159 | the claim leaves the unread list, is stored under the next claim id with the given decision link and class, and that id is appended to the accepted claims |
| `Arbitration.Contract.AdvanceCase` | contracts/eosio.arbitration/include/eosio.arbitration/eosio.arbitration.hpp:161-162 | an assigned arbitrator moves the case exactly one phase forward, never beyond DECISION |
| `Arbitration.Contract.NewCaseFileStatus` | contracts/eosio.arbitration/include/eosio.arbitration/eosio.arbitration.hpp:171-172 | the new status must decode and be the next phase after the current one, from CASE_INVESTIGATION up to DECISION |
| `Arbitration.Contract.DismissCase` | contracts/eosio.arbitration/include/eosio.arbitration/eosio.arbitration.hpp:164-166 | an assigned arbitrator dismisses a case before DECISION and records the ruling link |
| `Arbitration.Contract.ResolveCase` | contracts/eosio.arbitration/include/eosio.arbitration/eosio.arbitration.hpp:168-169 | from DECISION or ENFORCEMENT the case becomes RESOLVED with its ruling, and the case moves from open to closed for each of its arbitrators; claims, joinders, registry, settings, election window and id counters stay |
| `Arbitration.Contract.Recuse` | contracts/eosio.arbitration/include/eosio.arbitration/eosio.arbitration.hpp:174-175 | an assigned arbitrator leaves a case in progress and drops it from its open cases; a case left without arbitrators reverts to AWAITING_ARBS; claims, joinders, registry, settings, election window and id counters stay |
| `Arbitration.Contract.NewJoinder` | contracts/eosio.arbitration/include/eosio.arbitration/eosio.arbitration.hpp:177-178 | fails, leaving the joinders unchanged, if either case is at DECISION or later, not assigned to the arbitrator, or already joined; otherwise records a joinder of the two cases under the next joinder id |
| `Arbitration.Contract.JoinCases` | contracts/eosio.arbitration/include/eosio.arbitration/eosio.arbitration.hpp:180-181 | fails, leaving the joinders unchanged, if the arbitrator is not on the new case and on every joined case, if any of them is at DECISION or later, or if the new case is already joined; otherwise appends the case to the joinder |

## Left out

- `dismissarb` (removing an arbitrator by multisig of block producers) is not modelled. It
  is gated entirely on a permission check against the producers' authority, and authority
  structures are outside this model.
- `addarbs` (asking for more arbitrators on a case) is not modelled. The header gives its
  signature but no selection rule for which arbitrators are added, and inventing one would
  not reflect the contract.
- The Trail voting system is not modelled. An election's outcome arrives at `endelection` as
  a ranking parameter, and the ballot id is only a counter. The PASSED and FAILED election
  states are declared but no modelled action produces them.
- `config.auto_start_election` only decides whether `initelection` opens the window at once;
  restarting an election automatically when one ends is not modelled.
- Fees and token transfers are not modelled, and `fee_structure` is stored only.
- `multi_index`/`singleton` storage and serialization are not modelled. Tables are maps keyed
  by primary key; the `by_claimant` and `by_uuid` secondary indices are functions on records.
- `Elections.AvailableSeats`: the count of free seats is an unbounded natural. The contract's
  helpers carry it as an 8-bit value while `max_elected_arbs` is 16-bit, so a count above 255
  would be truncated there; that truncation is not modelled.
- Unsigned widths are not modelled. Case, claim and joinder ids and all timestamps are
  unbounded naturals, so the 64-bit id space and 32-bit time stamps never wrap.
- `lang_code` is not modelled as an enum, and `required_langs`/`languages` are plain byte
  lists. No action of the header reads them.
- `memo` (dismissclaim) and `rationale` (recuse) are accepted and not stored: the header has
  no field for them.
- Seat expiry is evaluated only when an election opens or ends; an AVAILABLE arbitrator whose
  term has passed can still be assigned until then.
- Joint assignment and advancement of all cases in a joinder are not modelled: each case is
  assigned and advanced individually, and a joinder only records the grouping.
- `Arbitration.Contract.EndElection`: the `nominee` argument is accepted and ignored, since
  the header gives it no role.
