/**
 * The arbitration contract: its tables, and one method per action. Every action either
 * commits in full or fails with an `Error` and leaves every table untouched.
 * Authority checks are reduced to comparing the acting name with the case's claimant or
 * with its assigned arbitrators; the current time is an argument.
 */
module Arbitration {
  import opened ArbTypes
  import opened CaseLifecycle
  import opened ClaimLists
  import opened Seqs
  import opened CaseTables
  import opened Elections

  class Contract {
    /** validate_ipfs_url: whether a string is a well-formed document link (supplied from outside). */
    const validLink: string -> bool

    var config: Config
    var nominees: map<Name, Nominee>
    var arbitrators: map<Name, Arbitrator>
    var casefiles: map<nat, CaseFile>
    var claims: map<nat, Claim>
    var joinders: map<nat, Joinder>
    /** The status of the current election, and when its voting window opens and ends. */
    var election: ElectionStatus
    var electionBegin: nat
    var electionEnd: nat
    /** The next primary key each table hands out; every key in use is smaller. */
    var nextCaseId: nat
    var nextClaimId: nat
    var nextJoinId: nat

    ghost predicate Valid()
      reads this
    {
      Consistent(casefiles, claims, joinders, nominees, arbitrators, nextCaseId, nextClaimId, nextJoinId)
    }

    /** The roster, registry, configuration and election are as they were. */
    twostate predicate RosterUnchanged()
      reads this
    {
      && config == old(config) && nominees == old(nominees) && arbitrators == old(arbitrators)
      && ElectionUnchanged()
    }

    /** The election status and its voting window are as they were. */
    twostate predicate ElectionUnchanged()
      reads this
    {
      ElectionWindow() == old(ElectionWindow())
    }

    ghost function ElectionWindow(): (ElectionStatus, nat, nat)
      reads this
    {
      (election, electionBegin, electionEnd)
    }

    /** No table handed out a new primary key. */
    twostate predicate CountersUnchanged()
      reads this
    {
      Counters() == old(Counters())
    }

    ghost function Counters(): (nat, nat, nat)
      reads this
    {
      (nextCaseId, nextClaimId, nextJoinId)
    }

    /** The case, claim and joinder tables are as they were. */
    twostate predicate CaseTablesUnchanged()
      reads this
    {
      && casefiles == old(casefiles) && claims == old(claims) && joinders == old(joinders)
      && CountersUnchanged()
    }

    constructor (defaults: Config, validLink: string -> bool)
      ensures Valid()
      ensures config == defaults && this.validLink == validLink
      ensures nominees == map[] && arbitrators == map[] && casefiles == map[] && claims == map[] && joinders == map[]
      ensures election == Closed
    {
      this.validLink := validLink;
      config := defaults;
      nominees, arbitrators := map[], map[];
      casefiles, claims, joinders := map[], map[], map[];
      election, electionBegin, electionEnd := Closed, 0, 0;
      nextCaseId, nextClaimId, nextJoinId := 0, 0, 0;
    }

    // -------------------------------------------------------------------------------------
    // Configuration

    /** setconfig: overwrites the settings; needs a positive seat count and election length and a fee schedule. */
    method SetConfig(maxElectedArbs: nat, electionDuration: nat, startElection: nat, arbTermLength: nat,
                     fees: seq<int>, now: nat) returns (r: Outcome)
      requires Valid()
      modifies this
      ensures Valid()
      ensures r == (if maxElectedArbs > 0 && electionDuration > 0 && fees != [] then Pass else Fail(InvalidArgument))
      ensures r.Fail? ==> unchanged(this)
      ensures r.Pass? ==> config == old(config).(maxElectedArbs := maxElectedArbs, electionDuration := electionDuration,
                                                   electionStart := startElection, arbTermLength := arbTermLength,
                                                   feeStructure := fees, lastTimeEdited := now)
      ensures r.Pass? ==> CaseTablesUnchanged() && nominees == old(nominees) && arbitrators == old(arbitrators)
      ensures r.Pass? ==> ElectionUnchanged()
    {
      if maxElectedArbs == 0 || electionDuration == 0 || fees == [] {
        return Fail(InvalidArgument);
      }
      config := config.(maxElectedArbs := maxElectedArbs, electionDuration := electionDuration,
                        electionStart := startElection, arbTermLength := arbTermLength,
                        feeStructure := fees, lastTimeEdited := now);
      r := Pass;
    }

    // -------------------------------------------------------------------------------------
    // Elections

    /**
     * initelection: opens an election when none is open and the roster has a free seat once
     * lapsed terms are noticed; the lapsed seats are marked SEAT_EXPIRED as it opens. The
     * voting window opens `electionStart` after the call, or at once when elections auto-start,
     * and lasts `electionDuration`.
     */
    method InitElection(now: nat) returns (r: Outcome)
      requires Valid()
      modifies this
      ensures Valid()
      ensures r == (if old(election) == Open then Fail(InvalidState)
                    else if AvailableSeats(ExpireSeats(old(arbitrators), now), old(config).maxElectedArbs) == 0
                    then Fail(CapacityExceeded)
                    else Pass)
      ensures r.Fail? ==> unchanged(this)
      ensures r.Pass? ==> election == Open
      ensures r.Pass? ==> electionBegin == (if old(config).autoStartElection then now else now + old(config).electionStart)
      ensures r.Pass? ==> electionEnd == electionBegin + old(config).electionDuration && electionBegin >= now
      ensures r.Pass? ==> config == old(config).(currentBallotId := old(config).currentBallotId + 1)
      ensures r.Pass? ==> arbitrators == ExpireSeats(old(arbitrators), now)
      ensures r.Pass? ==> CaseTablesUnchanged() && nominees == old(nominees)
    {
      if election == Open {
        return Fail(InvalidState);
      }
      var roster := ExpireSeats(arbitrators, now);
      if AvailableSeats(roster, config.maxElectedArbs) == 0 {
        return Fail(CapacityExceeded);
      }
      ExpiryKeepsBooking(casefiles, arbitrators, now);
      arbitrators := roster;
      config := config.(currentBallotId := config.currentBallotId + 1);
      election := Open;
      electionBegin := if config.autoStartElection then now else now + config.electionStart;
      electionEnd := electionBegin + config.electionDuration;
      r := Pass;
    }

    /** regarb: registers a nominee with a credentials link; one application per name. */
    method RegisterNominee(nominee: Name, credentialsLink: string, now: nat) returns (r: Outcome)
      requires Valid()
      modifies this
      ensures Valid()
      ensures r == (if !validLink(credentialsLink) then Fail(MalformedReference)
                    else if nominee in old(nominees) then Fail(DuplicateEntry)
                    else Pass)
      ensures r.Fail? ==> unchanged(this)
      ensures r.Pass? ==> nominees == old(nominees)[nominee := Nominee(nominee, credentialsLink, now)]
      ensures r.Pass? ==> CaseTablesUnchanged() && arbitrators == old(arbitrators) && config == old(config)
      ensures r.Pass? ==> ElectionUnchanged()
    {
      if !validLink(credentialsLink) {
        return Fail(MalformedReference);
      }
      if nominee in nominees {
        return Fail(DuplicateEntry);
      }
      nominees := nominees[nominee := Nominee(nominee, credentialsLink, now)];
      r := Pass;
    }

    /** unregnominee: withdraws a nomination. */
    method UnregisterNominee(nominee: Name) returns (r: Outcome)
      requires Valid()
      modifies this
      ensures Valid()
      ensures r == (if nominee in old(nominees) then Pass else Fail(NotFound))
      ensures r.Fail? ==> unchanged(this)
      ensures r.Pass? ==> nominees == old(nominees) - {nominee}
      ensures r.Pass? ==> CaseTablesUnchanged() && arbitrators == old(arbitrators) && config == old(config)
      ensures r.Pass? ==> ElectionUnchanged()
    {
      if nominee !in nominees {
        return Fail(NotFound);
      }
      nominees := nominees - {nominee};
      r := Pass;
    }

    /** candaddlead: a registered nominee replaces its credentials link. */
    method CandidateAddLead(nominee: Name, credentialsLink: string) returns (r: Outcome)
      requires Valid()
      modifies this
      ensures Valid()
      ensures r == (if nominee !in old(nominees) then Fail(NotFound)
                    else if !validLink(credentialsLink) then Fail(MalformedReference)
                    else Pass)
      ensures r.Fail? ==> unchanged(this)
      ensures r.Pass? ==> nominees == old(nominees)[nominee := old(nominees)[nominee].(credentialsLink := credentialsLink)]
      ensures r.Pass? ==> CaseTablesUnchanged() && arbitrators == old(arbitrators) && config == old(config)
      ensures r.Pass? ==> ElectionUnchanged()
    {
      if nominee !in nominees {
        return Fail(NotFound);
      }
      if !validLink(credentialsLink) {
        return Fail(MalformedReference);
      }
      nominees := nominees[nominee := nominees[nominee].(credentialsLink := credentialsLink)];
      r := Pass;
    }

    /** candrmvlead: a registered nominee withdraws its credentials link; the nomination stays. */
    method CandidateRemoveLead(nominee: Name) returns (r: Outcome)
      requires Valid()
      modifies this
      ensures Valid()
      ensures r == (if nominee in old(nominees) then Pass else Fail(NotFound))
      ensures r.Fail? ==> unchanged(this)
      ensures r.Pass? ==> nominees == old(nominees)[nominee := old(nominees)[nominee].(credentialsLink := "")]
      ensures r.Pass? ==> nominees.Keys == old(nominees).Keys
      ensures r.Pass? ==> CaseTablesUnchanged() && arbitrators == old(arbitrators) && config == old(config)
      ensures r.Pass? ==> ElectionUnchanged()
    {
      if nominee !in nominees {
        return Fail(NotFound);
      }
      nominees := nominees[nominee := nominees[nominee].(credentialsLink := "")];
      r := Pass;
    }

    /**
     * endelection: once the voting window is over, lapsed seats expire, then the seats left
     * free are given, in ranking order, to eligible nominees: those without a roster record and
     * re-elected arbitrators whose seat has expired. `ranking` is the tally of the external
     * ballot. Seated nominees leave the registry; the others stay.
     */
    method EndElection(nominee: Name, ranking: seq<Name>, now: nat) returns (r: Outcome, promoted: seq<Name>)
      requires Valid()
      modifies this
      ensures Valid()
      ensures r == (if old(election) != Open then Fail(InvalidState)
                    else if now < old(electionEnd) then Fail(InvalidState)
                    else Pass)
      ensures r.Fail? ==> unchanged(this)
      ensures r.Pass? ==>
        var roster := ExpireSeats(old(arbitrators), now);
        && promoted == Winners(ranking, Eligible(roster, old(nominees)), AvailableSeats(roster, old(config).maxElectedArbs))
        && PromotedSoFar(roster, old(nominees), Members(promoted), arbitrators, nominees, now, old(config).arbTermLength)
      ensures r.Pass? ==> election == Closed && electionBegin == old(electionBegin) && electionEnd == old(electionEnd)
      ensures r.Pass? ==> config == old(config) && CaseTablesUnchanged()
    {
      if election != Open || now < electionEnd {
        return Fail(InvalidState), [];
      }
      var roster := ExpireSeats(arbitrators, now);
      var seats := AvailableSeats(roster, config.maxElectedArbs);
      var arbs, noms;
      arbs, noms, promoted := SeatWinners(ranking, roster, nominees, seats, now, config.arbTermLength);
      ElectionKeepsBooking(casefiles, arbitrators, nominees, now, config.arbTermLength, Members(promoted), arbs, noms);
      arbitrators, nominees := arbs, noms;
      election := Closed;
      r := Pass;
    }

    /** newarbstatus: an arbitrator reports itself AVAILABLE, UNAVAILABLE or INACTIVE; an expired seat stays expired. */
    method NewArbStatus(newStatus: uint8, arbitrator: Name) returns (r: Outcome)
      requires Valid()
      modifies this
      ensures Valid()
      ensures r == (if arbitrator !in old(arbitrators) then Fail(NotFound)
                    else if ArbStatusOf(newStatus).None? || ArbStatusOf(newStatus) == Some(SeatExpired) then Fail(InvalidArgument)
                    else if old(arbitrators)[arbitrator].arbStatus == SeatExpired then Fail(InvalidState)
                    else Pass)
      ensures r.Fail? ==> unchanged(this)
      ensures r.Pass? ==> arbitrators == old(arbitrators)[arbitrator := old(arbitrators)[arbitrator].(arbStatus := ArbStatusOf(newStatus).value)]
      ensures r.Pass? ==> arbitrators[arbitrator].arbStatus != SeatExpired
      ensures r.Pass? ==> CaseTablesUnchanged() && nominees == old(nominees) && config == old(config)
      ensures r.Pass? ==> ElectionUnchanged()
    {
      if arbitrator !in arbitrators {
        return Fail(NotFound);
      }
      var status := ArbStatusOf(newStatus);
      if status.None? || status.value == SeatExpired {
        return Fail(InvalidArgument);
      }
      if arbitrators[arbitrator].arbStatus == SeatExpired {
        return Fail(InvalidState);
      }
      arbitrators := arbitrators[arbitrator := arbitrators[arbitrator].(arbStatus := status.value)];
      r := Pass;
    }

    // -------------------------------------------------------------------------------------
    // Case setup: actions of the claimant

    /** filecase: opens a case in CASE_SETUP holding one unread claim; no respondent is named. */
    method FileCase(claimant: Name, claimLink: string, now: nat) returns (r: Outcome, caseId: nat)
      requires Valid()
      modifies this
      ensures Valid()
      ensures r == (if validLink(claimLink) then Pass else Fail(MalformedReference))
      ensures r.Fail? ==> unchanged(this)
      ensures r.Pass? ==> caseId !in old(casefiles)
      ensures r.Pass? ==> casefiles == old(casefiles)[caseId :=
                CaseFile(caseId, CaseSetup, claimant, NoName, [], [], [Claim(0, claimLink, "", Undecided)], [], "", "", now)]
      ensures r.Pass? ==> caseId == old(nextCaseId) && nextCaseId == old(nextCaseId) + 1
      ensures r.Pass? ==> nextClaimId == old(nextClaimId) && nextJoinId == old(nextJoinId)
      ensures r.Pass? ==> claims == old(claims) && joinders == old(joinders) && RosterUnchanged()
    {
      if !validLink(claimLink) {
        return Fail(MalformedReference), 0;
      }
      caseId := nextCaseId;
      var cf := CaseFile(caseId, CaseSetup, claimant, NoName, [], [], [Claim(0, claimLink, "", Undecided)], [], "", "", now);
      FileKeeps(casefiles, claims, joinders, nominees, arbitrators, nextCaseId, nextClaimId, nextJoinId, cf);
      casefiles := casefiles[caseId := cf];
      nextCaseId := nextCaseId + 1;
      r := Pass;
    }

    /** addclaim: the claimant adds another unread claim while the case is in CASE_SETUP. */
    method AddClaim(caseId: nat, claimLink: string, claimant: Name) returns (r: Outcome)
      requires Valid()
      modifies this
      ensures Valid()
      ensures r == (if caseId !in old(casefiles) then Fail(NotFound)
                    else if old(casefiles)[caseId].claimant != claimant then Fail(Unauthorized)
                    else if old(casefiles)[caseId].caseStatus != CaseSetup then Fail(InvalidState)
                    else if !validLink(claimLink) then Fail(MalformedReference)
                    else Pass)
      ensures r.Fail? ==> unchanged(this)
      ensures r.Pass? ==> casefiles == old(casefiles)[caseId := old(casefiles)[caseId].(
                unreadClaims := old(casefiles)[caseId].unreadClaims + [Claim(0, claimLink, "", Undecided)])]
      ensures r.Pass? ==> claims == old(claims) && joinders == old(joinders) && RosterUnchanged() && CountersUnchanged()
    {
      if caseId !in casefiles {
        return Fail(NotFound);
      }
      var cf := casefiles[caseId];
      if cf.claimant != claimant {
        return Fail(Unauthorized);
      }
      if cf.caseStatus != CaseSetup {
        return Fail(InvalidState);
      }
      if !validLink(claimLink) {
        return Fail(MalformedReference);
      }
      var cf' := cf.(unreadClaims := cf.unreadClaims + [Claim(0, claimLink, "", Undecided)]);
      CaseEditKeeps(casefiles, claims, joinders, nominees, arbitrators, nextCaseId, nextClaimId, nextJoinId, claims, nextClaimId, caseId, cf');
      casefiles := casefiles[caseId := cf'];
      r := Pass;
    }

    /** removeclaim: the claimant withdraws one unread claim, only during CASE_SETUP. */
    method RemoveClaim(caseId: nat, claimHash: string, claimant: Name) returns (r: Outcome)
      requires Valid()
      modifies this
      ensures Valid()
      ensures r == (if caseId !in old(casefiles) then Fail(NotFound)
                    else if old(casefiles)[caseId].claimant != claimant then Fail(Unauthorized)
                    else if old(casefiles)[caseId].caseStatus != CaseSetup then Fail(InvalidState)
                    else if !HasClaim(old(casefiles)[caseId].unreadClaims, claimHash) then Fail(NotFound)
                    else Pass)
      ensures r.Fail? ==> unchanged(this)
      ensures r.Pass? ==> casefiles == old(casefiles)[caseId := old(casefiles)[caseId].(
                unreadClaims := TakeClaim(old(casefiles)[caseId].unreadClaims, claimHash).value.0)]
      ensures r.Pass? ==> claims == old(claims) && joinders == old(joinders) && RosterUnchanged() && CountersUnchanged()
    {
      if caseId !in casefiles {
        return Fail(NotFound);
      }
      var cf := casefiles[caseId];
      if cf.claimant != claimant {
        return Fail(Unauthorized);
      }
      if cf.caseStatus != CaseSetup {
        return Fail(InvalidState);
      }
      var taken := TakeClaim(cf.unreadClaims, claimHash);
      if taken.None? {
        return Fail(NotFound);
      }
      var cf' := cf.(unreadClaims := taken.value.0);
      CaseEditKeeps(casefiles, claims, joinders, nominees, arbitrators, nextCaseId, nextClaimId, nextJoinId, claims, nextClaimId, caseId, cf');
      casefiles := casefiles[caseId := cf'];
      r := Pass;
    }

    /** shredcase: the claimant deletes the whole case, only during CASE_SETUP. */
    method ShredCase(caseId: nat, claimant: Name) returns (r: Outcome)
      requires Valid()
      modifies this
      ensures Valid()
      ensures r == (if caseId !in old(casefiles) then Fail(NotFound)
                    else if old(casefiles)[caseId].claimant != claimant then Fail(Unauthorized)
                    else if old(casefiles)[caseId].caseStatus != CaseSetup then Fail(InvalidState)
                    else Pass)
      ensures r.Fail? ==> unchanged(this)
      ensures r.Pass? ==> casefiles == old(casefiles) - {caseId}
      ensures r.Pass? ==> claims == old(claims) && joinders == old(joinders) && RosterUnchanged() && CountersUnchanged()
    {
      if caseId !in casefiles {
        return Fail(NotFound);
      }
      var cf := casefiles[caseId];
      if cf.claimant != claimant {
        return Fail(Unauthorized);
      }
      if cf.caseStatus != CaseSetup {
        return Fail(InvalidState);
      }
      casefiles := casefiles - {caseId};
      r := Pass;
    }

    /** readycase: the claimant submits the case for arbitration; it must hold at least one claim. */
    method ReadyCase(caseId: nat, claimant: Name) returns (r: Outcome)
      requires Valid()
      modifies this
      ensures Valid()
      ensures r == (if caseId !in old(casefiles) then Fail(NotFound)
                    else if old(casefiles)[caseId].claimant != claimant then Fail(Unauthorized)
                    else if Transition(Ready, old(casefiles)[caseId].caseStatus).None? then Fail(InvalidState)
                    else if old(casefiles)[caseId].unreadClaims == [] then Fail(EmptyCase)
                    else Pass)
      ensures r.Fail? ==> unchanged(this)
      ensures r.Pass? ==> |old(casefiles)[caseId].unreadClaims| >= 1
      ensures r.Pass? ==> casefiles == old(casefiles)[caseId := old(casefiles)[caseId].(caseStatus := AwaitingArbs)]
      ensures r.Pass? ==> claims == old(claims) && joinders == old(joinders) && RosterUnchanged() && CountersUnchanged()
      ensures LegalEvolution(old(casefiles), casefiles)
    {
      if caseId !in casefiles {
        return Fail(NotFound);
      }
      var cf := casefiles[caseId];
      if cf.claimant != claimant {
        return Fail(Unauthorized);
      }
      var next := Transition(Ready, cf.caseStatus);
      if next.None? {
        return Fail(InvalidState);
      }
      if cf.unreadClaims == [] {
        return Fail(EmptyCase);
      }
      var cf' := cf.(caseStatus := next.value);
      CaseEditKeeps(casefiles, claims, joinders, nominees, arbitrators, nextCaseId, nextClaimId, nextJoinId, claims, nextClaimId, caseId, cf');
      casefiles := casefiles[caseId := cf'];
      r := Pass;
    }

    // -------------------------------------------------------------------------------------
    // Case progression: actions of the arbitrators

    /**
     * assigntocase: puts an AVAILABLE arbitrator on a case that awaits arbitrators or is being
     * heard before DECISION; the first assignment starts the investigation. The case's list
     * and the arbitrator's open cases change together.
     */
    method AssignToCase(caseId: nat, arbToAssign: Name) returns (r: Outcome)
      requires Valid()
      modifies this
      ensures Valid()
      ensures r == (if caseId !in old(casefiles) || arbToAssign !in old(arbitrators) then Fail(NotFound)
                    else if Transition(Assign, old(casefiles)[caseId].caseStatus).None? then Fail(InvalidState)
                    else if old(arbitrators)[arbToAssign].arbStatus != Available then Fail(InvalidState)
                    else if arbToAssign in old(casefiles)[caseId].arbitrators then Fail(DuplicateEntry)
                    else Pass)
      ensures r.Fail? ==> unchanged(this)
      ensures r.Pass? ==>
        var cf := old(casefiles)[caseId];
        && casefiles == old(casefiles)[caseId := cf.(
             arbitrators := cf.arbitrators + [arbToAssign],
             caseStatus := Transition(Assign, cf.caseStatus).value)]
        && arbitrators == old(arbitrators)[arbToAssign := old(arbitrators)[arbToAssign].(
             openCaseIds := old(arbitrators)[arbToAssign].openCaseIds + [caseId])]
      ensures r.Pass? ==> casefiles[caseId].caseStatus != AwaitingArbs && casefiles[caseId].arbitrators != []
      ensures r.Pass? ==> claims == old(claims) && joinders == old(joinders)
      ensures r.Pass? ==> nominees == old(nominees) && config == old(config) && ElectionUnchanged() && CountersUnchanged()
      ensures LegalEvolution(old(casefiles), casefiles)
    {
      r := if caseId !in casefiles || arbToAssign !in arbitrators then Fail(NotFound)
           else if Transition(Assign, casefiles[caseId].caseStatus).None? then Fail(InvalidState)
           else if arbitrators[arbToAssign].arbStatus != Available then Fail(InvalidState)
           else if arbToAssign in casefiles[caseId].arbitrators then Fail(DuplicateEntry)
           else Pass;
      if r.Fail? {
        return;
      }
      var cf := casefiles[caseId];
      var next := Transition(Assign, cf.caseStatus);
      var arb := arbitrators[arbToAssign];
      var cf' := cf.(arbitrators := cf.arbitrators + [arbToAssign], caseStatus := next.value);
      AssignKeeps(casefiles, claims, joinders, nominees, arbitrators, nextCaseId, nextClaimId, nextJoinId, caseId, arbToAssign, next.value);
      casefiles := casefiles[caseId := cf'];
      arbitrators := arbitrators[arbToAssign := arb.(openCaseIds := arb.openCaseIds + [caseId])];
      r := Pass;
    }

    /** dismissclaim: an assigned arbitrator discards one unread claim; the case's status is untouched. */
    method DismissClaim(caseId: nat, assignedArb: Name, claimHash: string, memo: string) returns (r: Outcome)
      requires Valid()
      modifies this
      ensures Valid()
      ensures r == (if caseId !in old(casefiles) then Fail(NotFound)
                    else if assignedArb !in old(casefiles)[caseId].arbitrators then Fail(Unauthorized)
                    else if !InProgress(old(casefiles)[caseId].caseStatus) then Fail(InvalidState)
                    else if !HasClaim(old(casefiles)[caseId].unreadClaims, claimHash) then Fail(NotFound)
                    else Pass)
      ensures r.Fail? ==> unchanged(this)
      ensures r.Pass? ==> casefiles == old(casefiles)[caseId := old(casefiles)[caseId].(
                unreadClaims := TakeClaim(old(casefiles)[caseId].unreadClaims, claimHash).value.0)]
      ensures r.Pass? ==> claims == old(claims) && joinders == old(joinders) && RosterUnchanged() && CountersUnchanged()
    {
      if caseId !in casefiles {
        return Fail(NotFound);
      }
      var cf := casefiles[caseId];
      if assignedArb !in cf.arbitrators {
        return Fail(Unauthorized);
      }
      if !InProgress(cf.caseStatus) {
        return Fail(InvalidState);
      }
      var taken := TakeClaim(cf.unreadClaims, claimHash);
      if taken.None? {
        return Fail(NotFound);
      }
      var cf' := cf.(unreadClaims := taken.value.0);
      CaseEditKeeps(casefiles, claims, joinders, nominees, arbitrators, nextCaseId, nextClaimId, nextJoinId, claims, nextClaimId, caseId, cf');
      casefiles := casefiles[caseId := cf'];
      r := Pass;
    }

    /**
     * acceptclaim: an assigned arbitrator rules on an unread claim. The claim leaves the case's
     * unread list, is stored in the claims table under a new id with the given decision link and
     * class, and the id is appended to the case's accepted claims. UNDECIDED is not a ruling.
     */
    method AcceptClaim(caseId: nat, assignedArb: Name, claimHash: string, decisionLink: string, decisionClass: uint8)
      returns (r: Outcome, claimId: nat)
      requires Valid()
      modifies this
      ensures Valid()
      ensures r == (if caseId !in old(casefiles) then Fail(NotFound)
                    else if assignedArb !in old(casefiles)[caseId].arbitrators then Fail(Unauthorized)
                    else if !InProgress(old(casefiles)[caseId].caseStatus) then Fail(InvalidState)
                    else if !HasClaim(old(casefiles)[caseId].unreadClaims, claimHash) then Fail(NotFound)
                    else if !validLink(decisionLink) then Fail(MalformedReference)
                    else if ClaimClassOf(decisionClass).None? || ClaimClassOf(decisionClass) == Some(Undecided) then Fail(InvalidArgument)
                    else Pass)
      ensures r.Fail? ==> unchanged(this)
      ensures r.Pass? ==>
        var cf := old(casefiles)[caseId];
        var taken := TakeClaim(cf.unreadClaims, claimHash).value;
        && claimId !in old(claims)
        && claims == old(claims)[claimId := Claim(claimId, taken.1.claimSummary, decisionLink, ClaimClassOf(decisionClass).value)]
        && casefiles == old(casefiles)[caseId := cf.(unreadClaims := taken.0, acceptedClaims := cf.acceptedClaims + [claimId])]
      ensures r.Pass? ==> claims[claimId].decisionLink == decisionLink && claims[claimId].decisionClass.Code() == decisionClass
      ensures r.Pass? ==> claimId == old(nextClaimId) && nextClaimId == old(nextClaimId) + 1
      ensures r.Pass? ==> nextCaseId == old(nextCaseId) && nextJoinId == old(nextJoinId)
      ensures r.Pass? ==> joinders == old(joinders) && RosterUnchanged()
    {
      r := if caseId !in casefiles then Fail(NotFound)
           else if assignedArb !in casefiles[caseId].arbitrators then Fail(Unauthorized)
           else if !InProgress(casefiles[caseId].caseStatus) then Fail(InvalidState)
           else if !HasClaim(casefiles[caseId].unreadClaims, claimHash) then Fail(NotFound)
           else if !validLink(decisionLink) then Fail(MalformedReference)
           else if ClaimClassOf(decisionClass).None? || ClaimClassOf(decisionClass) == Some(Undecided) then Fail(InvalidArgument)
           else Pass;
      if r.Fail? {
        return r, 0;
      }
      var cf := casefiles[caseId];
      var taken := TakeClaim(cf.unreadClaims, claimHash);
      var cls := ClaimClassOf(decisionClass);
      claimId := nextClaimId;
      var claims' := claims[claimId := Claim(claimId, taken.value.1.claimSummary, decisionLink, cls.value)];
      var cf' := cf.(unreadClaims := taken.value.0, acceptedClaims := cf.acceptedClaims + [claimId]);
      CaseEditKeeps(casefiles, claims, joinders, nominees, arbitrators, nextCaseId, nextClaimId, nextJoinId, claims', nextClaimId + 1, caseId, cf');
      claims, nextClaimId := claims', nextClaimId + 1;
      casefiles := casefiles[caseId := cf'];
      r := Pass;
    }

    /** advancecase: an assigned arbitrator moves the case one phase forward, at most up to DECISION. */
    method AdvanceCase(caseId: nat, assignedArb: Name) returns (r: Outcome)
      requires Valid()
      modifies this
      ensures Valid()
      ensures r == (if caseId !in old(casefiles) then Fail(NotFound)
                    else if assignedArb !in old(casefiles)[caseId].arbitrators then Fail(Unauthorized)
                    else if Transition(Advance, old(casefiles)[caseId].caseStatus).None? then Fail(InvalidState)
                    else Pass)
      ensures r.Fail? ==> unchanged(this)
      ensures r.Pass? ==> casefiles == old(casefiles)[caseId := old(casefiles)[caseId].(
                caseStatus := Successor(old(casefiles)[caseId].caseStatus).value)]
      ensures r.Pass? ==> casefiles[caseId].caseStatus.Code() == old(casefiles)[caseId].caseStatus.Code() + 1
      ensures r.Pass? ==> casefiles[caseId].caseStatus.Code() <= Decision.Code()
      ensures r.Pass? ==> claims == old(claims) && joinders == old(joinders) && RosterUnchanged() && CountersUnchanged()
      ensures LegalEvolution(old(casefiles), casefiles)
    {
      if caseId !in casefiles {
        return Fail(NotFound);
      }
      var cf := casefiles[caseId];
      if assignedArb !in cf.arbitrators {
        return Fail(Unauthorized);
      }
      var next := Transition(Advance, cf.caseStatus);
      if next.None? {
        return Fail(InvalidState);
      }
      var cf' := cf.(caseStatus := next.value);
      CaseEditKeeps(casefiles, claims, joinders, nominees, arbitrators, nextCaseId, nextClaimId, nextJoinId, claims, nextClaimId, caseId, cf');
      casefiles := casefiles[caseId := cf'];
      r := Pass;
    }

    /**
     * newcfstatus: an assigned arbitrator sets the status directly; the transition table admits
     * only one step forward from a phase between CASE_INVESTIGATION and DECISION.
     */
    method NewCaseFileStatus(caseId: nat, newStatus: uint8, assignedArb: Name) returns (r: Outcome)
      requires Valid()
      modifies this
      ensures Valid()
      ensures r == (if caseId !in old(casefiles) then Fail(NotFound)
                    else if assignedArb !in old(casefiles)[caseId].arbitrators then Fail(Unauthorized)
                    else if CaseStateOf(newStatus).None? then Fail(InvalidArgument)
                    else if Transition(SetStatus(CaseStateOf(newStatus).value), old(casefiles)[caseId].caseStatus).None? then Fail(InvalidState)
                    else Pass)
      ensures r.Fail? ==> unchanged(this)
      ensures r.Pass? ==> casefiles == old(casefiles)[caseId := old(casefiles)[caseId].(
                caseStatus := CaseStateOf(newStatus).value)]
      ensures r.Pass? ==> Successor(old(casefiles)[caseId].caseStatus) == Some(casefiles[caseId].caseStatus)
      ensures r.Pass? ==> claims == old(claims) && joinders == old(joinders) && RosterUnchanged() && CountersUnchanged()
      ensures LegalEvolution(old(casefiles), casefiles)
    {
      if caseId !in casefiles {
        return Fail(NotFound);
      }
      var cf := casefiles[caseId];
      if assignedArb !in cf.arbitrators {
        return Fail(Unauthorized);
      }
      var target := CaseStateOf(newStatus);
      if target.None? {
        return Fail(InvalidArgument);
      }
      var next := Transition(SetStatus(target.value), cf.caseStatus);
      if next.None? {
        return Fail(InvalidState);
      }
      var cf' := cf.(caseStatus := next.value);
      CaseEditKeeps(casefiles, claims, joinders, nominees, arbitrators, nextCaseId, nextClaimId, nextJoinId, claims, nextClaimId, caseId, cf');
      casefiles := casefiles[caseId := cf'];
      r := Pass;
    }

    /** dismisscase: an assigned arbitrator ends a case before DECISION with a ruling document. */
    method DismissCase(caseId: nat, assignedArb: Name, rulingLink: string) returns (r: Outcome)
      requires Valid()
      modifies this
      ensures Valid()
      ensures r == (if caseId !in old(casefiles) then Fail(NotFound)
                    else if assignedArb !in old(casefiles)[caseId].arbitrators then Fail(Unauthorized)
                    else if Transition(CaseLifecycle.DismissCase, old(casefiles)[caseId].caseStatus).None? then Fail(InvalidState)
                    else if !validLink(rulingLink) then Fail(MalformedReference)
                    else Pass)
      ensures r.Fail? ==> unchanged(this)
      ensures r.Pass? ==> !JoinersClosed(old(casefiles)[caseId].caseStatus)
      ensures r.Pass? ==> casefiles == old(casefiles)[caseId := old(casefiles)[caseId].(
                caseStatus := Dismissed, caseRuling := rulingLink)]
      ensures r.Pass? ==> claims == old(claims) && joinders == old(joinders) && RosterUnchanged() && CountersUnchanged()
      ensures LegalEvolution(old(casefiles), casefiles)
    {
      r := if caseId !in casefiles then Fail(NotFound)
           else if assignedArb !in casefiles[caseId].arbitrators then Fail(Unauthorized)
           else if Transition(CaseLifecycle.DismissCase, casefiles[caseId].caseStatus).None? then Fail(InvalidState)
           else if !validLink(rulingLink) then Fail(MalformedReference)
           else Pass;
      if r.Fail? {
        return;
      }
      var cf := casefiles[caseId];
      var next := Transition(CaseLifecycle.DismissCase, cf.caseStatus);
      assert next == Some(Dismissed);
      var cf' := cf.(caseStatus := next.value, caseRuling := rulingLink);
      CaseEditKeeps(casefiles, claims, joinders, nominees, arbitrators, nextCaseId, nextClaimId, nextJoinId, claims, nextClaimId, caseId, cf');
      casefiles := casefiles[caseId := cf'];
      r := Pass;
    }

    /**
     * resolvecase: from DECISION or ENFORCEMENT an assigned arbitrator records the final ruling;
     * the case becomes RESOLVED and moves from the open to the closed list of every arbitrator on it.
     */
    method ResolveCase(caseId: nat, assignedArb: Name, caseRuling: string) returns (r: Outcome)
      requires Valid()
      modifies this
      ensures Valid()
      ensures r == (if caseId !in old(casefiles) then Fail(NotFound)
                    else if assignedArb !in old(casefiles)[caseId].arbitrators then Fail(Unauthorized)
                    else if Transition(CaseLifecycle.ResolveCase, old(casefiles)[caseId].caseStatus).None? then Fail(InvalidState)
                    else if !validLink(caseRuling) then Fail(MalformedReference)
                    else Pass)
      ensures r.Fail? ==> unchanged(this)
      ensures r.Pass? ==> casefiles == old(casefiles)[caseId := old(casefiles)[caseId].(
                caseStatus := Resolved, caseRuling := caseRuling)]
      ensures r.Pass? ==> arbitrators == ClosedFor(old(arbitrators), old(casefiles)[caseId].arbitrators, caseId)
      ensures r.Pass? ==> claims == old(claims) && joinders == old(joinders)
      ensures r.Pass? ==> nominees == old(nominees) && config == old(config) && ElectionUnchanged() && CountersUnchanged()
      ensures LegalEvolution(old(casefiles), casefiles)
    {
      r := if caseId !in casefiles then Fail(NotFound)
           else if assignedArb !in casefiles[caseId].arbitrators then Fail(Unauthorized)
           else if Transition(CaseLifecycle.ResolveCase, casefiles[caseId].caseStatus).None? then Fail(InvalidState)
           else if !validLink(caseRuling) then Fail(MalformedReference)
           else Pass;
      if r.Fail? {
        return;
      }
      var cf := casefiles[caseId];
      var next := Transition(CaseLifecycle.ResolveCase, cf.caseStatus);
      assert next == Some(Resolved);
      var arbs := CloseCaseFor(arbitrators, cf.arbitrators, caseId);
      var cf' := cf.(caseStatus := next.value, caseRuling := caseRuling);
      ResolveKeeps(casefiles, claims, joinders, nominees, arbitrators, nextCaseId, nextClaimId, nextJoinId, caseId, caseRuling);
      arbitrators := arbs;
      casefiles := casefiles[caseId := cf'];
      r := Pass;
    }

    /**
     * recuse: an assigned arbitrator leaves an open case and drops it from its open cases; a case
     * left without arbitrators goes back to AWAITING_ARBS.
     */
    method Recuse(caseId: nat, rationale: string, assignedArb: Name) returns (r: Outcome)
      requires Valid()
      modifies this
      ensures Valid()
      ensures r == (if caseId !in old(casefiles) then Fail(NotFound)
                    else if assignedArb !in old(casefiles)[caseId].arbitrators then Fail(Unauthorized)
                    else if !InProgress(old(casefiles)[caseId].caseStatus) then Fail(InvalidState)
                    else Pass)
      ensures r.Fail? ==> unchanged(this)
      ensures r.Pass? ==>
        var cf := old(casefiles)[caseId];
        var rest := Remove(cf.arbitrators, assignedArb);
        && casefiles == old(casefiles)[caseId := cf.(
             arbitrators := rest,
             caseStatus := if rest == [] then AwaitingArbs else cf.caseStatus)]
        && arbitrators == old(arbitrators)[assignedArb := old(arbitrators)[assignedArb].(
             openCaseIds := Remove(old(arbitrators)[assignedArb].openCaseIds, caseId))]
      ensures r.Pass? ==> assignedArb !in casefiles[caseId].arbitrators
      ensures r.Pass? ==> claims == old(claims) && joinders == old(joinders)
      ensures r.Pass? ==> nominees == old(nominees) && config == old(config) && ElectionUnchanged() && CountersUnchanged()
      ensures LegalEvolution(old(casefiles), casefiles)
    {
      r := if caseId !in casefiles then Fail(NotFound)
           else if assignedArb !in casefiles[caseId].arbitrators then Fail(Unauthorized)
           else if !InProgress(casefiles[caseId].caseStatus) then Fail(InvalidState)
           else Pass;
      if r.Fail? {
        return;
      }
      var cf := casefiles[caseId];
      var rest := Remove(cf.arbitrators, assignedArb);
      var next := Transition(CaseLifecycle.Recuse(|rest|), cf.caseStatus);
      assert next == Some(if rest == [] then AwaitingArbs else cf.caseStatus);
      var cf' := cf.(arbitrators := rest, caseStatus := next.value);
      RecuseKeeps(casefiles, claims, joinders, nominees, arbitrators, nextCaseId, nextClaimId, nextJoinId, caseId, assignedArb);
      casefiles := casefiles[caseId := cf'];
      var arb := arbitrators[assignedArb];
      arbitrators := arbitrators[assignedArb := arb.(openCaseIds := Remove(arb.openCaseIds, caseId))];
    }

    // -------------------------------------------------------------------------------------
    // Joinders

    /**
     * newjoinder: an arbitrator assigned to two distinct cases joins them; no joinder is allowed
     * once either case has reached DECISION, and a case belongs to at most one joinder.
     */
    method NewJoinder(baseCaseId: nat, joiningCaseId: nat, arb: Name, now: nat) returns (r: Outcome, joinId: nat)
      requires Valid()
      modifies this
      ensures Valid()
      ensures r == (if baseCaseId !in old(casefiles) || joiningCaseId !in old(casefiles) then Fail(NotFound)
                    else if baseCaseId == joiningCaseId then Fail(InvalidArgument)
                    else if arb !in old(casefiles)[baseCaseId].arbitrators || arb !in old(casefiles)[joiningCaseId].arbitrators then Fail(Unauthorized)
                    else if JoinersClosed(old(casefiles)[baseCaseId].caseStatus) || JoinersClosed(old(casefiles)[joiningCaseId].caseStatus) then Fail(InvalidState)
                    else if InSomeJoinder(old(joinders), baseCaseId) || InSomeJoinder(old(joinders), joiningCaseId) then Fail(DuplicateEntry)
                    else Pass)
      ensures r.Fail? ==> unchanged(this)
      ensures r.Pass? ==> joinId !in old(joinders) && joinders == old(joinders)[joinId := Joinder(joinId, [baseCaseId, joiningCaseId], now, arb)]
      ensures r.Pass? ==> joinId == old(nextJoinId) && nextJoinId == old(nextJoinId) + 1
      ensures r.Pass? ==> nextCaseId == old(nextCaseId) && nextClaimId == old(nextClaimId)
      ensures r.Pass? ==> casefiles == old(casefiles) && claims == old(claims) && RosterUnchanged()
    {
      if baseCaseId !in casefiles || joiningCaseId !in casefiles {
        return Fail(NotFound), 0;
      }
      if baseCaseId == joiningCaseId {
        return Fail(InvalidArgument), 0;
      }
      var base, joining := casefiles[baseCaseId], casefiles[joiningCaseId];
      if arb !in base.arbitrators || arb !in joining.arbitrators {
        return Fail(Unauthorized), 0;
      }
      if JoinersClosed(base.caseStatus) || JoinersClosed(joining.caseStatus) {
        return Fail(InvalidState), 0;
      }
      if InSomeJoinder(joinders, baseCaseId) || InSomeJoinder(joinders, joiningCaseId) {
        return Fail(DuplicateEntry), 0;
      }
      joinId := nextJoinId;
      joinders := joinders[joinId := Joinder(joinId, [baseCaseId, joiningCaseId], now, arb)];
      nextJoinId := nextJoinId + 1;
      r := Pass;
    }

    /** joincases: adds one more case to a joinder under the same conditions, checked for every case involved. */
    method JoinCases(joinderId: nat, newCaseId: nat, arb: Name) returns (r: Outcome)
      requires Valid()
      modifies this
      ensures Valid()
      ensures r == (if joinderId !in old(joinders) || newCaseId !in old(casefiles) then Fail(NotFound)
                    else if arb !in old(casefiles)[newCaseId].arbitrators
                         || exists c :: c in old(joinders)[joinderId].cases && arb !in old(casefiles)[c].arbitrators
                    then Fail(Unauthorized)
                    else if JoinersClosed(old(casefiles)[newCaseId].caseStatus)
                         || exists c :: c in old(joinders)[joinderId].cases && JoinersClosed(old(casefiles)[c].caseStatus)
                    then Fail(InvalidState)
                    else if InSomeJoinder(old(joinders), newCaseId) then Fail(DuplicateEntry)
                    else Pass)
      ensures r.Fail? ==> unchanged(this)
      ensures r.Pass? ==> joinders == old(joinders)[joinderId := old(joinders)[joinderId].(
                cases := old(joinders)[joinderId].cases + [newCaseId])]
      ensures r.Pass? ==> forall c :: c in joinders[joinderId].cases ==> !JoinersClosed(casefiles[c].caseStatus)
      ensures r.Pass? ==> forall c :: c in joinders[joinderId].cases ==> arb in casefiles[c].arbitrators
      ensures r.Pass? ==> casefiles == old(casefiles) && claims == old(claims) && RosterUnchanged() && CountersUnchanged()
    {
      if joinderId !in joinders || newCaseId !in casefiles {
        return Fail(NotFound);
      }
      var cf := casefiles[newCaseId];
      var j := joinders[joinderId];
      if arb !in cf.arbitrators || exists c :: c in j.cases && arb !in casefiles[c].arbitrators {
        return Fail(Unauthorized);
      }
      if JoinersClosed(cf.caseStatus) || exists c :: c in j.cases && JoinersClosed(casefiles[c].caseStatus) {
        return Fail(InvalidState);
      }
      if InSomeJoinder(joinders, newCaseId) {
        return Fail(DuplicateEntry);
      }
      joinders := joinders[joinderId := j.(cases := j.cases + [newCaseId])];
      r := Pass;
    }
  }
}
