/**
 * Consistency of the contract's tables: keys agree with records, cases are well formed,
 * accepted claims and joined cases exist, and every assigned arbitrator has the case on its
 * books. The lemmas here show that each kind of table update keeps this.
 */
module CaseTables {
  import opened ArbTypes
  import opened CaseLifecycle
  import opened Seqs

  /** A case has arbitrators exactly once it is past AWAITING_ARBS, and never the same one twice. */
  predicate CaseWellFormed(cf: CaseFile)
  {
    && (cf.arbitrators == [] <==> cf.caseStatus == CaseSetup || cf.caseStatus == AwaitingArbs)
    && NoDup(cf.arbitrators)
  }

  predicate CasesKeyed(cases: map<nat, CaseFile>, nextId: nat)
  {
    forall id :: id in cases ==> id < nextId && cases[id].PrimaryKey() == id && CaseWellFormed(cases[id])
  }

  predicate ClaimsKeyed(claims: map<nat, Claim>, nextId: nat)
  {
    forall id :: id in claims ==> id < nextId && claims[id].PrimaryKey() == id
  }

  predicate JoindersKeyed(joinders: map<nat, Joinder>, nextId: nat)
  {
    forall id :: id in joinders ==> id < nextId && joinders[id].PrimaryKey() == id
  }

  predicate NomineesKeyed(nominees: map<Name, Nominee>)
  {
    forall n :: n in nominees ==> nominees[n].PrimaryKey() == n
  }

  predicate ArbitratorsKeyed(arbs: map<Name, Arbitrator>)
  {
    forall n :: n in arbs ==> arbs[n].PrimaryKey() == n
  }

  // Each table is keyed by its records' primary keys: no two records of a table share one, and
  // the next id a counted table hands out is not yet in use.

  lemma CaseKeysIdentify(cases: map<nat, CaseFile>, nextCaseId: nat)
    requires CasesKeyed(cases, nextCaseId)
    ensures forall x, y :: x in cases.Values && y in cases.Values && x.PrimaryKey() == y.PrimaryKey() ==> x == y
    ensures nextCaseId !in cases
  {
    forall x, y | x in cases.Values && y in cases.Values && x.PrimaryKey() == y.PrimaryKey() ensures x == y {
      var i :| i in cases && cases[i] == x;
      var j :| j in cases && cases[j] == y;
    }
  }

  lemma ClaimKeysIdentify(claims: map<nat, Claim>, nextClaimId: nat)
    requires ClaimsKeyed(claims, nextClaimId)
    ensures forall x, y :: x in claims.Values && y in claims.Values && x.PrimaryKey() == y.PrimaryKey() ==> x == y
    ensures nextClaimId !in claims
  {
    forall x, y | x in claims.Values && y in claims.Values && x.PrimaryKey() == y.PrimaryKey() ensures x == y {
      var i :| i in claims && claims[i] == x;
      var j :| j in claims && claims[j] == y;
    }
  }

  lemma JoinderKeysIdentify(joinders: map<nat, Joinder>, nextJoinId: nat)
    requires JoindersKeyed(joinders, nextJoinId)
    ensures forall x, y :: x in joinders.Values && y in joinders.Values && x.PrimaryKey() == y.PrimaryKey() ==> x == y
    ensures nextJoinId !in joinders
  {
    forall x, y | x in joinders.Values && y in joinders.Values && x.PrimaryKey() == y.PrimaryKey() ensures x == y {
      var i :| i in joinders && joinders[i] == x;
      var j :| j in joinders && joinders[j] == y;
    }
  }

  lemma NomineeKeysIdentify(nominees: map<Name, Nominee>)
    requires NomineesKeyed(nominees)
    ensures forall x, y :: x in nominees.Values && y in nominees.Values && x.PrimaryKey() == y.PrimaryKey() ==> x == y
  {
    forall x, y | x in nominees.Values && y in nominees.Values && x.PrimaryKey() == y.PrimaryKey() ensures x == y {
      var i :| i in nominees && nominees[i] == x;
      var j :| j in nominees && nominees[j] == y;
    }
  }

  lemma ArbitratorKeysIdentify(arbs: map<Name, Arbitrator>)
    requires ArbitratorsKeyed(arbs)
    ensures forall x, y :: x in arbs.Values && y in arbs.Values && x.PrimaryKey() == y.PrimaryKey() ==> x == y
  {
    forall x, y | x in arbs.Values && y in arbs.Values && x.PrimaryKey() == y.PrimaryKey() ensures x == y {
      var i :| i in arbs && arbs[i] == x;
      var j :| j in arbs && arbs[j] == y;
    }
  }

  /** accepted_claims hold ids of claims stored in the claims table. */
  predicate AcceptedStored(cases: map<nat, CaseFile>, claims: map<nat, Claim>)
  {
    forall id, c :: id in cases && c in cases[id].acceptedClaims ==> c in claims
  }

  /** Joined cases exist and are past CASE_SETUP, so shredding a case never orphans a joinder. */
  predicate JoinedCasesLive(joinders: map<nat, Joinder>, cases: map<nat, CaseFile>)
  {
    forall j, c :: j in joinders && c in joinders[j].cases ==> c in cases && cases[c].caseStatus != CaseSetup
  }

  /**
   * Every arbitrator assigned to a case is on the roster and lists the case among its open
   * cases, or among its closed cases once the case is resolved.
   */
  predicate ArbsBooked(cases: map<nat, CaseFile>, arbs: map<Name, Arbitrator>)
  {
    forall id, a :: id in cases && a in cases[id].arbitrators ==>
      && a in arbs
      && (cases[id].caseStatus == Resolved ==> id in arbs[a].closedCaseIds)
      && (cases[id].caseStatus != Resolved ==> id in arbs[a].openCaseIds)
  }

  /** Every case present before and after made a legal status move (see `CaseLifecycle.LegalMove`). */
  predicate LegalEvolution(before: map<nat, CaseFile>, after: map<nat, CaseFile>)
  {
    forall id :: id in before && id in after ==> LegalMove(before[id].caseStatus, after[id].caseStatus)
  }

  predicate InSomeJoinder(joinders: map<nat, Joinder>, caseId: nat)
  {
    exists j :: j in joinders && caseId in joinders[j].cases
  }

  /** The tables of the contract agree with one another. */
  predicate Consistent(cases: map<nat, CaseFile>, claims: map<nat, Claim>, joinders: map<nat, Joinder>,
                       nominees: map<Name, Nominee>, arbs: map<Name, Arbitrator>,
                       nextCaseId: nat, nextClaimId: nat, nextJoinId: nat)
  {
    && CasesKeyed(cases, nextCaseId)
    && ClaimsKeyed(claims, nextClaimId)
    && JoindersKeyed(joinders, nextJoinId)
    && NomineesKeyed(nominees)
    && ArbitratorsKeyed(arbs)
    && AcceptedStored(cases, claims)
    && JoinedCasesLive(joinders, cases)
    && ArbsBooked(cases, arbs)
  }


  /** The arbitrator record after `caseId` is resolved: moved from the open to the closed list. */
  function MoveToClosed(arb: Arbitrator, caseId: nat): (r: Arbitrator)
    ensures caseId !in r.openCaseIds && caseId in r.closedCaseIds
    ensures forall id :: id != caseId ==> (id in r.openCaseIds <==> id in arb.openCaseIds)
    ensures forall id :: id in arb.closedCaseIds ==> id in r.closedCaseIds
    ensures r.arb == arb.arb && r.arbStatus == arb.arbStatus
  {
    arb.(openCaseIds := Remove(arb.openCaseIds, caseId), closedCaseIds := arb.closedCaseIds + [caseId])
  }

  /** Assigning `a` to an open case and adding the case to `a`'s open cases keeps every case booked. */
  lemma BookAssign(cases: map<nat, CaseFile>, arbs: map<Name, Arbitrator>, caseId: nat, a: Name, cf: CaseFile)
    requires ArbsBooked(cases, arbs) && caseId in cases && a in arbs
    requires cf.arbitrators == cases[caseId].arbitrators + [a] && cf.caseStatus != Resolved
    requires cases[caseId].caseStatus != Resolved
    ensures ArbsBooked(cases[caseId := cf], arbs[a := arbs[a].(openCaseIds := arbs[a].openCaseIds + [caseId])])
  {
    var cases', arbs' := cases[caseId := cf], arbs[a := arbs[a].(openCaseIds := arbs[a].openCaseIds + [caseId])];
    forall id, b | id in cases' && b in cases'[id].arbitrators
      ensures b in arbs' && (cases'[id].caseStatus == Resolved ==> id in arbs'[b].closedCaseIds)
                         && (cases'[id].caseStatus != Resolved ==> id in arbs'[b].openCaseIds)
    {
      if id == caseId && b == a {
      } else if id == caseId {
        assert b in cases[caseId].arbitrators;
      } else {
        assert b in cases[id].arbitrators;
      }
    }
  }

  /** Taking `a` off a case and the case off `a`'s open cases keeps every case booked. */
  lemma BookRecuse(cases: map<nat, CaseFile>, arbs: map<Name, Arbitrator>, caseId: nat, a: Name, cf: CaseFile)
    requires ArbsBooked(cases, arbs) && caseId in cases && a in arbs
    requires cf.arbitrators == Remove(cases[caseId].arbitrators, a) && cf.caseStatus != Resolved
    requires cases[caseId].caseStatus != Resolved
    ensures ArbsBooked(cases[caseId := cf], arbs[a := arbs[a].(openCaseIds := Remove(arbs[a].openCaseIds, caseId))])
  {
    var cases', arbs' := cases[caseId := cf], arbs[a := arbs[a].(openCaseIds := Remove(arbs[a].openCaseIds, caseId))];
    forall id, b | id in cases' && b in cases'[id].arbitrators
      ensures b in arbs' && (cases'[id].caseStatus == Resolved ==> id in arbs'[b].closedCaseIds)
                         && (cases'[id].caseStatus != Resolved ==> id in arbs'[b].openCaseIds)
    {
      if id == caseId {
        assert b != a && b in cases[caseId].arbitrators;
      } else {
        assert b in cases[id].arbitrators;
        if b == a && cases[id].caseStatus != Resolved {
          assert id in arbs[a].openCaseIds;
        }
      }
    }
  }

  /** Resolving a case and moving it to the closed cases of each of its arbitrators keeps every case booked. */
  lemma BookResolve(cases: map<nat, CaseFile>, arbs: map<Name, Arbitrator>, arbs': map<Name, Arbitrator>,
                    caseId: nat, cf: CaseFile)
    requires ArbsBooked(cases, arbs) && caseId in cases
    requires cf.arbitrators == cases[caseId].arbitrators && cf.caseStatus == Resolved
    requires arbs' == ClosedFor(arbs, cf.arbitrators, caseId)
    ensures ArbsBooked(cases[caseId := cf], arbs')
    ensures ArbitratorsKeyed(arbs) ==> ArbitratorsKeyed(arbs')
  {
    var cases' := cases[caseId := cf];
    forall id, b | id in cases' && b in cases'[id].arbitrators
      ensures b in arbs' && (cases'[id].caseStatus == Resolved ==> id in arbs'[b].closedCaseIds)
                         && (cases'[id].caseStatus != Resolved ==> id in arbs'[b].openCaseIds)
    {
      if id != caseId {
        assert b in cases[id].arbitrators;
      }
    }
  }

  /**
   * Replacing one case by a well-formed record with the same id, whose accepted claims are
   * stored in `claims'` (a table that keeps every stored claim), and which is back in
   * CASE_SETUP only if it was there already, keeps the case table consistent.
   */
  lemma CaseUpdateKeeps(cases: map<nat, CaseFile>, claims: map<nat, Claim>, claims': map<nat, Claim>,
                        joinders: map<nat, Joinder>, nextId: nat, caseId: nat, cf: CaseFile)
    requires CasesKeyed(cases, nextId) && AcceptedStored(cases, claims) && JoinedCasesLive(joinders, cases)
    requires caseId in cases && cf.caseId == caseId && CaseWellFormed(cf)
    requires claims.Keys <= claims'.Keys
    requires forall c :: c in cf.acceptedClaims ==> c in claims'
    requires cf.caseStatus == CaseSetup ==> cases[caseId].caseStatus == CaseSetup
    ensures CasesKeyed(cases[caseId := cf], nextId)
    ensures AcceptedStored(cases[caseId := cf], claims')
    ensures JoinedCasesLive(joinders, cases[caseId := cf])
  {
  }

  /** A case that keeps its arbitrators, and stays resolved or unresolved, stays booked. */
  lemma KeepBooking(cases: map<nat, CaseFile>, arbs: map<Name, Arbitrator>, caseId: nat, cf: CaseFile)
    requires ArbsBooked(cases, arbs) && caseId in cases
    requires cf.arbitrators == cases[caseId].arbitrators
    requires cf.caseStatus == Resolved <==> cases[caseId].caseStatus == Resolved
    ensures ArbsBooked(cases[caseId := cf], arbs)
  {
  }

  /** Adding a new case under the next free id keeps the case table consistent. */
  lemma NewCaseKeeps(cases: map<nat, CaseFile>, claims: map<nat, Claim>, joinders: map<nat, Joinder>,
                     nextId: nat, cf: CaseFile)
    requires CasesKeyed(cases, nextId) && AcceptedStored(cases, claims) && JoinedCasesLive(joinders, cases)
    requires cf.caseId == nextId && CaseWellFormed(cf) && cf.acceptedClaims == []
    ensures CasesKeyed(cases[nextId := cf], nextId + 1)
    ensures AcceptedStored(cases[nextId := cf], claims)
    ensures JoinedCasesLive(joinders, cases[nextId := cf])
  {
    forall j, c | j in joinders && c in joinders[j].cases
      ensures c in cases[nextId := cf] && cases[nextId := cf][c].caseStatus != CaseSetup
    {
      assert c in cases && c != nextId;
    }
  }

  /**
   * Replacing one case by a well-formed record with the same id and the same arbitrators, which
   * stays resolved or unresolved and is in CASE_SETUP only if it was, keeps the tables consistent.
   * The claims table may have grown, as long as it stays keyed and holds the record's accepted claims.
   */
  lemma CaseEditKeeps(cases: map<nat, CaseFile>, claims: map<nat, Claim>, joinders: map<nat, Joinder>,
                      nominees: map<Name, Nominee>, arbs: map<Name, Arbitrator>,
                      nextCaseId: nat, nextClaimId: nat, nextJoinId: nat,
                      claims': map<nat, Claim>, nextClaimId': nat, caseId: nat, cf: CaseFile)
    requires Consistent(cases, claims, joinders, nominees, arbs, nextCaseId, nextClaimId, nextJoinId)
    requires ClaimsKeyed(claims', nextClaimId') && claims.Keys <= claims'.Keys
    requires caseId in cases && cf.caseId == caseId && CaseWellFormed(cf)
    requires forall c :: c in cf.acceptedClaims ==> c in claims'
    requires cf.arbitrators == cases[caseId].arbitrators
    requires cf.caseStatus == CaseSetup ==> cases[caseId].caseStatus == CaseSetup
    requires cf.caseStatus == Resolved <==> cases[caseId].caseStatus == Resolved
    ensures Consistent(cases[caseId := cf], claims', joinders, nominees, arbs, nextCaseId, nextClaimId', nextJoinId)
  {
    CaseUpdateKeeps(cases, claims, claims', joinders, nextCaseId, caseId, cf);
    KeepBooking(cases, arbs, caseId, cf);
  }

  /** Opening a case under the next free id keeps the tables consistent. */
  lemma FileKeeps(cases: map<nat, CaseFile>, claims: map<nat, Claim>, joinders: map<nat, Joinder>,
                  nominees: map<Name, Nominee>, arbs: map<Name, Arbitrator>,
                  nextCaseId: nat, nextClaimId: nat, nextJoinId: nat, cf: CaseFile)
    requires Consistent(cases, claims, joinders, nominees, arbs, nextCaseId, nextClaimId, nextJoinId)
    requires cf.caseId == nextCaseId && cf.caseStatus == CaseSetup && cf.arbitrators == [] && cf.acceptedClaims == []
    ensures Consistent(cases[nextCaseId := cf], claims, joinders, nominees, arbs, nextCaseId + 1, nextClaimId, nextJoinId)
  {
    NewCaseKeeps(cases, claims, joinders, nextCaseId, cf);
  }

  /**
   * Putting arbitrator `a`, not yet on the case, on an open case that is past CASE_SETUP, and the
   * case on `a`'s open cases, keeps the tables consistent; the case ends up in `status`.
   */
  lemma AssignKeeps(cases: map<nat, CaseFile>, claims: map<nat, Claim>, joinders: map<nat, Joinder>,
                    nominees: map<Name, Nominee>, arbs: map<Name, Arbitrator>,
                    nextCaseId: nat, nextClaimId: nat, nextJoinId: nat, caseId: nat, a: Name, status: CaseState)
    requires Consistent(cases, claims, joinders, nominees, arbs, nextCaseId, nextClaimId, nextJoinId)
    requires caseId in cases && a in arbs && a !in cases[caseId].arbitrators
    requires cases[caseId].caseStatus != CaseSetup && cases[caseId].caseStatus != Resolved
    requires status != CaseSetup && status != AwaitingArbs && status != Resolved
    ensures Consistent(cases[caseId := cases[caseId].(arbitrators := cases[caseId].arbitrators + [a], caseStatus := status)],
                       claims, joinders, nominees,
                       arbs[a := arbs[a].(openCaseIds := arbs[a].openCaseIds + [caseId])],
                       nextCaseId, nextClaimId, nextJoinId)
  {
    var old_ := cases[caseId].arbitrators;
    var cf := cases[caseId].(arbitrators := old_ + [a], caseStatus := status);
    assert NoDup(cf.arbitrators) by {
      forall i, j | 0 <= i < j < |cf.arbitrators| ensures cf.arbitrators[i] != cf.arbitrators[j] {
        if j == |old_| {
          assert cf.arbitrators[i] == old_[i];
        }
      }
    }
    BookAssign(cases, arbs, caseId, a, cf);
    CaseUpdateKeeps(cases, claims, claims, joinders, nextCaseId, caseId, cf);
  }

  /**
   * Taking assigned arbitrator `a` off a case in progress, and the case off `a`'s open cases, keeps
   * the tables consistent; a case left without arbitrators is back to AWAITING_ARBS.
   */
  lemma RecuseKeeps(cases: map<nat, CaseFile>, claims: map<nat, Claim>, joinders: map<nat, Joinder>,
                    nominees: map<Name, Nominee>, arbs: map<Name, Arbitrator>,
                    nextCaseId: nat, nextClaimId: nat, nextJoinId: nat, caseId: nat, a: Name)
    requires Consistent(cases, claims, joinders, nominees, arbs, nextCaseId, nextClaimId, nextJoinId)
    requires caseId in cases && a in cases[caseId].arbitrators && InProgress(cases[caseId].caseStatus)
    ensures a in arbs
    ensures
      var rest := Remove(cases[caseId].arbitrators, a);
      Consistent(cases[caseId := cases[caseId].(arbitrators := rest,
                                                caseStatus := if rest == [] then AwaitingArbs else cases[caseId].caseStatus)],
                 claims, joinders, nominees,
                 arbs[a := arbs[a].(openCaseIds := Remove(arbs[a].openCaseIds, caseId))],
                 nextCaseId, nextClaimId, nextJoinId)
  {
    var rest := Remove(cases[caseId].arbitrators, a);
    var cf := cases[caseId].(arbitrators := rest, caseStatus := if rest == [] then AwaitingArbs else cases[caseId].caseStatus);
    BookRecuse(cases, arbs, caseId, a, cf);
    CaseUpdateKeeps(cases, claims, claims, joinders, nextCaseId, caseId, cf);
  }

  /**
   * Resolving a case from DECISION or ENFORCEMENT, and moving it to the closed cases of each of
   * its arbitrators, keeps the tables consistent.
   */
  lemma ResolveKeeps(cases: map<nat, CaseFile>, claims: map<nat, Claim>, joinders: map<nat, Joinder>,
                     nominees: map<Name, Nominee>, arbs: map<Name, Arbitrator>,
                     nextCaseId: nat, nextClaimId: nat, nextJoinId: nat, caseId: nat, ruling: string)
    requires Consistent(cases, claims, joinders, nominees, arbs, nextCaseId, nextClaimId, nextJoinId)
    requires caseId in cases && (cases[caseId].caseStatus == Decision || cases[caseId].caseStatus == Enforcement)
    ensures Consistent(cases[caseId := cases[caseId].(caseStatus := Resolved, caseRuling := ruling)],
                       claims, joinders, nominees, ClosedFor(arbs, cases[caseId].arbitrators, caseId),
                       nextCaseId, nextClaimId, nextJoinId)
  {
    var cf := cases[caseId].(caseStatus := Resolved, caseRuling := ruling);
    BookResolve(cases, arbs, ClosedFor(arbs, cases[caseId].arbitrators, caseId), caseId, cf);
    CaseUpdateKeeps(cases, claims, claims, joinders, nextCaseId, caseId, cf);
  }

  /** The roster once `caseId` is resolved: every arbitrator in `names` has moved it from its open to its closed cases. */
  function ClosedFor(roster: map<Name, Arbitrator>, names: seq<Name>, caseId: nat): (r: map<Name, Arbitrator>)
  {
    map a | a in roster :: if a in names then MoveToClosed(roster[a], caseId) else roster[a]
  }

  /**
   * The loop of resolvecase: every arbitrator named in `names` (all on the roster, no name twice)
   * moves `caseId` from its open to its closed cases; everyone else is left alone.
   */
  method CloseCaseFor(roster: map<Name, Arbitrator>, names: seq<Name>, caseId: nat)
    returns (arbs: map<Name, Arbitrator>)
    requires forall a :: a in names ==> a in roster
    requires NoDup(names)
    ensures arbs == ClosedFor(roster, names, caseId)
  {
    arbs := roster;
    var i := 0;
    while i < |names|
      invariant 0 <= i <= |names|
      invariant arbs.Keys == roster.Keys
      invariant forall a :: a in roster ==>
                  arbs[a] == if a in names[..i] then MoveToClosed(roster[a], caseId) else roster[a]
    {
      var a := names[i];
      assert a !in names[..i];
      assert names[..i + 1] == names[..i] + [a];
      arbs := arbs[a := MoveToClosed(arbs[a], caseId)];
      i := i + 1;
    }
    assert names[..i] == names;
  }
}
