/**
 * Arbitrator elections: seats lapse at the end of their term, free seats are counted against
 * the configured maximum, and the winners of an election are seated from the ranking.
 */
module Elections {
  import opened ArbTypes
  import opened Seqs
  import opened CaseTables

  function AvailableArbs(arbs: map<Name, Arbitrator>): (s: set<Name>)
  {
    set a | a in arbs && arbs[a].arbStatus == Available
  }

  /** Seats still to fill: the configured maximum less the arbitrators that are AVAILABLE. */
  function AvailableSeats(arbs: map<Name, Arbitrator>, maxArbs: nat): (n: nat)
    ensures n + |AvailableArbs(arbs)| >= maxArbs
    ensures n > 0 ==> n + |AvailableArbs(arbs)| == maxArbs
  {
    if |AvailableArbs(arbs)| < maxArbs then maxArbs - |AvailableArbs(arbs)| else 0
  }

  /** The roster after lapsed terms are noticed at `now`: an AVAILABLE seat past its term becomes SEAT_EXPIRED. */
  function ExpireSeats(arbs: map<Name, Arbitrator>, now: nat): (r: map<Name, Arbitrator>)
    ensures r.Keys == arbs.Keys
    ensures forall a :: a in r && r[a].arbStatus == Available ==> r[a].termExpiration > now
    ensures forall a :: a in arbs ==> r[a] == arbs[a] || r[a] == arbs[a].(arbStatus := SeatExpired)
    ensures forall a :: a in arbs && arbs[a].arbStatus != Available ==> r[a] == arbs[a]
    ensures forall a :: a in arbs && arbs[a].arbStatus == Available && arbs[a].termExpiration > now ==> r[a] == arbs[a]
    ensures forall a :: a in arbs && arbs[a].arbStatus == Available && arbs[a].termExpiration <= now ==>
              r[a] == arbs[a].(arbStatus := SeatExpired)
  {
    map a | a in arbs ::
      if arbs[a].arbStatus == Available && arbs[a].termExpiration <= now
      then arbs[a].(arbStatus := SeatExpired)
      else arbs[a]
  }

  /**
   * The nominees an election seats: walking the tally's ranking from the top, each eligible
   * name takes a seat until the seats run out.
   */
  function Winners(ranking: seq<Name>, eligible: set<Name>, seats: nat): (w: seq<Name>)
    ensures |w| <= seats
    ensures forall n :: n in w ==> n in eligible && n in ranking
    ensures NoDup(w)
    decreases |ranking|
  {
    if ranking == [] || seats == 0 then []
    else if ranking[0] in eligible then
      var rest := Winners(ranking[1..], eligible - {ranking[0]}, seats - 1);
      assert ranking[0] !in rest;
      [ranking[0]] + rest
    else
      Winners(ranking[1..], eligible, seats)
  }

  function Min(a: nat, b: nat): (m: nat) { if a < b then a else b }

  /** The eligible names that appear in the ranking. */
  function Ranked(ranking: seq<Name>, eligible: set<Name>): (s: set<Name>)
  {
    set n | n in ranking && n in eligible
  }

  lemma RankedHeadIn(ranking: seq<Name>, eligible: set<Name>)
    requires ranking != [] && ranking[0] in eligible
    ensures Ranked(ranking, eligible) == Ranked(ranking[1..], eligible - {ranking[0]}) + {ranking[0]}
    ensures ranking[0] !in Ranked(ranking[1..], eligible - {ranking[0]})
  {
    forall n | n in Ranked(ranking, eligible) && n != ranking[0]
      ensures n in Ranked(ranking[1..], eligible - {ranking[0]})
    {
      var k :| 0 <= k < |ranking| && ranking[k] == n;
      assert ranking[1..][k - 1] == n;
    }
  }

  lemma RankedHeadOut(ranking: seq<Name>, eligible: set<Name>)
    requires ranking != [] && ranking[0] !in eligible
    ensures Ranked(ranking, eligible) == Ranked(ranking[1..], eligible)
  {
    forall n | n in Ranked(ranking, eligible)
      ensures n in Ranked(ranking[1..], eligible)
    {
      var k :| 0 <= k < |ranking| && ranking[k] == n;
      assert ranking[1..][k - 1] == n;
    }
  }

  /** An election fills every seat it can: it seats as many as there are seats or ranked eligible nominees. */
  lemma {:induction false} WinnersFillSeats(ranking: seq<Name>, eligible: set<Name>, seats: nat)
    ensures |Winners(ranking, eligible, seats)| == Min(seats, |Ranked(ranking, eligible)|)
    decreases |ranking|
  {
    if ranking == [] {
      assert Ranked(ranking, eligible) == {};
    } else if seats > 0 {
      if ranking[0] in eligible {
        WinnersFillSeats(ranking[1..], eligible - {ranking[0]}, seats - 1);
        RankedHeadIn(ranking, eligible);
      } else {
        WinnersFillSeats(ranking[1..], eligible, seats);
        RankedHeadOut(ranking, eligible);
      }
    }
  }

  /**
   * The winners are the top of the ranking: an eligible name that is passed over is ranked below
   * every winner's first appearance, and it is passed over only when every seat went to someone.
   */
  lemma {:induction false} WinnersTopRanked(ranking: seq<Name>, eligible: set<Name>, seats: nat)
    ensures var w := Winners(ranking, eligible, seats);
            forall i, j :: 0 <= i < j < |ranking| && ranking[i] in eligible && ranking[i] !in w && ranking[j] in w ==>
              ranking[j] in ranking[..i]
    ensures var w := Winners(ranking, eligible, seats);
            forall n :: n in ranking && n in eligible && n !in w ==> |w| == seats
    decreases |ranking|
  {
    var w := Winners(ranking, eligible, seats);
    if ranking == [] || seats == 0 {
    } else if ranking[0] in eligible {
      var tail, eligible' := ranking[1..], eligible - {ranking[0]};
      var rest := Winners(tail, eligible', seats - 1);
      assert w == [ranking[0]] + rest;
      WinnersTopRanked(tail, eligible', seats - 1);
      forall i, j | 0 <= i < j < |ranking| && ranking[i] in eligible && ranking[i] !in w && ranking[j] in w
        ensures ranking[j] in ranking[..i]
      {
        assert i >= 1 && ranking[..i][0] == ranking[0];
        if ranking[j] != ranking[0] {
          assert tail[i - 1] == ranking[i] && tail[j - 1] == ranking[j];
          assert ranking[j] in tail[..i - 1];
          assert tail[..i - 1] == ranking[1..i];
        }
      }
      forall n | n in ranking && n in eligible && n !in w
        ensures |w| == seats
      {
        assert n in tail;
      }
    } else {
      var tail := ranking[1..];
      WinnersTopRanked(tail, eligible, seats);
      forall i, j | 0 <= i < j < |ranking| && ranking[i] in eligible && ranking[i] !in w && ranking[j] in w
        ensures ranking[j] in ranking[..i]
      {
        assert tail[i - 1] == ranking[i] && tail[j - 1] == ranking[j];
        assert ranking[j] in tail[..i - 1];
        assert tail[..i - 1] == ranking[1..i];
      }
      forall n | n in ranking && n in eligible && n !in w
        ensures |w| == seats
      {
        assert n in tail;
      }
    }
  }

  /**
   * With a ranking that names each nominee once, an election never seats a name while passing
   * over an eligible name ranked above it.
   */
  lemma WinnersOutrankPassedOver(ranking: seq<Name>, eligible: set<Name>, seats: nat)
    requires NoDup(ranking)
    ensures var w := Winners(ranking, eligible, seats);
            forall i, j :: 0 <= i < j < |ranking| && ranking[j] in w && ranking[i] in eligible ==> ranking[i] in w
  {
    var w := Winners(ranking, eligible, seats);
    WinnersTopRanked(ranking, eligible, seats);
    forall i, j | 0 <= i < j < |ranking| && ranking[j] in w && ranking[i] in eligible
      ensures ranking[i] in w
    {
      assert ranking[j] !in ranking[..i] by {
        forall k | 0 <= k < i ensures ranking[..i][k] != ranking[j] {
          assert ranking[..i][k] == ranking[k];
        }
      }
    }
  }

  /** The record add_arbitrator creates for a newly elected nominee. */
  function NewArbitrator(n: Name, credentialsLink: string, now: nat, termLength: nat): (r: Arbitrator)
    ensures r.arb == n && r.arbStatus == Available && r.openCaseIds == [] && r.closedCaseIds == []
    ensures r.termExpiration - r.electedTime == termLength && r.electedTime == now
  {
    Arbitrator(n, Available, [], [], credentialsLink, now, now + termLength, [])
  }

  /**
   * The nominees an election may seat: those without a roster record, and those whose seat has
   * expired and who stand again.
   */
  function Eligible(roster: map<Name, Arbitrator>, nominees: map<Name, Nominee>): (e: set<Name>)
    ensures forall n :: n in e <==> n in nominees && (n !in roster || roster[n].arbStatus == SeatExpired)
  {
    set n | n in nominees && (n !in roster || roster[n].arbStatus == SeatExpired)
  }

  /**
   * The roster record of `n` after add_arbitrator seats it: a fresh record for a newcomer; for a
   * re-elected arbitrator its old record, AVAILABLE again for a new term, its case lists kept.
   */
  function Seat(roster: map<Name, Arbitrator>, n: Name, credentialsLink: string, now: nat, termLength: nat): (r: Arbitrator)
    ensures r.arb == (if n in roster then roster[n].arb else n)
    ensures r.arbStatus == Available && r.electedTime == now && r.termExpiration == now + termLength
    ensures r.credentialsLink == credentialsLink
    ensures n !in roster ==> r.openCaseIds == [] && r.closedCaseIds == []
    ensures n in roster ==> r.openCaseIds == roster[n].openCaseIds && r.closedCaseIds == roster[n].closedCaseIds
                            && r.languages == roster[n].languages
  {
    if n in roster then
      roster[n].(arbStatus := Available, credentialsLink := credentialsLink,
                 electedTime := now, termExpiration := now + termLength)
    else NewArbitrator(n, credentialsLink, now, termLength)
  }

  /** One step of the promotion walk: the name at `i` is seated exactly when a seat is left and it is eligible. */
  lemma WinnersStep(ranking: seq<Name>, i: nat, eligible: set<Name>, seats: nat, promoted: seq<Name>, w: seq<Name>)
    requires i < |ranking|
    requires promoted + Winners(ranking[i..], eligible, seats) == w
    ensures seats > 0 && ranking[i] in eligible ==>
              (promoted + [ranking[i]]) + Winners(ranking[i + 1..], eligible - {ranking[i]}, seats - 1) == w
    ensures !(seats > 0 && ranking[i] in eligible) ==> promoted + Winners(ranking[i + 1..], eligible, seats) == w
  {
    assert ranking[i..][0] == ranking[i] && ranking[i..][1..] == ranking[i + 1..];
    if seats > 0 && ranking[i] in eligible {
      assert Winners(ranking[i..], eligible, seats)
          == [ranking[i]] + Winners(ranking[i + 1..], eligible - {ranking[i]}, seats - 1);
    }
  }

  /** The names listed in `s`. */
  function Members(s: seq<Name>): (m: set<Name>)
  {
    set x | x in s
  }

  lemma PromotedGrows(promoted: seq<Name>, n: Name)
    ensures Members(promoted + [n]) == Members(promoted) + {n}
  {
  }

  /**
   * `arbs` and `noms` are the roster and the registry after the names in `seated` were seated:
   * they left the registry and hold a new term on the roster; the rest is untouched.
   */
  ghost predicate PromotedSoFar(roster: map<Name, Arbitrator>, nominees: map<Name, Nominee>, seated: set<Name>,
                                arbs: map<Name, Arbitrator>, noms: map<Name, Nominee>, now: nat, termLength: nat)
  {
    && noms == nominees - seated
    && arbs.Keys == roster.Keys + seated
    && (forall a :: a in roster && a !in seated ==> arbs[a] == roster[a])
    && (forall a :: a in seated ==>
          a in Eligible(roster, nominees) && arbs[a] == Seat(roster, a, nominees[a].credentialsLink, now, termLength))
  }

  /** Seating one more eligible nominee keeps `PromotedSoFar`, and it is no longer eligible. */
  lemma SeatOne(roster: map<Name, Arbitrator>, nominees: map<Name, Nominee>, seated: set<Name>,
                arbs: map<Name, Arbitrator>, noms: map<Name, Nominee>, now: nat, termLength: nat, n: Name)
    requires PromotedSoFar(roster, nominees, seated, arbs, noms, now, termLength)
    requires n in Eligible(arbs, noms)
    ensures PromotedSoFar(roster, nominees, seated + {n},
                          arbs[n := Seat(arbs, n, noms[n].credentialsLink, now, termLength)], noms - {n},
                          now, termLength)
    ensures Eligible(arbs[n := Seat(arbs, n, noms[n].credentialsLink, now, termLength)], noms - {n})
            == Eligible(arbs, noms) - {n}
  {
    assert n !in seated;
    assert n in arbs ==> n in roster && arbs[n] == roster[n];
  }

  /**
   * The promotion walk has looked at the first `i` names of the ranking: `promoted` lists whom it
   * seated so far, `arbs` and `noms` are the roster and registry after seating them, and the rest
   * of the ranking will seat exactly the remaining winners.
   */
  ghost predicate Walked(ranking: seq<Name>, roster: map<Name, Arbitrator>, nominees: map<Name, Nominee>,
                         seats: nat, now: nat, termLength: nat,
                         i: nat, arbs: map<Name, Arbitrator>, noms: map<Name, Nominee>, promoted: seq<Name>)
  {
    && i <= |ranking|
    && |promoted| <= seats
    && PromotedSoFar(roster, nominees, Members(promoted), arbs, noms, now, termLength)
    && promoted + Winners(ranking[i..], Eligible(arbs, noms), seats - |promoted|)
       == Winners(ranking, Eligible(roster, nominees), seats)
  }

  /** Seating the name at `i`, when a seat is left and it is an eligible nominee, continues the walk. */
  lemma WalkSeat(ranking: seq<Name>, roster: map<Name, Arbitrator>, nominees: map<Name, Nominee>,
                 seats: nat, now: nat, termLength: nat,
                 i: nat, arbs: map<Name, Arbitrator>, noms: map<Name, Nominee>, promoted: seq<Name>)
    requires Walked(ranking, roster, nominees, seats, now, termLength, i, arbs, noms, promoted)
    requires i < |ranking| && |promoted| < seats && ranking[i] in Eligible(arbs, noms)
    ensures Walked(ranking, roster, nominees, seats, now, termLength, i + 1,
                   arbs[ranking[i] := Seat(arbs, ranking[i], noms[ranking[i]].credentialsLink, now, termLength)],
                   noms - {ranking[i]}, promoted + [ranking[i]])
  {
    var n := ranking[i];
    WinnersStep(ranking, i, Eligible(arbs, noms), seats - |promoted|, promoted,
                Winners(ranking, Eligible(roster, nominees), seats));
    SeatOne(roster, nominees, Members(promoted), arbs, noms, now, termLength, n);
    PromotedGrows(promoted, n);
  }

  /** Passing over the name at `i`, when no seat is left or it is not an eligible nominee, continues the walk. */
  lemma WalkSkip(ranking: seq<Name>, roster: map<Name, Arbitrator>, nominees: map<Name, Nominee>,
                 seats: nat, now: nat, termLength: nat,
                 i: nat, arbs: map<Name, Arbitrator>, noms: map<Name, Nominee>, promoted: seq<Name>)
    requires Walked(ranking, roster, nominees, seats, now, termLength, i, arbs, noms, promoted)
    requires i < |ranking| && !(|promoted| < seats && ranking[i] in Eligible(arbs, noms))
    ensures Walked(ranking, roster, nominees, seats, now, termLength, i + 1, arbs, noms, promoted)
  {
    WinnersStep(ranking, i, Eligible(arbs, noms), seats - |promoted|, promoted,
                Winners(ranking, Eligible(roster, nominees), seats));
  }

  /**
   * The promotion pass of endelection: walks the ranking and, while seats remain, moves each
   * eligible nominee from the registry onto the roster (add_arbitrator).
   */
  method SeatWinners(ranking: seq<Name>, roster: map<Name, Arbitrator>, nominees: map<Name, Nominee>,
                     seats: nat, now: nat, termLength: nat)
    returns (arbs: map<Name, Arbitrator>, noms: map<Name, Nominee>, promoted: seq<Name>)
    ensures promoted == Winners(ranking, Eligible(roster, nominees), seats)
    ensures PromotedSoFar(roster, nominees, Members(promoted), arbs, noms, now, termLength)
  {
    arbs, noms := roster, nominees;
    promoted := [];
    var i := 0;
    assert ranking[0..] == ranking;
    while i < |ranking|
      invariant Walked(ranking, roster, nominees, seats, now, termLength, i, arbs, noms, promoted)
    {
      var n := ranking[i];
      if |promoted| < seats && n in noms && (n !in arbs || arbs[n].arbStatus == SeatExpired) {
        WalkSeat(ranking, roster, nominees, seats, now, termLength, i, arbs, noms, promoted);
        arbs := arbs[n := Seat(arbs, n, noms[n].credentialsLink, now, termLength)];
        noms := noms - {n};
        promoted := promoted + [n];
      } else {
        WalkSkip(ranking, roster, nominees, seats, now, termLength, i, arbs, noms, promoted);
      }
      i := i + 1;
    }
    assert ranking[i..] == [];
  }

  /** Noticing lapsed terms keeps the roster keyed and every case's arbitrators booked. */
  lemma ExpiryKeepsBooking(cases: map<nat, CaseFile>, before: map<Name, Arbitrator>, now: nat)
    requires ArbitratorsKeyed(before) && ArbsBooked(cases, before)
    ensures ArbitratorsKeyed(ExpireSeats(before, now)) && ArbsBooked(cases, ExpireSeats(before, now))
  {
    var roster := ExpireSeats(before, now);
    forall a | a in roster ensures roster[a].arb == a {
      assert roster[a].arb == before[a].arb;
    }
    forall id, a | id in cases && a in cases[id].arbitrators
      ensures a in roster && (cases[id].caseStatus == Resolved ==> id in roster[a].closedCaseIds)
                          && (cases[id].caseStatus != Resolved ==> id in roster[a].openCaseIds)
    {
      assert a in before;
    }
  }

  /** An election keeps the roster keyed and every case's arbitrators booked; the registry stays keyed. */
  lemma ElectionKeepsBooking(cases: map<nat, CaseFile>, before: map<Name, Arbitrator>, nominees: map<Name, Nominee>,
                             now: nat, termLength: nat, seated: set<Name>,
                             arbs: map<Name, Arbitrator>, noms: map<Name, Nominee>)
    requires ArbitratorsKeyed(before) && ArbsBooked(cases, before) && NomineesKeyed(nominees)
    requires PromotedSoFar(ExpireSeats(before, now), nominees, seated, arbs, noms, now, termLength)
    ensures ArbitratorsKeyed(arbs) && ArbsBooked(cases, arbs) && NomineesKeyed(noms)
  {
    var roster := ExpireSeats(before, now);
    forall a | a in arbs ensures arbs[a].arb == a {
      if a in roster {
        assert roster[a].arb == before[a].arb;
      }
    }
    forall id, a | id in cases && a in cases[id].arbitrators
      ensures a in arbs && (cases[id].caseStatus == Resolved ==> id in arbs[a].closedCaseIds)
                        && (cases[id].caseStatus != Resolved ==> id in arbs[a].openCaseIds)
    {
      assert a in before && a in roster;
      if a !in seated {
        assert arbs[a] == roster[a];
      }
    }
  }
}
