/**
 * The case lifecycle as a transition table keyed on (action, current state).
 * Every action that changes a case's status consults `Transition`.
 */
module CaseLifecycle {
  import opened ArbTypes

  /** The status-changing case actions. */
  datatype StatusAction =
    | Ready                         // readycase
    | Assign                        // assigntocase
    | Advance                       // advancecase
    | SetStatus(target: CaseState)  // newcfstatus
    | DismissCase                   // dismisscase
    | ResolveCase                   // resolvecase
    | Recuse(remaining: nat)        // recuse, with the number of arbitrators left afterwards

  /** No joinder may include a case at DECISION or later, nor a dismissed one. */
  predicate JoinersClosed(s: CaseState)
  {
    s.Code() >= Decision.Code()
  }

  /** Statuses in which arbitrators are assigned and the case is still open. */
  predicate InProgress(s: CaseState)
  {
    CaseInvestigation.Code() <= s.Code() <= Enforcement.Code()
  }

  /** Statuses that no action leaves. */
  predicate Closed(s: CaseState)
  {
    s == Resolved || s == Dismissed
  }

  /** The next state in forward order; RESOLVED and DISMISSED have none. */
  function Successor(s: CaseState): (r: Option<CaseState>)
    ensures r.Some? <==> !Closed(s)
    ensures r.Some? ==> r.value.Code() == s.Code() + 1
  {
    match s
    case CaseSetup => Some(AwaitingArbs)
    case AwaitingArbs => Some(CaseInvestigation)
    case CaseInvestigation => Some(Hearing)
    case Hearing => Some(Deliberation)
    case Deliberation => Some(Decision)
    case Decision => Some(Enforcement)
    case Enforcement => Some(Resolved)
    case Resolved => None
    case Dismissed => None
  }

  /**
   * The moves a case's status may make: stay, go one phase forward (the only skip being
   * resolvecase's DECISION to RESOLVED), drop to DISMISSED before DECISION, or revert to
   * AWAITING_ARBS when its last arbitrator leaves.
   */
  predicate LegalMove(from: CaseState, to: CaseState)
  {
    || from == to
    || Successor(from) == Some(to)
    || (from == Decision && to == Resolved)
    || (to == Dismissed && !JoinersClosed(from))
    || (to == AwaitingArbs && InProgress(from))
  }

  /**
   * The transition table. `None` means the action is not legal in state `s`.
   * newcfstatus may only take one step forward from CASE_INVESTIGATION up to DECISION;
   * reaching RESOLVED or DISMISSED needs resolvecase or dismisscase, which record a ruling.
   */
  function Transition(act: StatusAction, s: CaseState): (r: Option<CaseState>)
    ensures Closed(s) ==> r.None?
    ensures r.Some? ==> LegalMove(s, r.value)
    ensures r == Some(Dismissed) <==> act.DismissCase? && !JoinersClosed(s) && s != CaseSetup && s != AwaitingArbs
    ensures r == Some(Resolved) <==> act.ResolveCase? && (s == Decision || s == Enforcement)
    ensures act.Ready? ==> (r.Some? <==> s == CaseSetup)
    ensures r.Some? && r.value.Code() < s.Code() ==> act.Recuse? && r.value == AwaitingArbs
  {
    match act
    case Ready =>
      if s == CaseSetup then Some(AwaitingArbs) else None
    case Assign =>
      if s == AwaitingArbs then Some(CaseInvestigation)
      else if InProgress(s) && !JoinersClosed(s) then Some(s)
      else None
    case Advance =>
      if InProgress(s) && s.Code() < Decision.Code() then Successor(s) else None
    case SetStatus(t) =>
      if InProgress(s) && s.Code() <= Decision.Code() && Successor(s) == Some(t) then Some(t) else None
    case DismissCase =>
      if InProgress(s) && !JoinersClosed(s) then Some(Dismissed) else None
    case ResolveCase =>
      if s == Decision || s == Enforcement then Some(Resolved) else None
    case Recuse(remaining) =>
      if !InProgress(s) then None
      else if remaining == 0 then Some(AwaitingArbs)
      else Some(s)
  }

  /** The only legal move out of RESOLVED or DISMISSED is to stay there. */
  lemma ClosedMovesNowhere(from: CaseState, to: CaseState)
    requires Closed(from)
    ensures LegalMove(from, to) <==> to == from
  {
  }

  /**
   * Phases are never skipped: a legal move forward, other than into DISMISSED, goes exactly one
   * phase, except that resolvecase takes DECISION straight to RESOLVED.
   */
  lemma NoSkippedPhases(from: CaseState, to: CaseState)
    requires LegalMove(from, to) && to.Code() > from.Code() && to != Dismissed
    ensures to.Code() == from.Code() + 1 || (from == Decision && to == Resolved)
  {
  }

  /** A sequence of status actions; an illegal action leaves the status as it was, like an aborted action. */
  function Run(s: CaseState, acts: seq<StatusAction>): (t: CaseState)
    decreases |acts|
  {
    if acts == [] then s
    else
      var next := Transition(acts[0], s);
      Run(if next.Some? then next.value else s, acts[1..])
  }

  /** A resolved or dismissed case keeps its status whatever actions follow. */
  lemma {:induction false} ClosedIsFinal(s: CaseState, acts: seq<StatusAction>)
    requires Closed(s)
    ensures Run(s, acts) == s
    decreases |acts|
  {
    if acts != [] {
      ClosedIsFinal(s, acts[1..]);
    }
  }

  /**
   * Statuses only move forward except for the recusal reversion: a run that contains no
   * recusal never ends at a smaller code than it started.
   */
  lemma {:induction false} ForwardWithoutRecusal(s: CaseState, acts: seq<StatusAction>)
    requires forall i :: 0 <= i < |acts| ==> !acts[i].Recuse?
    ensures Run(s, acts).Code() >= s.Code()
    decreases |acts|
  {
    if acts != [] {
      var next := Transition(acts[0], s);
      var s' := if next.Some? then next.value else s;
      assert s'.Code() >= s.Code();
      ForwardWithoutRecusal(s', acts[1..]);
    }
  }

  /** A case cannot leave CASE_SETUP except through readycase. */
  lemma {:induction false} SetupLeftOnlyByReady(acts: seq<StatusAction>)
    requires Run(CaseSetup, acts) != CaseSetup
    ensures exists i :: 0 <= i < |acts| && acts[i] == Ready
    decreases |acts|
  {
    var next := Transition(acts[0], CaseSetup);
    if acts[0] == Ready {
    } else {
      assert next.None?;
      SetupLeftOnlyByReady(acts[1..]);
      var i :| 0 <= i < |acts[1..]| && acts[1..][i] == Ready;
      assert acts[i + 1] == Ready;
    }
  }
}
