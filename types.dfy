/** Records and closed enumerations of the arbitration contract. */
module ArbTypes {

  /** A byte-wide code as carried in action arguments (decision_class, new_status). */
  type uint8 = x: int | 0 <= x < 256

  datatype Option<+T> = None | Some(value: T)

  /** The ways an action aborts; an aborted action leaves every table as it was. */
  datatype Error =
    | Unauthorized        // the named actor is not the one the action needs
    | InvalidState        // the action is not legal in the current lifecycle state
    | NotFound            // a referenced case, claim, nominee, arbitrator or joinder is absent
    | EmptyCase           // readying a case that has no claims
    | CapacityExceeded    // no arbitrator seat is free
    | MalformedReference  // a document link fails validation
    | DuplicateEntry      // an identity or a case is registered twice
    | InvalidArgument     // a numeric code or a configuration value is out of range

  datatype Outcome = Pass | Fail(error: Error)

  /** An account name; `value` is its 64-bit encoding. The zero name means "nobody". */
  datatype Name = Name(value: bv64)

  const NoName: Name := Name(0)

  /** case_state: the adjudication lifecycle, in forward order, with the terminal DISMISSED last. */
  datatype CaseState =
    | CaseSetup | AwaitingArbs | CaseInvestigation | Hearing | Deliberation
    | Decision | Enforcement | Resolved | Dismissed
  {
    /** The enumerator's numeric value. */
    function Code(): (c: uint8)
      ensures c <= 8
      ensures c == 8 <==> this == Dismissed
    {
      match this
      case CaseSetup => 0
      case AwaitingArbs => 1
      case CaseInvestigation => 2
      case Hearing => 3
      case Deliberation => 4
      case Decision => 5
      case Enforcement => 6
      case Resolved => 7
      case Dismissed => 8
    }
  }

  /** Decodes a status byte; only the nine enumerator values name a state. */
  function CaseStateOf(b: uint8): (r: Option<CaseState>)
    ensures r.Some? <==> b <= 8
    ensures r.Some? ==> r.value.Code() == b
  {
    match b
    case 0 => Some(CaseSetup)
    case 1 => Some(AwaitingArbs)
    case 2 => Some(CaseInvestigation)
    case 3 => Some(Hearing)
    case 4 => Some(Deliberation)
    case 5 => Some(Decision)
    case 6 => Some(Enforcement)
    case 7 => Some(Resolved)
    case 8 => Some(Dismissed)
    case _ => None
  }

  /** claim_class: dispute categories; UNDECIDED is the class of a claim nobody has ruled on. */
  datatype ClaimClass =
    | Undecided | LostKeyRecovery | TrxReversal | EmergencyInter | ContestedOwner
    | UnexecutedRelief | ContractBreach | MisusedCrIp | ATort | BpPenaltyReversal
    | WrongfulArbAct | ActExecRelief | WpProjFailure | TbnoaBreach | Misc
  {
    function Code(): (c: uint8)
      ensures c <= 14
      ensures c == 0 <==> this == Undecided
    {
      match this
      case Undecided => 0
      case LostKeyRecovery => 1
      case TrxReversal => 2
      case EmergencyInter => 3
      case ContestedOwner => 4
      case UnexecutedRelief => 5
      case ContractBreach => 6
      case MisusedCrIp => 7
      case ATort => 8
      case BpPenaltyReversal => 9
      case WrongfulArbAct => 10
      case ActExecRelief => 11
      case WpProjFailure => 12
      case TbnoaBreach => 13
      case Misc => 14
    }
  }

  function ClaimClassOf(b: uint8): (r: Option<ClaimClass>)
    ensures r.Some? <==> b <= 14
    ensures r.Some? ==> r.value.Code() == b
  {
    match b
    case 0 => Some(Undecided)
    case 1 => Some(LostKeyRecovery)
    case 2 => Some(TrxReversal)
    case 3 => Some(EmergencyInter)
    case 4 => Some(ContestedOwner)
    case 5 => Some(UnexecutedRelief)
    case 6 => Some(ContractBreach)
    case 7 => Some(MisusedCrIp)
    case 8 => Some(ATort)
    case 9 => Some(BpPenaltyReversal)
    case 10 => Some(WrongfulArbAct)
    case 11 => Some(ActExecRelief)
    case 12 => Some(WpProjFailure)
    case 13 => Some(TbnoaBreach)
    case 14 => Some(Misc)
    case _ => None
  }

  /** arb_status: SEAT_EXPIRED is assigned by the contract, never chosen by the arbitrator. */
  datatype ArbStatus = Available | Unavailable | Inactive | SeatExpired
  {
    function Code(): (c: uint8)
      ensures c <= 3
      ensures c == 3 <==> this == SeatExpired
    {
      match this
      case Available => 0
      case Unavailable => 1
      case Inactive => 2
      case SeatExpired => 3
    }
  }

  function ArbStatusOf(b: uint8): (r: Option<ArbStatus>)
    ensures r.Some? <==> b <= 3
    ensures r.Some? ==> r.value.Code() == b
  {
    match b
    case 0 => Some(Available)
    case 1 => Some(Unavailable)
    case 2 => Some(Inactive)
    case 3 => Some(SeatExpired)
    case _ => None
  }

  /** election_status. */
  datatype ElectionStatus = Open | Passed | Failed | Closed

  /** nominee: an application for an arbitrator seat, keyed by the nominee's name. */
  datatype Nominee = Nominee(nomineeName: Name, credentialsLink: string, applicationTime: nat)
  {
    function PrimaryKey(): Name { nomineeName }
  }

  /** arbitrator: an elected arbitrator with back-references to its cases. */
  datatype Arbitrator = Arbitrator(
    arb: Name,
    arbStatus: ArbStatus,
    openCaseIds: seq<nat>,
    closedCaseIds: seq<nat>,
    credentialsLink: string,
    electedTime: nat,
    termExpiration: nat,
    languages: seq<uint8>)
  {
    function PrimaryKey(): Name { arb }
  }

  /** claim: one assertion of a case; `claimId` is meaningful once the claim is accepted. */
  datatype Claim = Claim(
    claimId: nat,
    claimSummary: string,
    decisionLink: string,
    decisionClass: ClaimClass)
  {
    function PrimaryKey(): nat { claimId }
  }

  /** casefile: unread claims are held in the case; accepted claims are ids into the claims table. */
  datatype CaseFile = CaseFile(
    caseId: nat,
    caseStatus: CaseState,
    claimant: Name,
    respondant: Name,
    arbitrators: seq<Name>,
    requiredLangs: seq<uint8>,
    unreadClaims: seq<Claim>,
    acceptedClaims: seq<nat>,
    caseRuling: string,
    arbComment: string,
    lastEdit: nat)
  {
    function PrimaryKey(): nat { caseId }
  }

  /** joinder: a group of cases adjudicated together. */
  datatype Joinder = Joinder(joinId: nat, cases: seq<nat>, joinTime: nat, joinedBy: Name)
  {
    function PrimaryKey(): nat { joinId }
  }

  /** config: the global settings singleton. */
  datatype Config = Config(
    publisher: Name,
    maxElectedArbs: nat,
    electionDuration: nat,
    electionStart: nat,
    feeStructure: seq<int>,
    arbTermLength: nat,
    lastTimeEdited: nat,
    currentBallotId: nat,
    autoStartElection: bool)
}
