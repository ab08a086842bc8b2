/** The assurance lifecycle: states, events and runs of the state machine. */
module Lifecycle {
  import opened Seqs

  datatype AssuranceState = Unspecified | Unknown | Observed | Verified | Assured | Stale | Failed {
    function Text(): string {
      match this
      case Unspecified => "UNSPECIFIED"
      case Unknown => "UNKNOWN"
      case Observed => "OBSERVED"
      case Verified => "VERIFIED"
      case Assured => "ASSURED"
      case Stale => "STALE"
      case Failed => "FAILED"
    }
  }

  lemma StateTextInjective(s: AssuranceState, t: AssuranceState)
    requires s.Text() == t.Text()
    ensures s == t
  {
    var a, b := s.Text(), t.Text();
    assert |a| == |b| && a[0] == b[0] && a[2] == b[2];
  }

  /** State names are upper-case letters only, so no separator occurs in them. */
  lemma StateTextClean(s: AssuranceState)
    ensures forall c :: c in s.Text() ==> 'A' <= c <= 'Z'
  {
  }

  datatype TransitionEvent =
    | EvidenceIngested | EvidenceVerified | PolicyAssured | EpochChanged | EvidenceExpired
    | Reevaluated | ViolationConfirmed | EvidenceInvalid | Reset

  /** The next state, or None for a transition the machine rejects. */
  function Transition(current: AssuranceState, event: TransitionEvent): Option<AssuranceState> {
    match event
    case ViolationConfirmed => Some(Failed)
    case EvidenceInvalid | Reset => Some(Unknown)
    case _ =>
      match current
      case Unknown | Unspecified => if event == EvidenceIngested then Some(Observed) else None
      case Observed => if event == EvidenceVerified then Some(Verified) else None
      case Verified =>
        if event == PolicyAssured then Some(Assured)
        else if event == EpochChanged || event == EvidenceExpired then Some(Stale)
        else None
      case Assured => if event == EpochChanged || event == EvidenceExpired then Some(Stale) else None
      case Stale => if event == Reevaluated || event == EvidenceIngested then Some(Observed) else None
      case Failed => if event == Reevaluated then Some(Observed) else None
  }

  /** The transitions the documentation lists. */
  predicate Documented(s: AssuranceState, e: TransitionEvent, next: AssuranceState) {
    || (s == Unknown && e == EvidenceIngested && next == Observed)
    || (s == Observed && e == EvidenceVerified && next == Verified)
    || (s == Verified && e == PolicyAssured && next == Assured)
    || (s == Assured && (e == EpochChanged || e == EvidenceExpired) && next == Stale)
    || (s == Stale && e == Reevaluated && next == Observed)
    || (e == ViolationConfirmed && next == Failed)
    || ((e == EvidenceInvalid || e == Reset) && next == Unknown)
  }

  /** The machine makes every documented transition, and exactly five more: an unspecified state
      takes evidence like an unknown one, a verified state drifts to stale without having been
      assured, new evidence lifts a stale state, and a failed state can be re-evaluated. */
  lemma MachineAgainstDocumentation(s: AssuranceState, e: TransitionEvent, next: AssuranceState)
    ensures Transition(s, e) == Some(next) <==>
            || Documented(s, e, next)
            || (s == Unspecified && e == EvidenceIngested && next == Observed)
            || (s == Verified && (e == EpochChanged || e == EvidenceExpired) && next == Stale)
            || (s == Stale && e == EvidenceIngested && next == Observed)
            || (s == Failed && e == Reevaluated && next == Observed)
  {
  }

  /** A run: the state reached, and the events that were accepted on the way. */
  datatype Progress = Progress(state: AssuranceState, accepted: seq<TransitionEvent>)

  function Advance(p: Progress, event: TransitionEvent): Progress {
    match Transition(p.state, event)
    case Some(next) => Progress(next, p.accepted + [event])
    case None => p
  }

  function Drive(events: seq<TransitionEvent>): Progress {
    if events == [] then Progress(Unknown, []) else Advance(Drive(events[..|events| - 1]), events[|events| - 1])
  }

  predicate IsIntake(e: TransitionEvent) {
    e == EvidenceIngested || e == Reevaluated
  }

  function Intake(): TransitionEvent -> bool {
    (e: TransitionEvent) => IsIntake(e)
  }

  function Is(event: TransitionEvent): TransitionEvent -> bool {
    (e: TransitionEvent) => e == event
  }

  /** How the accepted events explain the state: an observed state was entered by an intake, a
      verified one by a verification on top of an intake, an assured one by a policy decision on
      top of both. */
  predicate Traced(state: AssuranceState, a: seq<TransitionEvent>) {
    var n := |a|;
    && (state == Observed ==> n >= 1 && IsIntake(a[n - 1]))
    && (state == Verified ==> n >= 2 && a[n - 1] == EvidenceVerified && IsIntake(a[n - 2]))
    && (state == Assured ==> n >= 3 && a[n - 1] == PolicyAssured && a[n - 2] == EvidenceVerified && IsIntake(a[n - 3]))
  }

  /** There is always one more event of each kind than the next kind has used up. */
  predicate Balanced(state: AssuranceState, policies: nat, verifications: nat, intakes: nat) {
    && policies + (if state == Verified then 1 else 0) <= verifications
    && verifications + (if state == Observed then 1 else 0) <= intakes
  }

  ghost predicate BalancedBy(state: AssuranceState, a: seq<TransitionEvent>) {
    Balanced(state, CountIf(a, Is(PolicyAssured)), CountIf(a, Is(EvidenceVerified)), CountIf(a, Intake()))
  }

  ghost predicate Explained(p: Progress) {
    Traced(p.state, p.accepted) && BalancedBy(p.state, p.accepted)
  }

  lemma StepTraced(s: AssuranceState, a: seq<TransitionEvent>, e: TransitionEvent, next: AssuranceState)
    requires Traced(s, a) && Transition(s, e) == Some(next) && s != Unspecified
    ensures Traced(next, a + [e]) && next != Unspecified
  {
  }

  lemma StepBalanced(s: AssuranceState, e: TransitionEvent, next: AssuranceState, policies: nat, verifications: nat, intakes: nat)
    requires Balanced(s, policies, verifications, intakes) && Transition(s, e) == Some(next) && s != Unspecified
    ensures Balanced(next, policies + (if e == PolicyAssured then 1 else 0),
                     verifications + (if e == EvidenceVerified then 1 else 0), intakes + (if IsIntake(e) then 1 else 0))
  {
  }

  lemma AdvanceExplained(p: Progress, event: TransitionEvent)
    requires Explained(p) && p.state != Unspecified
    ensures Explained(Advance(p, event)) && Advance(p, event).state != Unspecified
  {
    match Transition(p.state, event)
    case Some(next) =>
      StepExplained(p.state, p.accepted, event, next);
    case None =>
  }

  lemma StepExplained(s: AssuranceState, a: seq<TransitionEvent>, e: TransitionEvent, next: AssuranceState)
    requires Explained(Progress(s, a)) && Transition(s, e) == Some(next) && s != Unspecified
    ensures Explained(Progress(next, a + [e])) && next != Unspecified
  {
    StepTraced(s, a, e, next);
    AcceptedBalanced(s, a, e, next);
  }

  lemma AcceptedBalanced(s: AssuranceState, a: seq<TransitionEvent>, e: TransitionEvent, next: AssuranceState)
    requires BalancedBy(s, a) && Transition(s, e) == Some(next) && s != Unspecified
    ensures BalancedBy(next, a + [e])
  {
    var p, v, n := CountIf(a, Is(PolicyAssured)), CountIf(a, Is(EvidenceVerified)), CountIf(a, Intake());
    StepBalanced(s, e, next, p, v, n);
    CountOfEvent(a, e, PolicyAssured);
    CountOfEvent(a, e, EvidenceVerified);
    CountSnoc(a, e, Intake());
  }

  lemma CountOfEvent(a: seq<TransitionEvent>, e: TransitionEvent, kind: TransitionEvent)
    ensures CountIf(a + [e], Is(kind)) == CountIf(a, Is(kind)) + if e == kind then 1 else 0
  {
    CountSnoc(a, e, Is(kind));
  }

  /** ASSURED is only ever reached through intake, verification and policy, in that order and with
      nothing accepted in between; and over every run policy assurances never outnumber
      verifications, nor those the intakes. */
  lemma {:induction false} AssuredOnlyByProof(events: seq<TransitionEvent>)
    ensures Explained(Drive(events))
    ensures Drive(events).state != Unspecified
  {
    if events != [] {
      AssuredOnlyByProof(events[..|events| - 1]);
      AdvanceExplained(Drive(events[..|events| - 1]), events[|events| - 1]);
    }
  }
}
