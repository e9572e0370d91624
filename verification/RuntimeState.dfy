/** Health and safety after startup: aggregation of the providers, the failure latch, and the
    transitions into and out of maintenance. */
module RuntimeState {
  import opened Octets
  import opened StartupModel

  function HealthSeverity(h: HealthState): nat {
    match h
    case Fault => 2
    case Degraded => 1
    case _ => 0
  }

  predicate ValidContributions(healths: seq<HealthState>, safeties: seq<SafetyState>) {
    && (forall i :: 0 <= i < |healths| ==> !healths[i].OtherHealth?)
    && (forall i :: 0 <= i < |safeties| ==> !safeties[i].OtherSafety?)
  }

  /** The contributions decide the pair: the worst health, and locked when anyone locks. */
  predicate Aggregates(healths: seq<HealthState>, safeties: seq<SafetyState>, health: HealthState,
                       safety: SafetyState) {
    && !health.OtherHealth?
    && (forall i :: 0 <= i < |healths| ==> HealthSeverity(healths[i]) <= HealthSeverity(health))
    && (health == Ok || health in healths)
    && safety == (if Locked in safeties then Locked else Clear)
  }

  lemma AggregateUnique(healths: seq<HealthState>, safeties: seq<SafetyState>,
                        h: HealthState, s: SafetyState, h': HealthState, s': SafetyState)
    requires ValidContributions(healths, safeties)
    requires Aggregates(healths, safeties, h, s) && Aggregates(healths, safeties, h', s')
    ensures h == h' && s == s'
  {
    if h in healths {
      var i :| 0 <= i < |healths| && healths[i] == h;
      assert HealthSeverity(healths[i]) <= HealthSeverity(h');
    }
    if h' in healths {
      var j :| 0 <= j < |healths| && healths[j] == h';
      assert HealthSeverity(healths[j]) <= HealthSeverity(h);
    }
  }

  function WorstHealth(healths: seq<HealthState>, from: nat, worst: HealthState): HealthState
    requires from <= |healths|
    decreases |healths| - from
  {
    if from == |healths| then worst
    else WorstHealth(healths, from + 1,
                     if HealthSeverity(healths[from]) > HealthSeverity(worst) then healths[from] else worst)
  }

  /** What the providers add up to, or None where the composition or a contribution is invalid. */
  function Combined(listsValid: bool, healths: seq<HealthState>, safeties: seq<SafetyState>):
    Option<(HealthState, SafetyState)>
  {
    if !listsValid || !ValidContributions(healths, safeties) then None
    else Some((WorstHealth(healths, 0, Ok), if Locked in safeties then Locked else Clear))
  }

  lemma {:induction false} WorstIsWorst(healths: seq<HealthState>, from: nat, worst: HealthState)
    requires from <= |healths| && !worst.OtherHealth? && (worst == Ok || worst in healths)
    requires forall i :: 0 <= i < |healths| ==> !healths[i].OtherHealth?
    requires forall i :: 0 <= i < from ==> HealthSeverity(healths[i]) <= HealthSeverity(worst)
    ensures var w := WorstHealth(healths, from, worst);
            && !w.OtherHealth? && (w == Ok || w in healths)
            && forall i :: 0 <= i < |healths| ==> HealthSeverity(healths[i]) <= HealthSeverity(w)
    decreases |healths| - from
  {
    if from < |healths| {
      WorstIsWorst(healths, from + 1,
                   if HealthSeverity(healths[from]) > HealthSeverity(worst) then healths[from] else worst);
    }
  }

  lemma AggregateExact(healths: seq<HealthState>, safeties: seq<SafetyState>)
    ensures var a := Combined(true, healths, safeties);
            && (a.Some? <==> ValidContributions(healths, safeties))
            && (a.Some? ==> Aggregates(healths, safeties, a.value.0, a.value.1))
  {
    if ValidContributions(healths, safeties) {
      WorstIsWorst(healths, 0, Ok);
    }
  }

  // ------------------------------------------------------------ after startup

  datatype TransitionRequest = Enter | Exit | OtherRequest
  datatype ParticipantResult = Prepared | Rejected | PreparationFailed | OtherResult
  datatype TransitionOutcome =
    | Completed | AlreadyInTargetState | TransitionRejected | TransitionFailed | InvalidState | InvalidRequest
    | InvalidParticipantResult
  datatype RefreshResult = Refreshed | Inactive | InvalidProvider

  /** The runtime once startup is over. */
  datatype Runtime = Runtime(
    status: RuntimeStatus, complete: bool, fatal: bool, handedOff: bool, listsValid: bool, latched: bool)

  datatype Contributions = Contributions(healths: seq<HealthState>, safeties: seq<SafetyState>)

  function ErrorStatus(status: RuntimeStatus): RuntimeStatus {
    status.(operational := Error, health := Fault, safety := Locked)
  }

  /** Activation is refused when the providers are invalid or claim to be better than startup found. */
  function Activation(status: RuntimeStatus, listsValid: bool, c: Contributions): Option<RuntimeStatus> {
    var a := Combined(listsValid, c.healths, c.safeties);
    if
      || a.None?
      || HealthSeverity(a.value.0) < HealthSeverity(status.health)
      || (status.safety == Locked && a.value.1 == Clear)
    then None
    else Some(status.(health := a.value.0, safety := a.value.1))
  }

  /** Handing the status to a coordinator, which must be `free`: not yet the owner of another one. */
  function Handoff(r: Runtime, free: bool, c: Contributions): (Runtime, bool) {
    if r.handedOff || !r.complete || r.fatal || r.status.operational != Running || r.status.phase != RunningPhase then
      (r, false)
    else
      var activated := Activation(r.status, r.listsValid, c);
      if !free || activated.None? then (r.(status := ErrorStatus(r.status)), false)
      else (r.(status := activated.value, handedOff := true), true)
  }

  function RefreshRuntime(r: Runtime, c: Contributions): (Runtime, RefreshResult) {
    if !r.handedOff then (r, Inactive)
    else
      var a := Combined(r.listsValid, c.healths, c.safeties);
      var pair := if r.latched || a.None? then (Fault, Locked) else a.value;
      (r.(status := r.status.(health := pair.0, safety := pair.1)), if a.Some? then Refreshed else InvalidProvider)
  }

  datatype Decision = DecisionAllowed | DecisionAlready | DecisionInvalidState | DecisionInvalidRequest

  function Evaluate(current: OperationalState, request: TransitionRequest): Decision {
    match request
    case Enter =>
      if current.Running? then DecisionAllowed
      else if current.Maintenance? then DecisionAlready
      else DecisionInvalidState
    case Exit =>
      if current.Maintenance? then DecisionAllowed
      else if current.Running? then DecisionAlready
      else DecisionInvalidState
    case OtherRequest => DecisionInvalidRequest
  }

  function RequestTransition(r: Runtime, request: TransitionRequest, answer: ParticipantResult):
    (Runtime, TransitionOutcome)
  {
    var decision := Evaluate(r.status.operational, request);
    if decision.DecisionInvalidRequest? then (r, InvalidRequest)
    else if decision.DecisionInvalidState? || !r.handedOff then (r, InvalidState)
    else if decision.DecisionAlready? then (r, AlreadyInTargetState)
    else
      var failed := r.(status := ErrorStatus(r.status), latched := true);
      match answer
      case Prepared =>
        (r.(status := r.status.(operational := if request.Enter? then Maintenance else Running)), Completed)
      case Rejected => (r, TransitionRejected)
      case PreparationFailed => (failed, TransitionFailed)
      case OtherResult => (failed, InvalidParticipantResult)
  }

  datatype RuntimeEvent =
    | HandoffEvent(free: bool, contributions: Contributions)
    | RefreshEvent(contributions: Contributions)
    | TransitionEvent(request: TransitionRequest, answer: ParticipantResult)

  function RuntimeStep(r: Runtime, e: RuntimeEvent): Runtime {
    match e
    case HandoffEvent(free, c) => Handoff(r, free, c).0
    case RefreshEvent(c) => RefreshRuntime(r, c).0
    case TransitionEvent(request, answer) => RequestTransition(r, request, answer).0
  }

  predicate Closed(status: RuntimeStatus) {
    status.operational == Error && status.health == Fault && status.safety == Locked
  }

  /** In error for good: no owner was activated, or its failure latch is set. */
  predicate FailClosed(r: Runtime) {
    Closed(r.status) && (r.handedOff ==> r.latched)
  }

  /** The three ways into the closed state. */
  lemma FailureCloses(r: Runtime, e: RuntimeEvent)
    ensures r.complete && r.fatal && Closed(r.status) && !r.handedOff ==> FailClosed(r)
    ensures (e.HandoffEvent? && !r.handedOff && r.complete && !r.fatal && r.status.operational == Running
             && r.status.phase == RunningPhase && !Handoff(r, e.free, e.contributions).1) ==>
                FailClosed(RuntimeStep(r, e))
    ensures (e.TransitionEvent?
             && RequestTransition(r, e.request, e.answer).1 in {TransitionFailed, InvalidParticipantResult}) ==>
              FailClosed(RuntimeStep(r, e))
  {
    hide Combined;
  }

  function RuntimeRun(r: Runtime, events: seq<RuntimeEvent>): Runtime
    decreases |events|
  {
    if events == [] then r else RuntimeRun(RuntimeStep(r, events[0]), events[1..])
  }

  /** Nothing that happens later reopens a runtime that has failed. */
  lemma {:induction false} ClosedForever(r: Runtime, events: seq<RuntimeEvent>)
    requires FailClosed(r)
    ensures FailClosed(RuntimeRun(r, events))
    decreases |events|
  {
    hide RuntimeStep;
    if events != [] {
      ClosedStays(r, events[0]);
      ClosedForever(RuntimeStep(r, events[0]), events[1..]);
    }
  }

  lemma ClosedStays(r: Runtime, e: RuntimeEvent)
    requires FailClosed(r)
    ensures FailClosed(RuntimeStep(r, e))
  {
    hide Combined;
  }

  /** Health and safety are only ever what the providers add up to, unless the latch is set. */
  lemma RefreshPublishes(r: Runtime, c: Contributions)
    requires r.handedOff && r.listsValid
    ensures var s := RefreshRuntime(r, c).0.status;
            && (RefreshRuntime(r, c).1.Refreshed? <==> ValidContributions(c.healths, c.safeties))
            && (!r.latched && ValidContributions(c.healths, c.safeties) ==>
                Aggregates(c.healths, c.safeties, s.health, s.safety))
            && (r.latched || !ValidContributions(c.healths, c.safeties) ==> s.health == Fault && s.safety == Locked)
  {
    hide Aggregates, ValidContributions, WorstHealth;
    AggregateExact(c.healths, c.safeties);
  }

  /** A handoff never makes the status look better than startup left it, and what it publishes is
      what the providers add up to. */
  lemma HandoffIsConservative(r: Runtime, free: bool, c: Contributions)
    ensures var (t, ok) := Handoff(r, free, c);
            ok ==>
              && free && ValidContributions(c.healths, c.safeties)
              && Aggregates(c.healths, c.safeties, t.status.health, t.status.safety)
              && HealthSeverity(t.status.health) >= HealthSeverity(r.status.health)
              && (r.status.safety == Locked ==> t.status.safety == Locked)
              && t.status.operational == Running && t.handedOff
  {
    hide Aggregates, ValidContributions, WorstHealth;
    AggregateExact(c.healths, c.safeties);
  }

  /** What a refresh answers, and that it touches health and safety only. */
  lemma RefreshExact(r: Runtime, c: Contributions)
    ensures var (t, result) := RefreshRuntime(r, c);
            && (result == Inactive <==> !r.handedOff)
            && (result == Refreshed <==> r.handedOff && r.listsValid && ValidContributions(c.healths, c.safeties))
            && (result == Inactive ==> t == r)
            && t == r.(status := r.status.(health := t.status.health, safety := t.status.safety))
  {
    hide ValidContributions;
  }

  /** When a handoff is accepted: after a startup that succeeded, to a free coordinator with valid
      providers that report at least what startup found; a refused activation fails closed, and an
      early or repeated handoff changes nothing. */
  lemma HandoffExact(r: Runtime, free: bool, c: Contributions)
    requires !r.status.health.OtherHealth?
    ensures var (t, ok) := Handoff(r, free, c);
            var ready := !r.handedOff && r.complete && !r.fatal && r.status.operational == Running
                         && r.status.phase == RunningPhase;
            var noBetter :=
              && (r.status.health == Ok || exists i :: 0 <= i < |c.healths| && NoBetter(c.healths[i], r.status.health))
              && (r.status.safety == Locked ==> Locked in c.safeties);
            && (ok <==> ready && free && r.listsValid && ValidContributions(c.healths, c.safeties) && noBetter)
            && (ready && !ok ==> t.status == ErrorStatus(r.status) && !t.handedOff)
            && (!ready ==> t == r)
  {
    hide ValidContributions, WorstHealth, HealthSeverity;
    AggregateExact(c.healths, c.safeties);
    if ValidContributions(c.healths, c.safeties) && r.listsValid {
      WorstAtLeast(c.healths, c.safeties, r.status.health);
    }
  }

  /** As bad as `found`, or worse. */
  predicate NoBetter(reported: HealthState, found: HealthState) {
    reported == Fault || found == Ok || (reported == Degraded && found == Degraded)
  }

  lemma WorstAtLeast(healths: seq<HealthState>, safeties: seq<SafetyState>, found: HealthState)
    requires ValidContributions(healths, safeties) && !found.OtherHealth?
    ensures var a := Combined(true, healths, safeties);
            a.Some? && (HealthSeverity(a.value.0) >= HealthSeverity(found) <==>
                          found == Ok || exists i :: 0 <= i < |healths| && NoBetter(healths[i], found))
  {
    hide WorstHealth;
    AggregateExact(healths, safeties);
    var a := Combined(true, healths, safeties).value;
    if a.0 in healths {
      var i :| 0 <= i < |healths| && healths[i] == a.0;
      assert HealthSeverity(a.0) >= HealthSeverity(found) ==> NoBetter(healths[i], found);
    }
    forall i | 0 <= i < |healths| && NoBetter(healths[i], found) ensures HealthSeverity(a.0) >= HealthSeverity(found) {
      assert HealthSeverity(healths[i]) <= HealthSeverity(a.0);
    }
  }

  /** What a maintenance request answers: the participant is asked exactly when the runtime has an
      owner and stands at the other end of the transition. */
  lemma TransitionAnswers(r: Runtime, request: TransitionRequest, answer: ParticipantResult)
    ensures var outcome := RequestTransition(r, request, answer).1;
            var running, maintenance := r.status.operational == Running, r.status.operational == Maintenance;
            var asked := r.handedOff && ((request == Enter && running) || (request == Exit && maintenance));
            && (outcome == InvalidRequest <==> request == OtherRequest)
            && (outcome == AlreadyInTargetState <==>
                  r.handedOff && ((request == Enter && maintenance) || (request == Exit && running)))
            && (outcome == InvalidState <==> request != OtherRequest && (!r.handedOff || (!running && !maintenance)))
            && (outcome == Completed <==> asked && answer == Prepared)
            && (outcome == TransitionRejected <==> asked && answer == Rejected)
            && (outcome == TransitionFailed <==> asked && answer == PreparationFailed)
            && (outcome == InvalidParticipantResult <==> asked && answer == OtherResult)
  {
  }

  /** The operational state moves only between running and maintenance, as requested and prepared,
      or to error for good. */
  lemma TransitionMoves(r: Runtime, request: TransitionRequest, answer: ParticipantResult)
    ensures var (t, outcome) := RequestTransition(r, request, answer);
            && (outcome == Completed <==>
                  r.handedOff && answer == Prepared
                  && ((request == Enter && r.status.operational == Running)
                      || (request == Exit && r.status.operational == Maintenance)))
            && (outcome == Completed ==>
                  t.status == r.status.(operational := if request == Enter then Maintenance else Running)
                    && t.latched == r.latched)
            && (t.status.operational != r.status.operational ==>
                outcome in {Completed, TransitionFailed, InvalidParticipantResult})
            && (outcome in {TransitionFailed, InvalidParticipantResult} ==> FailClosed(t))
            && (outcome !in {Completed, TransitionFailed, InvalidParticipantResult} ==> t == r)
  {
  }

  // ------------------------------------------------------------ the coordinator

  /** Where a runtime keeps its status, and where its coordinator writes. */
  class StatusCell {
    var value: RuntimeStatus

    constructor (initial: RuntimeStatus)
      ensures value == initial
    {
      value := initial;
    }
  }

  class RuntimeStateCoordinator {
    const listsValid: bool
    var status: StatusCell?
    var active: bool
    var runtimeFailureLatched: bool

    constructor (listsValid: bool)
      ensures this.listsValid == listsValid && Valid() && !active && !runtimeFailureLatched
    {
      this.listsValid := listsValid;
      status, active, runtimeFailureLatched := null, false, false;
    }

    predicate Valid()
      reads this
    {
      (active <==> status != null) && (runtimeFailureLatched ==> active)
    }

    /** The two loops over the providers' contributions. */
    method Aggregate(c: Contributions) returns (valid: bool, health: HealthState, safety: SafetyState)
      ensures valid == Combined(listsValid, c.healths, c.safeties).Some?
      ensures (health, safety) == if valid then Combined(listsValid, c.healths, c.safeties).value
                                  else (Fault, Locked)
    {
      if !listsValid {
        return false, Fault, Locked;
      }
      health, safety := Ok, Clear;
      for index := 0 to |c.healths|
        invariant forall i :: 0 <= i < index ==> !c.healths[i].OtherHealth?
        invariant WorstHealth(c.healths, 0, Ok) == WorstHealth(c.healths, index, health)
      {
        var contribution := c.healths[index];
        if contribution.OtherHealth? {
          return false, Fault, Locked;
        }
        if HealthSeverity(contribution) > HealthSeverity(health) {
          health := contribution;
        }
      }
      for index := 0 to |c.safeties|
        invariant forall i :: 0 <= i < index ==> !c.safeties[i].OtherSafety?
        invariant safety == if Locked in c.safeties[..index] then Locked else Clear
      {
        var contribution := c.safeties[index];
        if contribution.OtherSafety? {
          return false, Fault, Locked;
        }
        if contribution == Locked {
          safety := Locked;
        }
      }
      assert c.safeties[..|c.safeties|] == c.safeties;
      return true, health, safety;
    }

    method Refresh(c: Contributions) returns (result: RefreshResult)
      requires Valid()
      modifies status
      ensures !active ==> result == Inactive
      ensures active ==>
                var before := Runtime(old(status.value), true, false, true, listsValid, runtimeFailureLatched);
                var after := RefreshRuntime(before, c);
                status.value == after.0.status && result == after.1
    {
      if !active {
        return Inactive;
      }
      var valid, health, safety := Aggregate(c);
      if runtimeFailureLatched {
        health, safety := Fault, Locked;
      }
      status.value := status.value.(health := health, safety := safety);
      return if valid then Refreshed else InvalidProvider;
    }

    method LatchRuntimeFailure()
      requires Valid() && active
      modifies this, status
      ensures Valid() && active && status == old(status) && runtimeFailureLatched
      ensures status.value == old(status.value).(health := Fault, safety := Locked)
    {
      runtimeFailureLatched := true;
      status.value := status.value.(health := Fault, safety := Locked);
    }

    method Activate(cell: StatusCell, c: Contributions) returns (ok: bool)
      requires Valid()
      modifies this, cell
      ensures Valid() && runtimeFailureLatched == old(runtimeFailureLatched)
      ensures old(active) ==> !ok && cell.value == old(cell.value) && status == old(status) && active
      ensures !old(active) ==>
                var activated := Activation(old(cell.value), listsValid, c);
                && ok == activated.Some? == active
                && cell.value == (if ok then activated.value else old(cell.value))
                && status == (if ok then cell else null)
    {
      if active {
        return false;
      }
      var valid, health, safety := Aggregate(c);
      if
        || !valid
        || HealthSeverity(health) < HealthSeverity(cell.value.health)
        || (cell.value.safety == Locked && safety == Clear)
      {
        return false;
      }
      cell.value := cell.value.(health := health, safety := safety);
      status, active := cell, true;
      return true;
    }
  }
}
