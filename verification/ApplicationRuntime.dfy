/** The startup runtime: it validates its plan, makes the callbacks phase by phase, reports what
    failed, and hands its status over. */
module ApplicationRuntime {
  import opened Octets
  import opened RuntimeState
  import opened StartupModel

  const NO_RECORD := FailureRecord(PlanContractFailure, FromPlan, Boot, None, None, PhaseInvalid)

  /** The report with its borrowed, bounded storage for optional failures. */
  class StartupReport {
    const records: array<FailureRecord>
    var complete: bool
    var finalStatus: RuntimeStatus
    var fatal: Option<FailureRecord>
    var optionalFailureCount: nat
    var storedCount: nat
    /** Every optional failure, stored or not. */
    ghost var all: seq<FailureRecord>

    constructor (capacity: nat, initial: RuntimeStatus)
      ensures Valid() && fresh(records) && records.Length == capacity
      ensures !complete && fatal == None && all == [] && finalStatus == initial
    {
      records := new FailureRecord[capacity](_ => NO_RECORD);
      complete, finalStatus, fatal := false, initial, None;
      optionalFailureCount, storedCount, all := 0, 0, [];
    }

    /** All failures are counted; stored are the first ones, up to the capacity. */
    ghost predicate Valid()
      reads this, records
    {
      && optionalFailureCount == |all|
      && storedCount == (if |all| <= records.Length then |all| else records.Length)
      && records[..storedCount] == all[..storedCount]
    }

    method AddOptionalFailure(failure: FailureRecord)
      requires Valid()
      modifies this, records
      ensures Valid() && all == old(all) + [failure]
      ensures complete == old(complete) && fatal == old(fatal) && finalStatus == old(finalStatus)
    {
      optionalFailureCount := optionalFailureCount + 1;
      all := all + [failure];
      if storedCount >= records.Length {
        return;
      }
      records[storedCount] := failure;
      storedCount := storedCount + 1;
    }

    method Truncated() returns (t: bool)
      requires Valid()
      ensures t <==> |all| > records.Length
    {
      return optionalFailureCount > storedCount;
    }
  }

  class ApplicationRuntime {
    const plan: Plan
    const status: StatusCell
    const report: StartupReport
    var startInProgress: bool
    var coordinator: RuntimeStateCoordinator?
    /** The callbacks made so far. */
    ghost var trace: seq<Callee>

    constructor (plan: Plan)
      ensures Valid() && State() == FRESH && !report.complete && !startInProgress && coordinator == null
      ensures this.plan == plan && fresh(status) && fresh(report) && fresh(report.records)
    {
      this.plan := plan;
      status := new StatusCell(PRE_START);
      report := new StartupReport(plan.failureCapacity, PRE_START);
      startInProgress, coordinator, trace := false, null, [];
    }

    ghost predicate Valid()
      reads this, report, report.records
    {
      report.Valid()
    }

    ghost function State(): Progress
      reads this, status, report
    {
      Progress(status.value, report.all, report.fatal, trace)
    }

    method Fail(kind: FailureKind, source: FailureSource, id: Option<string>, index: Option<nat>, reason: Reason)
      requires Valid()
      modifies this, status, report, report.records
      ensures Valid() && report.complete && !startInProgress && coordinator == old(coordinator)
      ensures State() == FailWith(old(State()), FailureRecord(kind, source, old(status.value).phase, id, index, reason))
      ensures report.finalStatus == status.value
    {
      status.value := status.value.(operational := Error, health := Fault, safety := Locked);
      report.fatal := Some(FailureRecord(kind, source, status.value.phase, id, index, reason));
      report.finalStatus, report.complete := status.value, true;
      startInProgress := false;
    }

    /** Records a validation failure. */
    method FailPlan(failure: FailureRecord)
      requires Valid() && failure.kind == PlanContractFailure && failure.phase == Boot == status.value.phase
      modifies this, status, report, report.records
      ensures Valid() && report.complete && !startInProgress && coordinator == old(coordinator)
      ensures State() == FailWith(old(State()), failure) && report.finalStatus == status.value
    {
      Fail(failure.kind, failure.source, failure.id, failure.index, failure.reason);
    }

    /** The checks of one participant, in their order. */
    method CheckParticipant(index: nat) returns (error: Option<FailureRecord>)
      requires index < |plan.participants|
      ensures error == ParticipantError(plan, index)
    {
      hide PhaseOrder;
      var p := plan.participants[index];
      if !p.action.hasCallback {
        return Some(PlanFailure(FromParticipant, IdOrNone(p.action), Some(index), CallbackMissing));
      }
      if !HasId(p.action) {
        return Some(PlanFailure(FromParticipant, None, Some(index), ParticipantIdMissing));
      }
      if !IsValidPhase(p.phase) {
        return Some(PlanFailure(FromParticipant, p.action.id, Some(index), PhaseInvalid));
      }
      if !IsOrdinaryPhase(p.phase) {
        return Some(PlanFailure(FromParticipant, p.action.id, Some(index), PhaseNotAllowed));
      }
      if p.requirement.OtherRequirement? {
        return Some(PlanFailure(FromParticipant, p.action.id, Some(index), RequirementInvalid));
      }
      if (p.phase == NetworkInit || p.phase == InterfacesInit) && p.requirement != Optional {
        return Some(PlanFailure(FromParticipant, p.action.id, Some(index), PhaseNotAllowed));
      }
      if index > 0 && PhaseOrder(p.phase) < PhaseOrder(plan.participants[index - 1].phase) {
        return Some(PlanFailure(FromParticipant, p.action.id, Some(index), PhaseOrderInvalid));
      }
      if p.action.id == plan.earlySafeOutputs.id || p.action.id == plan.safetyGate.id {
        return Some(PlanFailure(FromParticipant, p.action.id, Some(index), ParticipantIdDuplicate));
      }
      for previous := 0 to index
        invariant forall k :: 0 <= k < previous ==> plan.participants[k].action.id != p.action.id
      {
        if p.action.id == plan.participants[previous].action.id {
          assert IdUsedBefore(plan, index);
          return Some(PlanFailure(FromParticipant, p.action.id, Some(index), ParticipantIdDuplicate));
        }
      }
      return None;
    }

    method ValidateFullPlan() returns (ok: bool)
      requires Valid() && status.value.phase == Boot
      modifies this, status, report, report.records
      ensures Valid() && ok == PlanError(plan).None? && coordinator == old(coordinator)
      ensures if ok then State() == old(State()) && report.complete == old(report.complete)
              && startInProgress == old(startInProgress)
              else State() == FailWith(old(State()), PlanError(plan).value)
                   && report.complete && !startInProgress && report.finalStatus == status.value
    {
      hide ParticipantError, FailWith;
      if !plan.failureStorageMatches {
        FailPlan(PlanFailure(FromPlan, None, None, ReportStorageInvalid));
        return false;
      }
      if !plan.safetyGate.hasCallback {
        FailPlan(PlanFailure(FromSafetyGate, IdOrNone(plan.safetyGate), None, CallbackMissing));
        return false;
      }
      if !HasId(plan.safetyGate) {
        FailPlan(PlanFailure(FromSafetyGate, None, None, ParticipantIdMissing));
        return false;
      }
      if !plan.participantStorageMatches {
        FailPlan(PlanFailure(FromPlan, None, None, ParticipantStorageInvalid));
        return false;
      }
      if plan.earlySafeOutputs.id == plan.safetyGate.id {
        FailPlan(PlanFailure(FromSafetyGate, plan.safetyGate.id, None, ParticipantIdDuplicate));
        return false;
      }
      var error := FirstParticipantError();
      if error.Some? {
        ErrorShape(0);
        FailPlan(error.value);
        return false;
      }
      return true;
    }

    method FirstParticipantError() returns (error: Option<FailureRecord>)
      ensures error == ParticipantsError(plan, 0)
    {
      hide ParticipantError;
      for index := 0 to |plan.participants|
        invariant ParticipantsError(plan, 0) == ParticipantsError(plan, index)
      {
        error := CheckParticipant(index);
        if error.Some? {
          return error;
        }
      }
      return None;
    }

    lemma ErrorShape(from: nat)
      requires from <= |plan.participants|
      ensures var e := ParticipantsError(plan, from);
              e.Some? ==> e.value.kind == PlanContractFailure && e.value.phase == Boot
      decreases |plan.participants| - from
    {
      hide IdUsedBefore;
      if from < |plan.participants| {
        ErrorShape(from + 1);
      }
    }

    /** One callback of a participant and what becomes of its result. */
    method CallParticipant(index: nat, answers: Answers) returns (ok: bool)
      requires Valid() && index < |plan.participants| && report.fatal.None?
      modifies this, status, report, report.records
      ensures Valid() && coordinator == old(coordinator)
      ensures State() == StartupModel.CallParticipant(plan, answers, old(State()), index)
      ensures ok == report.fatal.None?
      ensures ok ==> startInProgress == old(startInProgress) && report.complete == old(report.complete)
      ensures !ok ==> report.complete && !startInProgress && report.finalStatus == status.value
    {
      hide IsValidResult;
      var participant := plan.participants[index];
      var result := answers(Part(index));
      trace := trace + [Part(index)];
      var id := participant.action.id;
      if !IsValidResult(result) {
        Fail(ResultContractFailure, FromParticipant, id, Some(index), InvalidResultError(result));
        return false;
      }
      if result.outcome.Succeeded? {
        return true;
      }
      if result.outcome.Disabled? {
        if participant.requirement == Optional {
          return true;
        }
        Fail(ResultContractFailure, FromParticipant, id, Some(index), RequiredDisabled);
        return false;
      }
      if participant.requirement == Required {
        Fail(ParticipantFailure, FromParticipant, id, Some(index), Reported(result.code));
        return false;
      }
      status.value := status.value.(health := Degraded);
      report.AddOptionalFailure(
        FailureRecord(ParticipantFailure, FromParticipant, status.value.phase, id, Some(index), Reported(result.code)));
      return true;
    }

    method CallSpecial(action: Action, source: FailureSource, callee: Callee, answers: Answers) returns (ok: bool)
      requires Valid() && report.fatal.None?
      modifies this, status, report, report.records
      ensures Valid() && coordinator == old(coordinator)
      ensures State() == StartupModel.CallSpecial(action, source, callee, answers, old(State()))
      ensures ok == report.fatal.None?
      ensures ok ==> startInProgress == old(startInProgress) && report.complete == old(report.complete)
      ensures !ok ==> report.complete && !startInProgress && report.finalStatus == status.value
    {
      hide IsValidResult;
      var result := answers(callee);
      trace := trace + [callee];
      if !IsValidResult(result) {
        Fail(ResultContractFailure, source, action.id, None, InvalidResultError(result));
        return false;
      }
      if result.outcome.Succeeded? {
        return true;
      }
      if result.outcome.Failed? {
        Fail(ParticipantFailure, source, action.id, None, Reported(result.code));
        return false;
      }
      Fail(ResultContractFailure, source, action.id, None, SpecialDisabled);
      return false;
    }

    /** One pass over the plan for one phase. */
    method ExecutePhase(phase: Phase, answers: Answers) returns (ok: bool)
      requires Valid() && report.fatal.None?
      modifies this, status, report, report.records
      ensures Valid() && coordinator == old(coordinator)
      ensures State() == StartupModel.ExecutePhase(plan, answers, old(State()), phase)
      ensures ok == report.fatal.None?
      ensures ok ==> startInProgress == old(startInProgress) && report.complete == old(report.complete)
      ensures !ok ==> report.complete && !startInProgress && report.finalStatus == status.value
    {
      hide StartupModel.CallParticipant;
      status.value := status.value.(phase := phase);
      ghost var whole := PhasePass(plan, answers, State(), phase, 0);
      for index := 0 to |plan.participants|
        invariant Valid() && report.fatal.None? && coordinator == old(coordinator)
        invariant startInProgress == old(startInProgress) && report.complete == old(report.complete)
        invariant whole == PhasePass(plan, answers, State(), phase, index)
      {
        if plan.participants[index].phase == phase {
          var going := CallParticipant(index, answers);
          if !going {
            return false;
          }
        }
      }
      return true;
    }

    method ExecuteSafetyGate(answers: Answers) returns (ok: bool)
      requires Valid() && report.fatal.None?
      modifies this, status, report, report.records
      ensures Valid() && coordinator == old(coordinator)
      ensures State() == ExecuteGate(plan, answers, old(State()))
      ensures ok == report.fatal.None?
      ensures ok ==> startInProgress == old(startInProgress) && report.complete == old(report.complete)
      ensures !ok ==> report.complete && !startInProgress && report.finalStatus == status.value
    {
      hide SpecialVerdict;
      status.value := status.value.(phase := SafetyValidation);
      ok := CallSpecial(plan.safetyGate, FromSafetyGate, Gate, answers);
      if !ok {
        return false;
      }
      status.value := status.value.(safety := Clear);
      return true;
    }

    method FinishSuccess()
      requires Valid() && report.fatal.None?
      modifies this, status, report
      ensures Valid() && State() == StartupModel.FinishSuccess(old(State())) && coordinator == old(coordinator)
      ensures report.complete && !startInProgress && report.finalStatus == status.value
    {
      status.value := status.value.(phase := RunningPhase);
      status.value := status.value.(operational := Running);
      status.value := status.value.(safety := Clear);
      report.finalStatus, report.complete := status.value, true;
      startInProgress := false;
    }

    /** The eight passes in order, each only if nothing has failed. */
    method ExecutePasses(answers: Answers)
      requires Valid() && report.fatal.None?
      modifies this, status, report, report.records
      ensures Valid() && coordinator == old(coordinator)
      ensures State() == StartupModel.ExecutePasses(plan, answers, old(State()))
      ensures report.complete && !startInProgress && report.finalStatus == status.value
    {
      hide StartupModel.ExecutePhase, ExecuteGate, StartupModel.FinishSuccess;
      ghost var p := State();
      FatalStays(answers);
      var ok := ExecutePhase(Boot, answers);
      if ok { ok := ExecutePhase(CoreInit, answers); }
      if ok { ok := ExecutePhase(LoadValidateConfig, answers); }
      if ok { ok := ExecutePhase(HardwareInit, answers); }
      if ok { ok := ExecutePhase(DomainInit, answers); }
      if ok { ok := ExecuteSafetyGate(answers); }
      if ok { ok := ExecutePhase(NetworkInit, answers); }
      if ok { ok := ExecutePhase(InterfacesInit, answers); }
      if ok { FinishSuccess(); }
    }

    lemma FatalStays(answers: Answers)
      ensures forall p: Progress, phase :: p.fatal.Some? ==> StartupModel.ExecutePhase(plan, answers, p, phase) == p
      ensures forall p: Progress :: p.fatal.Some? ==> ExecuteGate(plan, answers, p) == p
      ensures forall p: Progress :: p.fatal.Some? ==> StartupModel.FinishSuccess(p) == p
    {
    }

    /** One-shot: a second start, or one while starting, changes nothing. */
    method Start(answers: Answers)
      requires Valid()
      requires !report.complete && !startInProgress ==> State() == FRESH
      modifies this, status, report, report.records
      ensures Valid() && coordinator == old(coordinator)
      ensures old(report.complete || startInProgress) ==>
                State() == old(State()) && report.complete == old(report.complete)
                  && startInProgress == old(startInProgress)
      ensures !old(report.complete || startInProgress) ==>
                && State() == StartupModel.Start(plan, answers)
                && report.complete && report.finalStatus == status.value && !startInProgress
    {
      hide StartupModel.ExecutePasses, StartupModel.CallSpecial, PlanError;
      if report.complete || startInProgress {
        return;
      }
      startInProgress := true;
      status.value := PRE_START;
      if !plan.earlySafeOutputs.hasCallback {
        FailPlan(PlanFailure(FromEarlySafeOutputs, IdOrNone(plan.earlySafeOutputs), None, CallbackMissing));
        return;
      }
      if !HasId(plan.earlySafeOutputs) {
        FailPlan(PlanFailure(FromEarlySafeOutputs, None, None, ParticipantIdMissing));
        return;
      }
      var ok := CallSpecial(plan.earlySafeOutputs, FromEarlySafeOutputs, Early, answers);
      if !ok {
        return;
      }
      SpecialKeepsPhase(answers);
      ok := ValidateFullPlan();
      if !ok {
        return;
      }
      ExecutePasses(answers);
    }

    lemma SpecialKeepsPhase(answers: Answers)
      ensures CallEarly(plan, answers).status.phase == Boot
    {
    }

    // ---------------------------------------------------------- after startup

    /** The runtime as the state machine of RuntimeState sees it. */
    function After(): Runtime
      reads this, status, report, coordinator
    {
      Runtime(status.value, report.complete, report.fatal.Some?, coordinator != null,
              if coordinator != null then coordinator.listsValid else false,
              if coordinator != null then coordinator.runtimeFailureLatched else false)
    }

    ghost predicate Owned()
      reads this, coordinator
    {
      coordinator != null ==> coordinator.Valid() && coordinator.active && coordinator.status == status
    }

    method HandoffRuntimeState(c: RuntimeStateCoordinator, contributions: Contributions) returns (ok: bool)
      requires Owned() && c.Valid()
      modifies this, status, c
      ensures Owned()
      ensures var before := old(After());
              var r := if before.handedOff then before else before.(listsValid := c.listsValid);
              var out := Handoff(r, !old(c.active), contributions);
              && ok == out.1 && status.value == out.0.status && (coordinator != null) == out.0.handedOff
              && (ok ==> coordinator == c && After() == out.0)
    {
      hide Activation;
      if
        || coordinator != null
        || !report.complete
        || report.fatal.Some?
        || status.value.operational != Running
        || status.value.phase != RunningPhase
      {
        return false;
      }
      var activated := c.Activate(status, contributions);
      if !activated {
        status.value := status.value.(operational := Error, health := Fault, safety := Locked);
        return false;
      }
      coordinator := c;
      return true;
    }

    method RequestMaintenanceTransition(request: TransitionRequest, answer: ParticipantResult)
      returns (outcome: TransitionOutcome)
      requires Owned()
      modifies status, coordinator
      ensures Owned() && coordinator == old(coordinator)
      ensures (After(), outcome) == RequestTransition(old(After()), request, answer)
    {
      var decision := Evaluate(status.value.operational, request);
      if decision.DecisionInvalidRequest? {
        return InvalidRequest;
      }
      if decision.DecisionInvalidState? || coordinator == null {
        return InvalidState;
      }
      if decision.DecisionAlready? {
        return AlreadyInTargetState;
      }
      match answer {
        case Prepared =>
          status.value := status.value.(operational := if request.Enter? then Maintenance else Running);
          return Completed;
        case Rejected =>
          return TransitionRejected;
        case PreparationFailed =>
          coordinator.LatchRuntimeFailure();
          status.value := status.value.(operational := Error);
          return TransitionFailed;
        case OtherResult =>
          coordinator.LatchRuntimeFailure();
          status.value := status.value.(operational := Error);
          return InvalidParticipantResult;
      }
    }
  }
}
