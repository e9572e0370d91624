/** Startup of an application: its plan, what each callback's result means, and the eight phase
    passes as functions. */
module StartupModel {
  import opened Octets

  datatype OperationalState = Booting | Running | Maintenance | Error
  datatype HealthState = Ok | Degraded | Fault | OtherHealth
  datatype SafetyState = Clear | Locked | OtherSafety

  datatype Phase =
    | Boot | CoreInit | LoadValidateConfig | HardwareInit | DomainInit | SafetyValidation
    | NetworkInit | InterfacesInit | RunningPhase | OtherPhase(code: nat)

  datatype RuntimeStatus = RuntimeStatus(
    operational: OperationalState, health: HealthState, safety: SafetyState, phase: Phase)

  const PRE_START := RuntimeStatus(Booting, Ok, Locked, Boot)

  predicate IsValidPhase(phase: Phase) {
    !phase.OtherPhase?
  }

  predicate IsOrdinaryPhase(phase: Phase) {
    phase in {Boot, CoreInit, LoadValidateConfig, HardwareInit, DomainInit, NetworkInit, InterfacesInit}
  }

  function PhaseOrder(phase: Phase): nat {
    match phase
    case Boot => 0
    case CoreInit => 1
    case LoadValidateConfig => 2
    case HardwareInit => 3
    case DomainInit => 4
    case SafetyValidation => 5
    case NetworkInit => 6
    case InterfacesInit => 7
    case RunningPhase => 8
    case OtherPhase(code) => code
  }

  // ------------------------------------------------------------ the plan

  datatype Requirement = Required | Optional | OtherRequirement

  /** A callback with its name; a missing name or callback is None. */
  datatype Action = Action(id: Option<string>, hasCallback: bool)

  datatype Participant = Participant(action: Action, phase: Phase, requirement: Requirement)

  datatype Plan = Plan(
    earlySafeOutputs: Action,
    safetyGate: Action,
    participants: seq<Participant>,
    // The participant array is given exactly when there are participants.
    participantStorageMatches: bool,
    failureCapacity: nat,
    // The failure array is given exactly when its capacity is not zero.
    failureStorageMatches: bool)

  predicate HasId(a: Action) {
    a.id.Some? && a.id.value != ""
  }

  function IdOrNone(a: Action): Option<string> {
    if HasId(a) then a.id else None
  }

  // ------------------------------------------------------------ results and failures

  datatype StepOutcome = Succeeded | Disabled | Failed | OtherOutcome

  datatype ErrorCode = ErrorCode(owner: Option<string>, local: Option<string>)

  datatype StepResult = StepResult(outcome: StepOutcome, code: ErrorCode)

  predicate IsUppercase(c: char) {
    'A' <= c <= 'Z'
  }

  predicate IsTokenTail(c: char) {
    IsUppercase(c) || '0' <= c <= '9' || c == '_'
  }

  predicate IsLocalCodeValid(text: string) {
    text != "" && IsUppercase(text[0]) && forall i :: 1 <= i < |text| ==> IsTokenTail(text[i])
  }

  /** Dot-separated segments, each a capital followed by capitals, digits and underscores. */
  predicate IsNamespaceValid(text: string) {
    text != "" && text[|text| - 1] != '.' && forall i :: 0 <= i < |text| ==> SegmentCharacter(text, i)
  }

  predicate SegmentCharacter(text: string, i: nat)
    requires i < |text|
  {
    if i == 0 || text[i - 1] == '.' then IsUppercase(text[i]) else text[i] == '.' || IsTokenTail(text[i])
  }

  /** The scan with its segment-start flag accepts exactly the well-formed namespaces. */
  method CheckNamespace(text: string) returns (ok: bool)
    ensures ok == IsNamespaceValid(text)
  {
    if text == "" {
      return false;
    }
    var expectsSegmentStart := true;
    for index := 0 to |text|
      invariant expectsSegmentStart <==> index == 0 || text[index - 1] == '.'
      invariant forall i :: 0 <= i < index ==> SegmentCharacter(text, i)
    {
      var current := text[index];
      if expectsSegmentStart {
        if !IsUppercase(current) {
          assert !SegmentCharacter(text, index);
          return false;
        }
        expectsSegmentStart := false;
      } else if current == '.' {
        expectsSegmentStart := true;
      } else if !IsTokenTail(current) {
        assert !SegmentCharacter(text, index);
        return false;
      }
    }
    return !expectsSegmentStart;
  }

  predicate HasCode(code: ErrorCode) {
    code.owner.Some? || code.local.Some?
  }

  predicate IsValidCode(code: ErrorCode) {
    code.owner.Some? && IsNamespaceValid(code.owner.value) && code.local.Some? && IsLocalCodeValid(code.local.value)
  }

  predicate IsValidResult(r: StepResult) {
    match r.outcome
    case Succeeded => !HasCode(r.code)
    case Disabled => !HasCode(r.code)
    case Failed => HasCode(r.code) && IsValidCode(r.code)
    case OtherOutcome => false
  }

  datatype FailureKind = ParticipantFailure | PlanContractFailure | ResultContractFailure
  datatype FailureSource = FromPlan | FromEarlySafeOutputs | FromParticipant | FromSafetyGate

  datatype Reason =
    | ParticipantStorageInvalid | ReportStorageInvalid | CallbackMissing | ParticipantIdMissing
    | ParticipantIdDuplicate | PhaseInvalid | PhaseNotAllowed | PhaseOrderInvalid | RequirementInvalid
    | OutcomeInvalid | ErrorCodeMissing | ErrorCodeInvalid | ErrorCodeUnexpected | RequiredDisabled
    | SpecialDisabled | Reported(code: ErrorCode)

  datatype FailureRecord = FailureRecord(
    kind: FailureKind, source: FailureSource, phase: Phase, id: Option<string>, index: Option<nat>, reason: Reason)

  function InvalidResultError(r: StepResult): Reason {
    match r.outcome
    case Failed => if HasCode(r.code) then ErrorCodeInvalid else ErrorCodeMissing
    case Succeeded => ErrorCodeUnexpected
    case Disabled => ErrorCodeUnexpected
    case OtherOutcome => OutcomeInvalid
  }

  // ------------------------------------------------------------ one callback

  datatype Callee = Early | Gate | Part(index: nat)

  /** What a callback answers when it is called. */
  type Answers = Callee -> StepResult

  datatype Verdict = Go | Tolerated(code: ErrorCode) | Fatal(kind: FailureKind, reason: Reason)

  function ParticipantVerdict(requirement: Requirement, r: StepResult): Verdict {
    if !IsValidResult(r) then Fatal(ResultContractFailure, InvalidResultError(r))
    else if r.outcome.Succeeded? then Go
    else if r.outcome.Disabled? then
      if requirement == Optional then Go else Fatal(ResultContractFailure, RequiredDisabled)
    else if requirement == Required then Fatal(ParticipantFailure, Reported(r.code))
    else Tolerated(r.code)
  }

  function SpecialVerdict(r: StepResult): Verdict {
    if !IsValidResult(r) then Fatal(ResultContractFailure, InvalidResultError(r))
    else if r.outcome.Succeeded? then Go
    else if r.outcome.Failed? then Fatal(ParticipantFailure, Reported(r.code))
    else Fatal(ResultContractFailure, SpecialDisabled)
  }

  /** Where startup stands: the status, every optional failure so far, the fatal one, and the
      callbacks made. */
  datatype Progress = Progress(
    status: RuntimeStatus, failures: seq<FailureRecord>, fatal: Option<FailureRecord>, trace: seq<Callee>)

  function FailWith(p: Progress, failure: FailureRecord): Progress {
    p.(status := p.status.(operational := Error, health := Fault, safety := Locked), fatal := Some(failure))
  }

  function InPhase(p: Progress, phase: Phase): Progress {
    p.(status := p.status.(phase := phase))
  }

  function CallParticipant(plan: Plan, answers: Answers, p: Progress, index: nat): Progress
    requires index < |plan.participants|
  {
    var participant := plan.participants[index];
    var q := p.(trace := p.trace + [Part(index)]);
    match ParticipantVerdict(participant.requirement, answers(Part(index)))
    case Go => q
    case Tolerated(code) =>
      q.(status := q.status.(health := Degraded),
         failures := q.failures + [FailureRecord(ParticipantFailure, FromParticipant, q.status.phase,
                                                 participant.action.id, Some(index), Reported(code))])
    case Fatal(kind, reason) =>
      FailWith(q, FailureRecord(kind, FromParticipant, q.status.phase, participant.action.id, Some(index), reason))
  }

  function CallSpecial(action: Action, source: FailureSource, callee: Callee, answers: Answers, p: Progress): Progress {
    var q := p.(trace := p.trace + [callee]);
    match SpecialVerdict(answers(callee))
    case Fatal(kind, reason) => FailWith(q, FailureRecord(kind, source, q.status.phase, action.id, None, reason))
    case _ => q
  }

  function CallGate(plan: Plan, answers: Answers, p: Progress): Progress {
    var q := CallSpecial(plan.safetyGate, FromSafetyGate, Gate, answers, InPhase(p, SafetyValidation));
    if q.fatal.Some? then q else q.(status := q.status.(safety := Clear))
  }

  // ------------------------------------------------------------ validation

  function PlanFailure(source: FailureSource, id: Option<string>, index: Option<nat>, reason: Reason): FailureRecord {
    FailureRecord(PlanContractFailure, source, Boot, id, index, reason)
  }

  function EarlyError(plan: Plan): Option<FailureRecord> {
    if !plan.earlySafeOutputs.hasCallback then
      Some(PlanFailure(FromEarlySafeOutputs, IdOrNone(plan.earlySafeOutputs), None, CallbackMissing))
    else if !HasId(plan.earlySafeOutputs) then
      Some(PlanFailure(FromEarlySafeOutputs, None, None, ParticipantIdMissing))
    else None
  }

  predicate IdUsedBefore(plan: Plan, index: nat)
    requires index < |plan.participants|
  {
    exists k :: 0 <= k < index && plan.participants[k].action.id == plan.participants[index].action.id
  }

  /** The first complaint about one participant. */
  function ParticipantError(plan: Plan, index: nat): Option<FailureRecord>
    requires index < |plan.participants|
  {
    var p := plan.participants[index];
    if !p.action.hasCallback then Some(PlanFailure(FromParticipant, IdOrNone(p.action), Some(index), CallbackMissing))
    else if !HasId(p.action) then Some(PlanFailure(FromParticipant, None, Some(index), ParticipantIdMissing))
    else
      var complaint := (reason: Reason) => Some(PlanFailure(FromParticipant, p.action.id, Some(index), reason));
      if !IsValidPhase(p.phase) then complaint(PhaseInvalid)
      else if !IsOrdinaryPhase(p.phase) then complaint(PhaseNotAllowed)
      else if p.requirement.OtherRequirement? then complaint(RequirementInvalid)
      else if p.phase in {NetworkInit, InterfacesInit} && p.requirement != Optional then complaint(PhaseNotAllowed)
      else if index > 0 && PhaseOrder(p.phase) < PhaseOrder(plan.participants[index - 1].phase) then
        complaint(PhaseOrderInvalid)
      else if p.action.id == plan.earlySafeOutputs.id || p.action.id == plan.safetyGate.id then
        complaint(ParticipantIdDuplicate)
      else if IdUsedBefore(plan, index) then complaint(ParticipantIdDuplicate)
      else None
  }

  /** The first complaint about the participants from `from` on. */
  function ParticipantsError(plan: Plan, from: nat): Option<FailureRecord>
    requires from <= |plan.participants|
    decreases |plan.participants| - from
  {
    if from == |plan.participants| then None
    else if ParticipantError(plan, from).Some? then ParticipantError(plan, from)
    else ParticipantsError(plan, from + 1)
  }

  function PlanError(plan: Plan): Option<FailureRecord> {
    if !plan.failureStorageMatches then Some(PlanFailure(FromPlan, None, None, ReportStorageInvalid))
    else if !plan.safetyGate.hasCallback then
      Some(PlanFailure(FromSafetyGate, IdOrNone(plan.safetyGate), None, CallbackMissing))
    else if !HasId(plan.safetyGate) then Some(PlanFailure(FromSafetyGate, None, None, ParticipantIdMissing))
    else if !plan.participantStorageMatches then Some(PlanFailure(FromPlan, None, None, ParticipantStorageInvalid))
    else if plan.earlySafeOutputs.id == plan.safetyGate.id then
      Some(PlanFailure(FromSafetyGate, plan.safetyGate.id, None, ParticipantIdDuplicate))
    else ParticipantsError(plan, 0)
  }

  // ------------------------------------------------------------ the passes

  /** One pass over all participants that calls those of `phase`, from `from` on. */
  function PhasePass(plan: Plan, answers: Answers, p: Progress, phase: Phase, from: nat): Progress
    requires from <= |plan.participants|
    decreases |plan.participants| - from
  {
    if p.fatal.Some? || from == |plan.participants| then p
    else if plan.participants[from].phase != phase then PhasePass(plan, answers, p, phase, from + 1)
    else PhasePass(plan, answers, CallParticipant(plan, answers, p, from), phase, from + 1)
  }

  /** The next pass, unless startup has failed. */
  function ExecutePhase(plan: Plan, answers: Answers, p: Progress, phase: Phase): Progress {
    if p.fatal.Some? then p else PhasePass(plan, answers, InPhase(p, phase), phase, 0)
  }

  function ExecuteGate(plan: Plan, answers: Answers, p: Progress): Progress {
    if p.fatal.Some? then p else CallGate(plan, answers, p)
  }

  function FinishSuccess(p: Progress): Progress {
    if p.fatal.Some? then p
    else p.(status := p.status.(phase := RunningPhase, operational := Running, safety := Clear))
  }

  const FRESH := Progress(PRE_START, [], None, [])

  /** The passes before the gate, the gate, and the passes after it. */
  function ExecutePasses(plan: Plan, answers: Answers, p: Progress): Progress {
    var p1 := ExecutePhase(plan, answers, p, Boot);
    var p2 := ExecutePhase(plan, answers, p1, CoreInit);
    var p3 := ExecutePhase(plan, answers, p2, LoadValidateConfig);
    var p4 := ExecutePhase(plan, answers, p3, HardwareInit);
    var p5 := ExecutePhase(plan, answers, p4, DomainInit);
    var p6 := ExecuteGate(plan, answers, p5);
    var p7 := ExecutePhase(plan, answers, p6, NetworkInit);
    FinishSuccess(ExecutePhase(plan, answers, p7, InterfacesInit))
  }

  function CallEarly(plan: Plan, answers: Answers): Progress {
    CallSpecial(plan.earlySafeOutputs, FromEarlySafeOutputs, Early, answers, FRESH)
  }

  function Start(plan: Plan, answers: Answers): Progress {
    if EarlyError(plan).Some? then FailWith(FRESH, EarlyError(plan).value)
    else
      var early := CallEarly(plan, answers);
      if early.fatal.Some? then early
      else if PlanError(plan).Some? then FailWith(early, PlanError(plan).value)
      else ExecutePasses(plan, answers, early)
  }
}
