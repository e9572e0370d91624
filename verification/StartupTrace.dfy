/** What every startup guarantees: which callbacks run, what is counted, and where it ends. */
module StartupTrace {
  import opened Octets
  import opened RuntimeState
  import opened StartupModel
  import opened StartupTheorems

  // ------------------------------------------------------------ which results stop a startup

  predicate Token(text: string) {
    && text != "" && 'A' <= text[0] <= 'Z'
    && forall i :: 1 <= i < |text| ==> 'A' <= text[i] <= 'Z' || '0' <= text[i] <= '9' || text[i] == '_'
  }

  function Dotted(tokens: seq<string>): string
    requires tokens != []
  {
    if |tokens| == 1 then tokens[0] else tokens[0] + "." + Dotted(tokens[1..])
  }

  predicate Tokens(tokens: seq<string>) {
    tokens != [] && forall i :: 0 <= i < |tokens| ==> Token(tokens[i])
  }

  /** A failure says who failed, as tokens joined by dots, and how, as a token. */
  ghost predicate NamesError(code: ErrorCode) {
    && code.owner.Some? && (exists tokens :: Tokens(tokens) && code.owner.value == Dotted(tokens))
    && code.local.Some? && Token(code.local.value)
  }

  /** A callback keeps its contract: success and disabled come without a code, failure with one. */
  ghost predicate Sound(r: StepResult) {
    || (r.outcome in {Succeeded, Disabled} && r.code == ErrorCode(None, None))
    || (r.outcome == Failed && NamesError(r.code))
  }

  /** The results at which startup ends: of a special callback everything but a plain success; of a
      participant a broken contract, and of a required one everything but success. */
  ghost predicate Stops(plan: Plan, c: Callee, r: StepResult)
    requires c.Part? ==> c.index < |plan.participants|
  {
    if c.Part? then
      var requirement := plan.participants[c.index].requirement;
      !Sound(r) || (r.outcome == Disabled && requirement != Optional)
        || (r.outcome == Failed && requirement == Required)
    else r != StepResult(Succeeded, ErrorCode(None, None))
  }

  /** The failures that startup only counts: those of participants that are not required. */
  ghost predicate Excused(plan: Plan, c: Callee, r: StepResult)
    requires c.Part? ==> c.index < |plan.participants|
  {
    c.Part? && plan.participants[c.index].requirement != Required && r.outcome == Failed && NamesError(r.code)
  }

  lemma {:induction false} DottedIsNamespace(tokens: seq<string>)
    requires Tokens(tokens)
    ensures IsNamespaceValid(Dotted(tokens)) && IsUppercase(Dotted(tokens)[0])
    decreases |tokens|
  {
    var text := Dotted(tokens);
    if |tokens| > 1 {
      var rest := tokens[1..];
      assert forall i :: 0 <= i < |rest| ==> rest[i] == tokens[i + 1];
      DottedIsNamespace(rest);
      var n := |tokens[0]|;
      assert Token(tokens[0]);
      forall i | 0 <= i < |text| ensures SegmentCharacter(text, i) {
        if i > n {
          assert SegmentCharacter(Dotted(rest), i - n - 1);
          assert text[i] == Dotted(rest)[i - n - 1] && (i > n + 1 ==> text[i - 1] == Dotted(rest)[i - n - 2]);
        }
      }
      assert text[|text| - 1] == Dotted(rest)[|Dotted(rest)| - 1];
    } else {
      assert Token(tokens[0]);
      forall i | 0 <= i < |text| ensures SegmentCharacter(text, i) {
        assert i > 0 ==> text[i - 1] != '.';
      }
    }
  }

  /** Where the first segment ends. */
  function FirstDot(text: string, from: nat): (k: nat)
    requires from <= |text|
    ensures from <= k <= |text| && (k < |text| ==> text[k] == '.') && forall i :: from <= i < k ==> text[i] != '.'
    decreases |text| - from
  {
    if from == |text| || text[from] == '.' then from else FirstDot(text, from + 1)
  }

  lemma {:induction false} NamespaceIsDotted(text: string) returns (tokens: seq<string>)
    requires IsNamespaceValid(text)
    ensures Tokens(tokens) && text == Dotted(tokens)
    decreases |text|
  {
    var k := FirstDot(text, 0);
    assert SegmentCharacter(text, 0);
    forall i | 1 <= i < k ensures IsTokenTail(text[i]) {
      assert SegmentCharacter(text, i) && text[i - 1] != '.';
    }
    assert Token(text[..k]);
    if k == |text| {
      assert text[..k] == text;
      tokens := [text];
    } else {
      var rest := text[k + 1..];
      forall i | 0 <= i < |rest| ensures SegmentCharacter(rest, i) {
        assert SegmentCharacter(text, i + k + 1) && rest[i] == text[i + k + 1];
      }
      var more := NamespaceIsDotted(rest);
      tokens := [text[..k]] + more;
      assert tokens[1..] == more && text == text[..k] + "." + rest;
    }
  }

  /** The scan of the code accepts exactly these codes. */
  lemma CodeExact(code: ErrorCode)
    ensures IsValidCode(code) <==> NamesError(code)
    ensures NamesError(code) ==> HasCode(code)
  {
    hide IsNamespaceValid;
    if code.owner.Some? {
      if IsNamespaceValid(code.owner.value) {
        var tokens := NamespaceIsDotted(code.owner.value);
      }
      forall tokens | Tokens(tokens) && code.owner.value == Dotted(tokens) ensures IsNamespaceValid(code.owner.value) {
        DottedIsNamespace(tokens);
      }
    }
  }

  function VerdictOf(plan: Plan, answers: Answers, c: Callee): Verdict
    requires c.Part? ==> c.index < |plan.participants|
  {
    if c.Part? then ParticipantVerdict(plan.participants[c.index].requirement, answers(c))
    else SpecialVerdict(answers(c))
  }

  /** What each result means for the startup. */
  lemma VerdictExact(plan: Plan, answers: Answers, c: Callee)
    requires c.Part? ==> c.index < |plan.participants|
    ensures var r, v := answers(c), VerdictOf(plan, answers, c);
            && (v.Fatal? <==> Stops(plan, c, r))
            && (v.Tolerated? && c.Part? <==> Excused(plan, c, r))
            && (v.Tolerated? ==> v.code == r.code && c.Part?)
  {
    hide IsValidCode, NamesError;
    CodeExact(answers(c).code);
    ResultParts(answers(c));
  }

  /** What the record of a result that stopped startup says. */
  ghost function Complaint(plan: Plan, c: Callee, r: StepResult): FailureRecord
    requires c.Part? ==> c.index < |plan.participants|
  {
    var reported := r.outcome == Failed && NamesError(r.code);
    var reason :=
      if reported then Reported(r.code)
      else if r.outcome == Failed then if r.code == ErrorCode(None, None) then ErrorCodeMissing else ErrorCodeInvalid
      else if r.outcome == OtherOutcome then OutcomeInvalid
      else if r.code != ErrorCode(None, None) then ErrorCodeUnexpected
      else if c.Part? then RequiredDisabled
      else SpecialDisabled;
    var kind := if reported then ParticipantFailure else ResultContractFailure;
    match c
    case Early => FailureRecord(kind, FromEarlySafeOutputs, Boot, plan.earlySafeOutputs.id, None, reason)
    case Gate => FailureRecord(kind, FromSafetyGate, SafetyValidation, plan.safetyGate.id, None, reason)
    case Part(i) =>
      FailureRecord(kind, FromParticipant, plan.participants[i].phase, plan.participants[i].action.id, Some(i), reason)
  }

  lemma CallComplains(plan: Plan, answers: Answers, p: Progress, c: Callee)
    requires c.Part? ==> c.index < |plan.participants|
    requires p.fatal.None? && (c == Early ==> p.status.phase == Boot)
    ensures var q := Call(plan, answers, p, c);
            q.fatal.Some? ==> q.fatal == Some(Complaint(plan, c, answers(c)))
  {
    hide IsValidCode, NamesError;
    CodeExact(answers(c).code);
    ResultParts(answers(c));
  }

  lemma ResultParts(r: StepResult)
    ensures r == StepResult(Succeeded, ErrorCode(None, None)) <==>
              r.outcome == Succeeded && r.code.owner == None && r.code.local == None
    ensures HasCode(r.code) <==> r.code != ErrorCode(None, None)
  {
  }

  /** The callbacks up to and including the first fatal one. */
  ghost function UntilFatal(plan: Plan, answers: Answers, callees: seq<Callee>): seq<Callee>
    requires Callable(plan, callees)
  {
    if callees == [] then []
    else if Stops(plan, callees[0], answers(callees[0])) then [callees[0]]
    else [callees[0]] + UntilFatal(plan, answers, callees[1..])
  }

  ghost predicate NoneFatal(plan: Plan, answers: Answers, callees: seq<Callee>)
    requires Callable(plan, callees)
  {
    forall i :: 0 <= i < |callees| ==> !Stops(plan, callees[i], answers(callees[i]))
  }

  /** The records of the optional failures among some callbacks, in their order. */
  ghost function Tolerances(plan: Plan, answers: Answers, callees: seq<Callee>): seq<FailureRecord>
    requires Callable(plan, callees)
  {
    if callees == [] then []
    else
      var c := callees[0];
      var rest := Tolerances(plan, answers, callees[1..]);
      if Excused(plan, c, answers(c)) then
        var p := plan.participants[c.index];
        var reason := Reported(answers(c).code);
        [FailureRecord(ParticipantFailure, FromParticipant, p.phase, p.action.id, Some(c.index), reason)] + rest
      else rest
  }

  // ------------------------------------------------------------ one call

  lemma SpecialNeverTolerated(r: StepResult)
    ensures !SpecialVerdict(r).Tolerated?
  {
  }

  /** Exactly what one callback adds. */
  lemma CallEffect(plan: Plan, answers: Answers, p: Progress, c: Callee)
    requires c.Part? ==> c.index < |plan.participants|
    requires p.fatal.None?
    ensures var q := Call(plan, answers, p, c);
            && q.trace == p.trace + [c]
            && (q.fatal.Some? <==> Stops(plan, c, answers(c)))
            && q.failures == p.failures + Tolerances(plan, answers, [c])
            && (q.fatal.Some? ==>
                q.status.operational == Error && q.status.health == Fault && q.status.safety == Locked)
            && (q.fatal.None? ==>
                  && q.status.operational == p.status.operational
                  && q.status.safety == (if c == Gate then Clear else p.status.safety)
                  && q.status.health == (if Excused(plan, c, answers(c)) then Degraded else p.status.health))
  {
    hide Stops, Excused, IsValidResult, InvalidResultError;
    VerdictExact(plan, answers, c);
    SpecialNeverTolerated(answers(c));
    assert Tolerances(plan, answers, [c][1..]) == [];
  }

  // ------------------------------------------------------------ the walk

  lemma TolerancesConcat(plan: Plan, answers: Answers, c: Callee, rest: seq<Callee>)
    requires Callable(plan, [c] + rest)
    ensures Callable(plan, rest) && Callable(plan, [c])
    ensures Tolerances(plan, answers, [c] + rest) == Tolerances(plan, answers, [c]) + Tolerances(plan, answers, rest)
  {
    assert ([c] + rest)[1..] == rest && [c][1..] == [];
    assert forall i :: 0 <= i < |rest| ==> rest[i] == ([c] + rest)[i + 1];
    assert c == ([c] + rest)[0];
  }

  lemma {:induction false} UntilFatalCallable(plan: Plan, answers: Answers, callees: seq<Callee>)
    requires Callable(plan, callees)
    ensures var t := UntilFatal(plan, answers, callees);
            && Callable(plan, t) && t <= callees
            && (NoneFatal(plan, answers, callees) <==> t == callees && NoneFatal(plan, answers, t))
  {
    if callees != [] {
      UntilFatalCallable(plan, answers, callees[1..]);
      var rest := callees[1..];
      assert callees == [callees[0]] + rest;
      assert forall i :: 0 <= i < |rest| ==> rest[i] == callees[i + 1];
      assert NoneFatal(plan, answers, callees) <==>
             !Stops(plan, callees[0], answers(callees[0])) && NoneFatal(plan, answers, rest) by {
        NoneFatalSplit(plan, answers, callees);
      }
    }
  }

  lemma NoneFatalSplit(plan: Plan, answers: Answers, callees: seq<Callee>)
    requires Callable(plan, callees) && callees != []
    ensures NoneFatal(plan, answers, callees) <==>
            !Stops(plan, callees[0], answers(callees[0])) && NoneFatal(plan, answers, callees[1..])
  {
    hide Stops, Excused;
    var rest := callees[1..];
    assert forall i :: 0 <= i < |rest| ==> rest[i] == callees[i + 1];
    assert forall i :: 0 < i < |callees| ==> callees[i] == rest[i - 1];
  }

  /** The walk makes exactly the callbacks up to the first fatal one, and records exactly the
      optional failures among them. */
  lemma {:induction false} WalkEffect(plan: Plan, answers: Answers, p: Progress, callees: seq<Callee>)
    requires Callable(plan, callees) && p.fatal.None?
    ensures Callable(plan, UntilFatal(plan, answers, callees))
    ensures var q := Walk(plan, answers, p, callees);
            var made := UntilFatal(plan, answers, callees);
            && q.trace == p.trace + made
            && q.failures == p.failures + Tolerances(plan, answers, made)
            && (q.fatal.None? <==> NoneFatal(plan, answers, callees))
    decreases |callees|
  {
    hide Call, Stops, Excused, Tolerances;
    UntilFatalCallable(plan, answers, callees);
    if callees != [] {
      var c, rest := callees[0], callees[1..];
      CallEffect(plan, answers, p, c);
      NoneFatalSplit(plan, answers, callees);
      if Stops(plan, c, answers(c)) {
        assert Walk(plan, answers, p, callees) == Call(plan, answers, p, c);
      } else {
        WalkEffect(plan, answers, Call(plan, answers, p, c), rest);
        assert Callable(plan, [c] + UntilFatal(plan, answers, rest));
        TolerancesConcat(plan, answers, c, UntilFatal(plan, answers, rest));
      }
    } else {
      assert Tolerances(plan, answers, []) == [] by {
        NoTolerances(plan, answers);
      }
    }
  }

  /** The failure record of a walk is that of the callback at which it stopped. */
  lemma {:induction false} WalkComplains(plan: Plan, answers: Answers, p: Progress, callees: seq<Callee>)
    requires Callable(plan, callees) && p.fatal.None?
    requires forall i :: 0 <= i < |callees| && callees[i] == Early ==> i == 0 && p.status.phase == Boot
    ensures Callable(plan, UntilFatal(plan, answers, callees))
    ensures var q := Walk(plan, answers, p, callees);
            var made := UntilFatal(plan, answers, callees);
            q.fatal.Some? ==>
              made != [] && q.fatal == Some(Complaint(plan, made[|made| - 1], answers(made[|made| - 1])))
    decreases |callees|
  {
    hide Call, Stops, Excused, Complaint;
    UntilFatalCallable(plan, answers, callees);
    if callees != [] {
      var c, rest := callees[0], callees[1..];
      CallEffect(plan, answers, p, c);
      CallComplains(plan, answers, p, c);
      if Stops(plan, c, answers(c)) {
        assert Walk(plan, answers, p, callees) == Call(plan, answers, p, c);
      } else {
        assert forall i :: 0 <= i < |rest| ==> rest[i] == callees[i + 1];
        WalkComplains(plan, answers, Call(plan, answers, p, c), rest);
      }
    }
  }

  lemma NoTolerances(plan: Plan, answers: Answers)
    ensures Tolerances(plan, answers, []) == []
  {
  }

  /** What the status says along the way. */
  predicate StatusFollows(p: Progress) {
    && (p.fatal.Some? ==> p.status.operational == Error && p.status.health == Fault && p.status.safety == Locked)
    && (p.fatal.None? ==>
          && p.status.operational == Booting
          && p.status.safety == (if Gate in p.trace then Clear else Locked)
          && p.status.health == (if p.failures == [] then Ok else Degraded))
  }

  lemma ToleratedAdds(plan: Plan, answers: Answers, c: Callee)
    requires c.Part? ==> c.index < |plan.participants|
    ensures Excused(plan, c, answers(c)) <==> Tolerances(plan, answers, [c]) != []
  {
    hide ParticipantVerdict, IsValidResult;
    SpecialNeverTolerated(answers(c));
    assert [c][1..] == [];
  }

  lemma {:induction false} StatusFollowsWalk(plan: Plan, answers: Answers, p: Progress, callees: seq<Callee>)
    requires Callable(plan, callees) && StatusFollows(p)
    ensures StatusFollows(Walk(plan, answers, p, callees))
    decreases |callees|
  {
    hide Call, Stops, Excused, Tolerances;
    if callees != [] && p.fatal.None? {
      var c := callees[0];
      CallEffect(plan, answers, p, c);
      ToleratedAdds(plan, answers, c);
      StatusFollowsWalk(plan, answers, Call(plan, answers, p, c), callees[1..]);
    }
  }

  // ------------------------------------------------------------ the whole start

  /** Everything a valid plan would call, in order. */
  function Schedule(plan: Plan): (callees: seq<Callee>)
    ensures Callable(plan, callees)
  {
    [Early] + Order(plan)
  }

  lemma OrderDistinct(plan: Plan)
    ensures forall i, j :: 0 <= i < j < |Schedule(plan)| ==> Schedule(plan)[i] != Schedule(plan)[j]
  {
    var g := Cut(plan, 5, 0);
    var s := Schedule(plan);
    assert forall i :: 0 <= i < |s| ==>
        s[i] == if i == 0 then Early else if i <= g then Part(i - 1) else if i == g + 1 then Gate else Part(i - 2);
  }

  lemma EarlyIsCall(plan: Plan, answers: Answers)
    ensures CallEarly(plan, answers) == Call(plan, answers, FRESH, Early)
  {
  }

  /** A startup on a valid plan is one walk over the schedule, the early safe outputs first. */
  lemma StartIsOneWalk(plan: Plan, answers: Answers)
    requires EarlyError(plan).None? && PlanOk(plan)
    ensures Start(plan, answers) == FinishSuccess(Walk(plan, answers, FRESH, Schedule(plan)))
  {
    hide Call, PlanOk, PlanError, ExecutePasses, Order;
    EarlyIsCall(plan, answers);
    PlanErrorExact(plan);
    var s := Schedule(plan);
    assert s[0] == Early && s[1..] == Order(plan);
    var early := CallEarly(plan, answers);
    assert Walk(plan, answers, FRESH, s) == Walk(plan, answers, early, s[1..]);
    PassesAreOneWalk(plan, answers, early);
  }

  /** Which callbacks a startup makes: none without early safe outputs; only those on an invalid
      plan; otherwise exactly the schedule up to the first fatal failure. */
  lemma StartTrace(plan: Plan, answers: Answers)
    ensures Callable(plan, UntilFatal(plan, answers, Schedule(plan)))
    ensures var p := Start(plan, answers);
            && p.trace == (if EarlyError(plan).Some? then []
                           else if !PlanOk(plan) then [Early]
                           else UntilFatal(plan, answers, Schedule(plan)))
            && (forall i, j :: 0 <= i < j < |p.trace| ==> p.trace[i] != p.trace[j])
            && (p.fatal.None? <==>
                  EarlyError(plan).None? && PlanOk(plan) && NoneFatal(plan, answers, Schedule(plan)))
  {
    hide PlanOk, PlanError, ExecutePasses, Schedule, Walk, Stops, Excused;
    PlanErrorExact(plan);
    UntilFatalCallable(plan, answers, Schedule(plan));
    OrderDistinct(plan);
    EarlyIsCall(plan, answers);
    CallEffect(plan, answers, FRESH, Early);
    if EarlyError(plan).None? && PlanOk(plan) {
      StartIsOneWalk(plan, answers);
      WalkEffect(plan, answers, FRESH, Schedule(plan));
    }
  }

  /** On a valid plan the fatal record says which callback stopped the startup, and why. */
  lemma StartComplains(plan: Plan, answers: Answers)
    requires EarlyError(plan).None? && PlanOk(plan)
    ensures Callable(plan, Start(plan, answers).trace)
    ensures var p := Start(plan, answers);
            p.fatal.Some? ==>
              p.trace != [] && p.fatal == Some(Complaint(plan, p.trace[|p.trace| - 1], answers(p.trace[|p.trace| - 1])))
  {
    hide PlanOk, PlanError, ExecutePasses, Walk, Stops, Excused, Complaint, Order;
    StartIsOneWalk(plan, answers);
    StartTrace(plan, answers);
    OrderDistinct(plan);
    assert Schedule(plan)[0] == Early;
    WalkComplains(plan, answers, FRESH, Schedule(plan));
  }

  /** The failures counted are exactly the optional failures among the callbacks made. */
  lemma StartFailures(plan: Plan, answers: Answers)
    ensures Callable(plan, Start(plan, answers).trace)
    ensures Start(plan, answers).failures == Tolerances(plan, answers, Start(plan, answers).trace)
  {
    hide PlanOk, PlanError, ExecutePasses, Schedule, Walk, Stops, Excused, Tolerances;
    PlanErrorExact(plan);
    NoTolerances(plan, answers);
    EarlyIsCall(plan, answers);
    CallEffect(plan, answers, FRESH, Early);
    if EarlyError(plan).None? && PlanOk(plan) {
      StartIsOneWalk(plan, answers);
      WalkEffect(plan, answers, FRESH, Schedule(plan));
      var made := UntilFatal(plan, answers, Schedule(plan));
      assert FRESH.trace + made == made;
      assert FRESH.failures + Tolerances(plan, answers, made) == Tolerances(plan, answers, made);
    } else {
      assert FRESH.trace + [Early] == [Early];
      assert FRESH.failures + Tolerances(plan, answers, [Early]) == Tolerances(plan, answers, [Early]);
    }
  }

  lemma FreshFollows()
    ensures StatusFollows(FRESH)
  {
  }

  /** At every point of a startup the outputs are locked unless the safety gate has been called and
      nothing has failed: after every number of callbacks of the schedule. */
  lemma LockedBeforeGate(plan: Plan, answers: Answers, k: nat)
    requires k <= |Schedule(plan)|
    ensures Callable(plan, Schedule(plan)[..k])
    ensures var p := Walk(plan, answers, FRESH, Schedule(plan)[..k]);
            p.status.safety == Clear <==> p.fatal.None? && Gate in Schedule(plan)[..k]
  {
    hide Call, Walk, Schedule, Stops, Excused, Tolerances;
    var part := Schedule(plan)[..k];
    FreshFollows();
    StatusFollowsWalk(plan, answers, FRESH, part);
    WalkEffect(plan, answers, FRESH, part);
    UntilFatalCallable(plan, answers, part);
  }

  /** How a startup ends: running and clear, degraded exactly when an optional part failed; or in
      error, faulty and locked. */
  lemma StartEnds(plan: Plan, answers: Answers)
    ensures var p := Start(plan, answers);
            p.status == (if p.fatal.Some? then RuntimeStatus(Error, Fault, Locked, p.status.phase)
                         else RuntimeStatus(Running, if p.failures == [] then Ok else Degraded, Clear, RunningPhase))
  {
    hide PlanOk, PlanError, ExecutePasses, Schedule, Walk, Stops, Excused, Tolerances;
    PlanErrorExact(plan);
    EarlyIsCall(plan, answers);
    CallEffect(plan, answers, FRESH, Early);
    if EarlyError(plan).None? && PlanOk(plan) {
      StartIsOneWalk(plan, answers);
      FreshFollows();
      StatusFollowsWalk(plan, answers, FRESH, Schedule(plan));
    }
  }

  // ------------------------------------------------------------ every state on the way

  /** The states one pass goes through: before each callback, and its result. */
  function PassStates(plan: Plan, answers: Answers, p: Progress, phase: Phase, from: nat): (states: seq<Progress>)
    requires from <= |plan.participants|
    ensures states != [] && states[|states| - 1] == PhasePass(plan, answers, p, phase, from)
    decreases |plan.participants| - from
  {
    if p.fatal.Some? || from == |plan.participants| then [p]
    else if plan.participants[from].phase != phase then PassStates(plan, answers, p, phase, from + 1)
    else [p] + PassStates(plan, answers, CallParticipant(plan, answers, p, from), phase, from + 1)
  }

  function PhaseStates(plan: Plan, answers: Answers, p: Progress, phase: Phase): (states: seq<Progress>)
    ensures states != [] && states[|states| - 1] == ExecutePhase(plan, answers, p, phase)
  {
    if p.fatal.Some? then [p] else PassStates(plan, answers, InPhase(p, phase), phase, 0)
  }

  /** The states several passes go through, one after the other. */
  function PhasesStates(plan: Plan, answers: Answers, p: Progress, phases: seq<Phase>): (states: seq<Progress>)
    ensures states != []
    decreases |phases|
  {
    if phases == [] then [p]
    else
      PhaseStates(plan, answers, p, phases[0])
      + PhasesStates(plan, answers, ExecutePhase(plan, answers, p, phases[0]), phases[1..])
  }

  function Last(states: seq<Progress>): Progress
    requires states != []
  {
    states[|states| - 1]
  }

  const BEFORE_GATE: seq<Phase> := [Boot, CoreInit, LoadValidateConfig, HardwareInit, DomainInit]
  const AFTER_GATE: seq<Phase> := [NetworkInit, InterfacesInit]

  /** Every state a startup goes through, from before its first callback to its end. */
  function StartStates(plan: Plan, answers: Answers): (states: seq<Progress>)
    ensures states != []
  {
    if EarlyError(plan).Some? then [FRESH, FailWith(FRESH, EarlyError(plan).value)]
    else
      var early := CallEarly(plan, answers);
      if early.fatal.Some? then [FRESH, early]
      else if PlanError(plan).Some? then [FRESH, early, FailWith(early, PlanError(plan).value)]
      else
        var before := PhasesStates(plan, answers, early, BEFORE_GATE);
        var gated := ExecuteGate(plan, answers, Last(before));
        var after := PhasesStates(plan, answers, gated, AFTER_GATE);
        [FRESH, early] + before + [gated] + after + [FinishSuccess(Last(after))]
  }

  lemma PhasesEnd(plan: Plan, answers: Answers, p: Progress, phases: seq<Phase>)
    ensures var last := Last(PhasesStates(plan, answers, p, phases));
            last == if phases == [] then p
                    else Last(PhasesStates(plan, answers, ExecutePhase(plan, answers, p, phases[0]), phases[1..]))
  {
    hide ExecutePhase, PhaseStates;
  }

  lemma BeforeGateEnds(plan: Plan, answers: Answers, p: Progress)
    ensures Last(PhasesStates(plan, answers, p, BEFORE_GATE)) ==
            ExecutePhase(plan, answers, ExecutePhase(plan, answers, ExecutePhase(plan, answers,
              ExecutePhase(plan, answers, ExecutePhase(plan, answers, p, Boot), CoreInit), LoadValidateConfig),
              HardwareInit), DomainInit)
  {
    hide ExecutePhase, PhasesStates;
    var p1 := ExecutePhase(plan, answers, p, Boot);
    var p2 := ExecutePhase(plan, answers, p1, CoreInit);
    var p3 := ExecutePhase(plan, answers, p2, LoadValidateConfig);
    var p4 := ExecutePhase(plan, answers, p3, HardwareInit);
    var p5 := ExecutePhase(plan, answers, p4, DomainInit);
    PhasesEnd(plan, answers, p, BEFORE_GATE);
    PhasesEnd(plan, answers, p1, BEFORE_GATE[1..]);
    PhasesEnd(plan, answers, p2, BEFORE_GATE[2..]);
    PhasesEnd(plan, answers, p3, BEFORE_GATE[3..]);
    PhasesEnd(plan, answers, p4, BEFORE_GATE[4..]);
    PhasesEnd(plan, answers, p5, []);
    assert BEFORE_GATE[1..][1..] == BEFORE_GATE[2..] && BEFORE_GATE[2..][1..] == BEFORE_GATE[3..];
    assert BEFORE_GATE[3..][1..] == BEFORE_GATE[4..] && BEFORE_GATE[4..][1..] == [];
  }

  lemma AfterGateEnds(plan: Plan, answers: Answers, p: Progress)
    ensures Last(PhasesStates(plan, answers, p, AFTER_GATE)) ==
            ExecutePhase(plan, answers, ExecutePhase(plan, answers, p, NetworkInit), InterfacesInit)
  {
    hide ExecutePhase, PhasesStates;
    var p1 := ExecutePhase(plan, answers, p, NetworkInit);
    PhasesEnd(plan, answers, p, AFTER_GATE);
    PhasesEnd(plan, answers, p1, AFTER_GATE[1..]);
    PhasesEnd(plan, answers, ExecutePhase(plan, answers, p1, InterfacesInit), []);
    assert AFTER_GATE[1..][1..] == [];
  }

  /** The outputs are unlocked exactly when the gate has been called and nothing has failed. */
  predicate SafetyFollows(answers: Answers, p: Progress) {
    && p.status.safety == (if p.fatal.None? && Gate in p.trace then Clear else Locked)
    && (p.status.safety == Clear ==> answers(Gate) == StepResult(Succeeded, ErrorCode(None, None)))
  }

  /** Whether the gate is behind us, or startup has failed. */
  predicate GatePassed(p: Progress) {
    p.fatal.None? ==> Gate in p.trace
  }

  predicate AllFollow(answers: Answers, states: seq<Progress>) {
    forall i :: 0 <= i < |states| ==> SafetyFollows(answers, states[i])
  }

  lemma CallFollows(plan: Plan, answers: Answers, p: Progress, index: nat)
    requires index < |plan.participants| && p.fatal.None? && SafetyFollows(answers, p)
    ensures var q := CallParticipant(plan, answers, p, index);
            SafetyFollows(answers, q) && (GatePassed(p) ==> GatePassed(q))
  {
    hide ParticipantVerdict;
  }

  lemma {:induction false} PassFollows(plan: Plan, answers: Answers, p: Progress, phase: Phase, from: nat)
    requires from <= |plan.participants| && SafetyFollows(answers, p)
    ensures AllFollow(answers, PassStates(plan, answers, p, phase, from))
    ensures GatePassed(p) ==> GatePassed(PhasePass(plan, answers, p, phase, from))
    decreases |plan.participants| - from
  {
    hide CallParticipant, SafetyFollows, GatePassed;
    if p.fatal.None? && from < |plan.participants| {
      if plan.participants[from].phase == phase {
        CallFollows(plan, answers, p, from);
        PassFollows(plan, answers, CallParticipant(plan, answers, p, from), phase, from + 1);
      } else {
        PassFollows(plan, answers, p, phase, from + 1);
      }
    }
  }

  lemma PhaseFollows(plan: Plan, answers: Answers, p: Progress, phase: Phase)
    requires SafetyFollows(answers, p)
    ensures AllFollow(answers, PhaseStates(plan, answers, p, phase))
    ensures GatePassed(p) ==> GatePassed(ExecutePhase(plan, answers, p, phase))
  {
    if p.fatal.None? {
      PassFollows(plan, answers, InPhase(p, phase), phase, 0);
    }
  }

  lemma {:induction false} PhasesFollow(plan: Plan, answers: Answers, p: Progress, phases: seq<Phase>)
    requires SafetyFollows(answers, p)
    ensures var states := PhasesStates(plan, answers, p, phases);
            AllFollow(answers, states) && (GatePassed(p) ==> GatePassed(Last(states)))
    decreases |phases|
  {
    hide ExecutePhase, PhaseStates, SafetyFollows, GatePassed;
    if phases != [] {
      PhaseFollows(plan, answers, p, phases[0]);
      var states := PhaseStates(plan, answers, p, phases[0]);
      assert SafetyFollows(answers, states[|states| - 1]);
      PhasesFollow(plan, answers, ExecutePhase(plan, answers, p, phases[0]), phases[1..]);
    }
  }

  lemma GateFollows(plan: Plan, answers: Answers, p: Progress)
    requires SafetyFollows(answers, p)
    ensures var q := ExecuteGate(plan, answers, p); SafetyFollows(answers, q) && GatePassed(q)
  {
    hide Stops, IsValidResult, InvalidResultError;
    VerdictExact(plan, answers, Gate);
    StopsGate(plan, answers(Gate));
  }

  lemma StopsGate(plan: Plan, r: StepResult)
    ensures Stops(plan, Gate, r) <==> r != StepResult(Succeeded, ErrorCode(None, None))
  {
  }

  lemma FinishFollows(answers: Answers, p: Progress)
    requires SafetyFollows(answers, p) && GatePassed(p)
    ensures SafetyFollows(answers, FinishSuccess(p))
  {
  }

  lemma EarlyFollows(plan: Plan, answers: Answers, failure: FailureRecord)
    ensures SafetyFollows(answers, FRESH) && SafetyFollows(answers, CallEarly(plan, answers))
    ensures SafetyFollows(answers, FailWith(FRESH, failure))
            && SafetyFollows(answers, FailWith(CallEarly(plan, answers), failure))
  {
    hide SpecialVerdict;
  }

  /** In every state of a startup, on any plan, valid or not, the outputs are locked unless the
      safety gate has been called and nothing has failed. */
  lemma LockedThroughout(plan: Plan, answers: Answers, i: nat)
    requires i < |StartStates(plan, answers)|
    ensures Last(StartStates(plan, answers)) == Start(plan, answers)
    ensures var p := StartStates(plan, answers)[i];
            && (p.status.safety == Clear <==> p.fatal.None? && Gate in p.trace)
            && (p.status.safety == Clear ==> answers(Gate) == StepResult(Succeeded, ErrorCode(None, None)))
  {
    hide CallEarly, ExecuteGate, FinishSuccess, FailWith, PhasesStates, ExecutePhase, EarlyError, PlanError,
         SafetyFollows, GatePassed;
    EarlyFollows(plan, answers, PlanFailure(FromPlan, None, None, ReportStorageInvalid));
    if EarlyError(plan).Some? {
      EarlyFollows(plan, answers, EarlyError(plan).value);
    } else if PlanError(plan).Some? {
      EarlyFollows(plan, answers, PlanError(plan).value);
    } else {
      var early := CallEarly(plan, answers);
      PhasesFollow(plan, answers, early, BEFORE_GATE);
      BeforeGateEnds(plan, answers, early);
      var before := PhasesStates(plan, answers, early, BEFORE_GATE);
      GateFollows(plan, answers, Last(before));
      var gated := ExecuteGate(plan, answers, Last(before));
      PhasesFollow(plan, answers, gated, AFTER_GATE);
      AfterGateEnds(plan, answers, gated);
      FinishFollows(answers, Last(PhasesStates(plan, answers, gated, AFTER_GATE)));
    }
    FollowsMeans(answers, StartStates(plan, answers)[i]);
  }

  lemma FollowsMeans(answers: Answers, p: Progress)
    requires SafetyFollows(answers, p)
    ensures p.status.safety == Clear <==> p.fatal.None? && Gate in p.trace
    ensures p.status.safety == Clear ==> answers(Gate) == StepResult(Succeeded, ErrorCode(None, None))
  {
  }

  /** A startup that failed stays in error, faulty and locked, whatever is asked of the runtime later. */
  lemma FailedStartStaysClosed(plan: Plan, answers: Answers, listsValid: bool, events: seq<RuntimeEvent>)
    requires Start(plan, answers).fatal.Some?
    ensures var p := Start(plan, answers);
            FailClosed(RuntimeRun(Runtime(p.status, true, true, false, listsValid, false), events))
  {
    hide Start;
    StartEnds(plan, answers);
    ClosedForever(Runtime(Start(plan, answers).status, true, true, false, listsValid, false), events);
  }
}
