/** What the eight passes amount to: one walk over the participants with the gate in its place. */
module StartupTheorems {
  import opened Octets
  import opened StartupModel

  // ------------------------------------------------------------ valid plans

  predicate SpecialOk(a: Action) {
    a.hasCallback && HasId(a)
  }

  predicate ParticipantOk(plan: Plan, p: Participant) {
    && SpecialOk(p.action)
    && IsOrdinaryPhase(p.phase)
    && !p.requirement.OtherRequirement?
    && (p.phase in {NetworkInit, InterfacesInit} ==> p.requirement == Optional)
    && p.action.id != plan.earlySafeOutputs.id && p.action.id != plan.safetyGate.id
  }

  predicate Sorted(plan: Plan) {
    forall i, j :: 0 <= i < j < |plan.participants| ==>
      PhaseOrder(plan.participants[i].phase) <= PhaseOrder(plan.participants[j].phase)
  }

  predicate DistinctIds(plan: Plan) {
    forall i, j :: 0 <= i < j < |plan.participants| ==>
      plan.participants[i].action.id != plan.participants[j].action.id
  }

  /** What a plan promises, said all at once. */
  predicate PlanOk(plan: Plan) {
    && plan.failureStorageMatches && plan.participantStorageMatches
    && SpecialOk(plan.safetyGate) && plan.earlySafeOutputs.id != plan.safetyGate.id
    && (forall i :: 0 <= i < |plan.participants| ==> ParticipantOk(plan, plan.participants[i]))
    && Sorted(plan) && DistinctIds(plan)
  }

  lemma ParticipantExact(plan: Plan, index: nat)
    requires index < |plan.participants|
    ensures ParticipantError(plan, index).None? <==>
            && ParticipantOk(plan, plan.participants[index])
            && (index > 0 ==>
                PhaseOrder(plan.participants[index - 1].phase) <= PhaseOrder(plan.participants[index].phase))
            && !IdUsedBefore(plan, index)
  {
    hide IdUsedBefore, PhaseOrder;
  }

  lemma {:induction false} NoErrorFrom(plan: Plan, from: nat)
    requires from <= |plan.participants|
    ensures ParticipantsError(plan, from).None? <==>
            forall i :: from <= i < |plan.participants| ==> ParticipantError(plan, i).None?
    decreases |plan.participants| - from
  {
    hide ParticipantError;
    if from < |plan.participants| {
      NoErrorFrom(plan, from + 1);
    }
  }

  predicate InOrder(plan: Plan, i: nat)
    requires i < |plan.participants|
  {
    i > 0 ==> PhaseOrder(plan.participants[i - 1].phase) <= PhaseOrder(plan.participants[i].phase)
  }

  lemma {:induction false} AdjacentSorted(plan: Plan, i: nat, j: nat)
    requires i < j < |plan.participants|
    requires forall k :: 0 <= k < |plan.participants| ==> InOrder(plan, k)
    ensures PhaseOrder(plan.participants[i].phase) <= PhaseOrder(plan.participants[j].phase)
    decreases j
  {
    hide PhaseOrder;
    assert InOrder(plan, j);
    if i < j - 1 {
      AdjacentSorted(plan, i, j - 1);
    }
  }

  lemma SortedExact(plan: Plan)
    ensures Sorted(plan) <==> forall i :: 0 <= i < |plan.participants| ==> InOrder(plan, i)
  {
    hide PhaseOrder;
    if forall i :: 0 <= i < |plan.participants| ==> InOrder(plan, i) {
      forall i, j | 0 <= i < j < |plan.participants|
        ensures PhaseOrder(plan.participants[i].phase) <= PhaseOrder(plan.participants[j].phase)
      {
        AdjacentSorted(plan, i, j);
      }
    }
  }

  /** Validation reports nothing exactly when the plan keeps its promises. */
  lemma PlanErrorExact(plan: Plan)
    ensures PlanError(plan).None? <==> PlanOk(plan)
  {
    hide ParticipantError, ParticipantOk, PhaseOrder, Sorted, DistinctIds, IdUsedBefore;
    NoErrorFrom(plan, 0);
    SortedExact(plan);
    IdsExact(plan);
    forall i | 0 <= i < |plan.participants|
      ensures ParticipantError(plan, i).None? <==>
              ParticipantOk(plan, plan.participants[i]) && InOrder(plan, i) && !IdUsedBefore(plan, i)
    {
      ParticipantExact(plan, i);
    }
  }

  lemma IdsExact(plan: Plan)
    ensures DistinctIds(plan) <==> forall i :: 0 <= i < |plan.participants| ==> !IdUsedBefore(plan, i)
  {
    if forall i :: 0 <= i < |plan.participants| ==> !IdUsedBefore(plan, i) {
      forall i, j | 0 <= i < j < |plan.participants|
        ensures plan.participants[i].action.id != plan.participants[j].action.id
      {
        assert !IdUsedBefore(plan, j);
      }
    }
  }

  /** The participant has the defect that the reason names. */
  predicate Defect(plan: Plan, i: nat, reason: Reason)
    requires i < |plan.participants|
  {
    var p := plan.participants[i];
    match reason
    case CallbackMissing => !p.action.hasCallback
    case ParticipantIdMissing => p.action.id == None || p.action.id == Some("")
    case PhaseInvalid => p.phase.OtherPhase?
    case PhaseNotAllowed =>
      || p.phase in {SafetyValidation, RunningPhase}
      || (p.phase in {NetworkInit, InterfacesInit} && p.requirement != Optional)
    case RequirementInvalid => p.requirement.OtherRequirement?
    case PhaseOrderInvalid => i > 0 && PhaseOrder(p.phase) < PhaseOrder(plan.participants[i - 1].phase)
    case ParticipantIdDuplicate =>
      || p.action.id in {plan.earlySafeOutputs.id, plan.safetyGate.id}
      || exists k :: 0 <= k < i && plan.participants[k].action.id == p.action.id
    case _ => false
  }

  /** The name a record carries: a missing or empty one is left out. */
  function NameOf(a: Action): Option<string> {
    if a.id == Some("") then None else a.id
  }

  /** Startup is refused before any callback exactly when the early safe outputs have no callback or no
      name, and the record says which. */
  lemma EarlyErrorExact(plan: Plan)
    ensures var a := plan.earlySafeOutputs;
            EarlyError(plan) ==
            if a.hasCallback && NameOf(a).Some? then None
            else Some(FailureRecord(PlanContractFailure, FromEarlySafeOutputs, Boot, NameOf(a), None,
                                    if a.hasCallback then ParticipantIdMissing else CallbackMissing))
  {
  }

  lemma ComplaintIsTrue(plan: Plan, i: nat)
    requires i < |plan.participants|
    ensures var e := ParticipantError(plan, i);
            e.Some? ==>
              && e.value.kind == PlanContractFailure && e.value.source == FromParticipant && e.value.phase == Boot
              && e.value.index == Some(i) && Defect(plan, i, e.value.reason)
              && e.value.id == NameOf(plan.participants[i].action)
  {
    hide PhaseOrder;
  }

  lemma {:induction false} FirstComplaint(plan: Plan, from: nat)
    requires from <= |plan.participants|
    ensures var e := ParticipantsError(plan, from);
            e.Some? ==>
              && e.value.index.Some? && from <= e.value.index.value < |plan.participants|
              && e == ParticipantError(plan, e.value.index.value)
              && forall j :: from <= j < e.value.index.value ==> ParticipantError(plan, j).None?
    decreases |plan.participants| - from
  {
    hide ParticipantError;
    if from < |plan.participants| {
      ComplaintIsTrue(plan, from);
      FirstComplaint(plan, from + 1);
    }
  }

  /** What validation reports is so: a participant it names is the first with any defect and has the
      one named; a report without a participant is about the storage or the safety gate. */
  lemma PlanComplaintIsTrue(plan: Plan)
    ensures var e := PlanError(plan);
            e.Some? ==>
              && e.value.kind == PlanContractFailure && e.value.phase == Boot
              && (e.value.source == FromSafetyGate ==> e.value.id == NameOf(plan.safetyGate))
              && (match e.value.index
                  case Some(i) =>
                    && i < |plan.participants| && e.value.source == FromParticipant && Defect(plan, i, e.value.reason)
                    && forall j :: 0 <= j < i ==> ParticipantError(plan, j).None?
                  case None =>
                    match e.value.reason
                    case ReportStorageInvalid => !plan.failureStorageMatches
                    case ParticipantStorageInvalid => !plan.participantStorageMatches
                    case CallbackMissing => e.value.source == FromSafetyGate && !plan.safetyGate.hasCallback
                    case ParticipantIdMissing =>
                      e.value.source == FromSafetyGate && plan.safetyGate.id in {None, Some("")}
                    case ParticipantIdDuplicate =>
                      e.value.source == FromSafetyGate && plan.safetyGate.id == plan.earlySafeOutputs.id
                    case _ => false)
  {
    hide ParticipantError, Defect;
    FirstComplaint(plan, 0);
    var e := ParticipantsError(plan, 0);
    if e.Some? {
      ComplaintIsTrue(plan, e.value.index.value);
    }
  }

  // ------------------------------------------------------------ the walk

  function Call(plan: Plan, answers: Answers, p: Progress, c: Callee): Progress
    requires c.Part? ==> c.index < |plan.participants|
  {
    match c
    case Early => CallSpecial(plan.earlySafeOutputs, FromEarlySafeOutputs, Early, answers, p)
    case Gate => CallGate(plan, answers, p)
    case Part(i) => CallParticipant(plan, answers, InPhase(p, plan.participants[i].phase), i)
  }

  predicate Callable(plan: Plan, callees: seq<Callee>) {
    forall i :: 0 <= i < |callees| && callees[i].Part? ==> callees[i].index < |plan.participants|
  }

  /** One pass from left to right that stops at the first fatal failure. */
  function Walk(plan: Plan, answers: Answers, p: Progress, callees: seq<Callee>): Progress
    requires Callable(plan, callees)
    decreases |callees|
  {
    if p.fatal.Some? || callees == [] then p
    else Walk(plan, answers, Call(plan, answers, p, callees[0]), callees[1..])
  }

  /** The number of participants whose phase comes before `order`. */
  function Cut(plan: Plan, order: nat, from: nat): (k: nat)
    requires from <= |plan.participants|
    ensures from <= k <= |plan.participants|
    ensures k < |plan.participants| ==> PhaseOrder(plan.participants[k].phase) >= order
    decreases |plan.participants| - from
  {
    if from < |plan.participants| && PhaseOrder(plan.participants[from].phase) < order then Cut(plan, order, from + 1)
    else from
  }

  function Parts(lo: nat, hi: nat): (callees: seq<Callee>)
    requires lo <= hi
    ensures |callees| == hi - lo
  {
    seq(hi - lo, i requires 0 <= i < hi - lo => Part(lo + i))
  }

  /** All participants in plan order, with the safety gate after the domain and before the network. */
  function Order(plan: Plan): (callees: seq<Callee>)
    ensures Callable(plan, callees)
  {
    var g := Cut(plan, 5, 0);
    Parts(0, g) + [Gate] + Parts(g, |plan.participants|)
  }

  lemma {:induction false} CutExact(plan: Plan, order: nat, from: nat)
    requires from <= |plan.participants| && Sorted(plan)
    requires forall i :: 0 <= i < from ==> PhaseOrder(plan.participants[i].phase) < order
    ensures forall i :: 0 <= i < |plan.participants| ==>
              (i < Cut(plan, order, from) <==> PhaseOrder(plan.participants[i].phase) < order)
    decreases |plan.participants| - from
  {
    hide PhaseOrder;
    if from < |plan.participants| && PhaseOrder(plan.participants[from].phase) < order {
      CutExact(plan, order, from + 1);
    }
  }

  lemma {:induction false} WalkConcat(plan: Plan, answers: Answers, p: Progress, a: seq<Callee>, b: seq<Callee>)
    requires Callable(plan, a) && Callable(plan, b)
    ensures Callable(plan, a + b)
    ensures Walk(plan, answers, p, a + b) == Walk(plan, answers, Walk(plan, answers, p, a), b)
    decreases |a|
  {
    hide Call;
    if a == [] {
      assert a + b == b;
    } else if p.fatal.None? {
      assert (a + b)[0] == a[0] && (a + b)[1..] == a[1..] + b;
      WalkConcat(plan, answers, Call(plan, answers, p, a[0]), a[1..], b);
    }
  }

  /** Equal, or equal but for the phase while nothing has failed. */
  predicate Alike(p: Progress, q: Progress) {
    p == q || (p.fatal.None? && InPhase(p, Boot) == InPhase(q, Boot))
  }

  lemma AlikePhase(p: Progress, q: Progress, phase: Phase)
    requires Alike(p, q)
    ensures p.fatal == q.fatal && InPhase(p, phase) == InPhase(q, phase)
  {
    assert p.(status := p.status.(phase := phase)) == InPhase(InPhase(p, Boot), phase);
    assert q.(status := q.status.(phase := phase)) == InPhase(InPhase(q, Boot), phase);
  }

  lemma WalkAlike(plan: Plan, answers: Answers, p: Progress, q: Progress, callees: seq<Callee>)
    requires Callable(plan, callees) && Early !in callees && Alike(p, q)
    ensures Alike(Walk(plan, answers, p, callees), Walk(plan, answers, q, callees))
  {
    hide CallParticipant, CallSpecial;
    AlikePhase(p, q, Boot);
    if callees != [] && p.fatal.None? {
      var c := callees[0];
      AlikePhase(p, q, if c.Part? then plan.participants[c.index].phase else SafetyValidation);
      assert Call(plan, answers, p, c) == Call(plan, answers, q, c);
    }
  }

  lemma {:induction false} PassSkips(plan: Plan, answers: Answers, p: Progress, phase: Phase, from: nat, end: nat)
    requires from <= end <= |plan.participants|
    requires forall i :: from <= i < end ==> plan.participants[i].phase != phase
    ensures PhasePass(plan, answers, p, phase, from) == PhasePass(plan, answers, p, phase, end)
    decreases |plan.participants| - from
  {
    hide CallParticipant;
    if from < end {
      PassSkips(plan, answers, p, phase, from + 1, end);
    }
  }

  lemma {:induction false} PassWalks(plan: Plan, answers: Answers, p: Progress, phase: Phase, lo: nat, hi: nat)
    requires lo <= hi <= |plan.participants| && p.status.phase == phase
    requires forall i :: lo <= i < hi ==> plan.participants[i].phase == phase
    requires forall i :: hi <= i < |plan.participants| ==> plan.participants[i].phase != phase
    ensures PhasePass(plan, answers, p, phase, lo) == Walk(plan, answers, p, Parts(lo, hi))
    decreases hi - lo
  {
    hide CallParticipant;
    if lo == hi {
      PassSkips(plan, answers, p, phase, lo, |plan.participants|);
    } else if p.fatal.None? {
      var next := CallParticipant(plan, answers, p, lo);
      CallKeepsPhase(plan, answers, p, lo);
      assert InPhase(p, phase) == p;
      assert Parts(lo, hi)[0] == Part(lo) && Parts(lo, hi)[1..] == Parts(lo + 1, hi);
      PassWalks(plan, answers, next, phase, lo + 1, hi);
    }
  }

  lemma CallKeepsPhase(plan: Plan, answers: Answers, p: Progress, i: nat)
    requires i < |plan.participants|
    ensures CallParticipant(plan, answers, p, i).status.phase == p.status.phase
  {
  }

  lemma PhaseOrderInjective(a: Phase, b: Phase)
    requires IsValidPhase(a) && IsValidPhase(b)
    ensures PhaseOrder(a) == PhaseOrder(b) <==> a == b
  {
  }

  /** The participants of a phase are a stretch of the plan. */
  lemma StretchExact(plan: Plan, phase: Phase)
    requires PlanOk(plan) && IsOrdinaryPhase(phase)
    ensures var lo, hi := Cut(plan, PhaseOrder(phase), 0), Cut(plan, PhaseOrder(phase) + 1, 0);
            && lo <= hi
            && (forall i :: 0 <= i < |plan.participants| ==> (plan.participants[i].phase == phase <==> lo <= i < hi))
  {
    hide PhaseOrder;
    var k := PhaseOrder(phase);
    var lo, hi := Cut(plan, k, 0), Cut(plan, k + 1, 0);
    CutExact(plan, k, 0);
    CutExact(plan, k + 1, 0);
    assert hi < |plan.participants| ==> (hi < lo <==> PhaseOrder(plan.participants[hi].phase) < k);
    forall i | 0 <= i < |plan.participants|
      ensures plan.participants[i].phase == phase <==> lo <= i < hi
    {
      PhaseOrderInjective(plan.participants[i].phase, phase);
    }
  }

  lemma InPhaseAlike(p: Progress, q: Progress, phase: Phase)
    requires Alike(p, q) && p.fatal.None?
    ensures Alike(InPhase(p, phase), q)
  {
    AlikePhase(p, q, Boot);
    assert InPhase(InPhase(p, phase), Boot) == InPhase(p, Boot);
  }

  /** A phase-filtered pass is the walk over the stretch of participants of that phase. */
  lemma PhaseIsStretch(plan: Plan, answers: Answers, p: Progress, q: Progress, phase: Phase)
    requires PlanOk(plan) && IsOrdinaryPhase(phase) && Alike(p, q)
    ensures var lo, hi := Cut(plan, PhaseOrder(phase), 0), Cut(plan, PhaseOrder(phase) + 1, 0);
            lo <= hi && Alike(ExecutePhase(plan, answers, p, phase), Walk(plan, answers, q, Parts(lo, hi)))
  {
    hide PhaseOrder, Cut, PlanOk, PhasePass, Alike, Parts, CallParticipant;
    var lo, hi := Cut(plan, PhaseOrder(phase), 0), Cut(plan, PhaseOrder(phase) + 1, 0);
    StretchExact(plan, phase);
    PartsCallable(plan, lo, hi);
    AlikePhase(p, q, phase);
    if p.fatal.None? {
      var r := InPhase(p, phase);
      InPhaseAlike(p, q, phase);
      PassSkips(plan, answers, r, phase, 0, lo);
      PassWalks(plan, answers, r, phase, lo, hi);
      WalkAlike(plan, answers, r, q, Parts(lo, hi));
    }
  }

  lemma JoinParts(lo: nat, mid: nat, hi: nat)
    requires lo <= mid <= hi
    ensures Parts(lo, hi) == Parts(lo, mid) + Parts(mid, hi)
  {
  }

  lemma CutEnds(plan: Plan)
    requires PlanOk(plan)
    ensures Cut(plan, 0, 0) == 0 && Cut(plan, 8, 0) == |plan.participants| && Cut(plan, 5, 0) == Cut(plan, 6, 0)
  {
    CutExact(plan, 0, 0);
    CutExact(plan, 8, 0);
    CutExact(plan, 5, 0);
    CutExact(plan, 6, 0);
    forall i | 0 <= i < |plan.participants|
      ensures PhaseOrder(plan.participants[i].phase) < 8 && PhaseOrder(plan.participants[i].phase) != 5
    {
      assert ParticipantOk(plan, plan.participants[i]);
    }
  }

  /** The passes over the first participants are the walk over them. */
  lemma BeforeGate(plan: Plan, answers: Answers, p: Progress)
    requires PlanOk(plan)
    ensures var p5 := ExecutePhase(plan, answers, ExecutePhase(plan, answers, ExecutePhase(plan, answers,
                        ExecutePhase(plan, answers, ExecutePhase(plan, answers, p, Boot), CoreInit),
                        LoadValidateConfig),
                        HardwareInit), DomainInit);
            Alike(p5, Walk(plan, answers, p, Parts(0, Cut(plan, 5, 0))))
  {
    hide ExecutePhase, PlanOk, Walk, Parts, Alike;
    CutEnds(plan);
    var c1, c2, c3, c4, c5 := Cut(plan, 1, 0), Cut(plan, 2, 0), Cut(plan, 3, 0), Cut(plan, 4, 0), Cut(plan, 5, 0);
    var p1 := ExecutePhase(plan, answers, p, Boot);
    var p2 := ExecutePhase(plan, answers, p1, CoreInit);
    var p3 := ExecutePhase(plan, answers, p2, LoadValidateConfig);
    var p4 := ExecutePhase(plan, answers, p3, HardwareInit);
    AlikeSelf(p);
    WalkNothing(plan, answers, p);
    ExtendWalk(plan, answers, p, p, p, Boot, 0);
    ExtendWalk(plan, answers, p, p1, Walk(plan, answers, p, Parts(0, c1)), CoreInit, c1);
    ExtendWalk(plan, answers, p, p2, Walk(plan, answers, p, Parts(0, c2)), LoadValidateConfig, c2);
    ExtendWalk(plan, answers, p, p3, Walk(plan, answers, p, Parts(0, c3)), HardwareInit, c3);
    ExtendWalk(plan, answers, p, p4, Walk(plan, answers, p, Parts(0, c4)), DomainInit, c4);
  }

  lemma AlikeSelf(p: Progress)
    ensures Alike(p, p)
  {
  }

  lemma WalkNothing(plan: Plan, answers: Answers, p: Progress)
    ensures Callable(plan, Parts(0, 0)) && Walk(plan, answers, p, Parts(0, 0)) == p
  {
  }

  lemma PartsCallable(plan: Plan, lo: nat, hi: nat)
    requires lo <= hi <= |plan.participants|
    ensures Callable(plan, Parts(lo, hi)) && Early !in Parts(lo, hi)
  {
  }

  /** One more pass extends the walk by one more stretch. */
  lemma ExtendWalk(plan: Plan, answers: Answers, start: Progress, p: Progress, w: Progress, phase: Phase, lo: nat)
    requires PlanOk(plan) && IsOrdinaryPhase(phase) && lo == Cut(plan, PhaseOrder(phase), 0)
    requires Alike(p, w)
    requires Callable(plan, Parts(0, lo)) && w == Walk(plan, answers, start, Parts(0, lo))
    ensures var hi := Cut(plan, PhaseOrder(phase) + 1, 0);
            && lo <= hi && Callable(plan, Parts(0, hi))
            && Alike(ExecutePhase(plan, answers, p, phase), Walk(plan, answers, start, Parts(0, hi)))
  {
    hide ExecutePhase, PlanOk, Walk, Parts, Alike, Callable, PhaseOrder, IsOrdinaryPhase;
    var hi := Cut(plan, PhaseOrder(phase) + 1, 0);
    PhaseIsStretch(plan, answers, p, w, phase);
    JoinParts(0, lo, hi);
    PartsCallable(plan, lo, hi);
    PartsCallable(plan, 0, hi);
    WalkConcat(plan, answers, start, Parts(0, lo), Parts(lo, hi));
  }

  lemma WalkOne(plan: Plan, answers: Answers, p: Progress)
    ensures Walk(plan, answers, p, [Gate]) == ExecuteGate(plan, answers, p)
  {
    hide CallGate;
    if p.fatal.None? {
      assert Walk(plan, answers, p, [Gate]) == Walk(plan, answers, CallGate(plan, answers, p), [Gate][1..]);
    }
  }

  lemma FinishAlike(p: Progress, q: Progress)
    requires Alike(p, q)
    ensures FinishSuccess(p) == FinishSuccess(q)
  {
    AlikePhase(p, q, RunningPhase);
    assert p.fatal.None? ==> FinishSuccess(p) == FinishSuccess(InPhase(p, RunningPhase));
    assert q.fatal.None? ==> FinishSuccess(q) == FinishSuccess(InPhase(q, RunningPhase));
  }

  lemma GateAlike(plan: Plan, answers: Answers, p: Progress, q: Progress)
    requires Alike(p, q)
    ensures Alike(ExecuteGate(plan, answers, p), ExecuteGate(plan, answers, q))
  {
    hide CallSpecial;
    AlikePhase(p, q, SafetyValidation);
  }

  /** The phase-filtered passes are one left-to-right walk with the gate in its place. */
  lemma PassesAreOneWalk(plan: Plan, answers: Answers, p: Progress)
    requires PlanOk(plan)
    ensures ExecutePasses(plan, answers, p) == FinishSuccess(Walk(plan, answers, p, Order(plan)))
  {
    hide ExecutePhase, PlanOk, Walk, Parts, Alike, FinishSuccess, ExecuteGate, Callable;
    CutEnds(plan);
    var g, m, n := Cut(plan, 5, 0), Cut(plan, 7, 0), |plan.participants|;
    var p5 := ExecutePhase(plan, answers, ExecutePhase(plan, answers, ExecutePhase(plan, answers,
                ExecutePhase(plan, answers, ExecutePhase(plan, answers, p, Boot), CoreInit), LoadValidateConfig),
                HardwareInit), DomainInit);
    BeforeGate(plan, answers, p);
    PartsCallable(plan, 0, g);
    var w5 := Walk(plan, answers, p, Parts(0, g));
    GateAlike(plan, answers, p5, w5);
    WalkOne(plan, answers, w5);
    GateCallable(plan);
    WalkConcat(plan, answers, p, Parts(0, g), [Gate]);
    var p6, w6 := ExecuteGate(plan, answers, p5), Walk(plan, answers, p, Parts(0, g) + [Gate]);
    PhaseIsStretch(plan, answers, p6, w6, NetworkInit);
    PartsCallable(plan, g, m);
    var p7, w7 := ExecutePhase(plan, answers, p6, NetworkInit), Walk(plan, answers, w6, Parts(g, m));
    PhaseIsStretch(plan, answers, p7, w7, InterfacesInit);
    PartsCallable(plan, m, n);
    WalkConcat(plan, answers, w6, Parts(g, m), Parts(m, n));
    JoinParts(g, m, n);
    WalkConcat(plan, answers, p, Parts(0, g) + [Gate], Parts(g, n));
    FinishAlike(ExecutePhase(plan, answers, p7, InterfacesInit), Walk(plan, answers, w7, Parts(m, n)));
  }

  lemma GateCallable(plan: Plan)
    ensures Callable(plan, [Gate])
  {
  }
}
