/** Which response a request gets, and when the restart is scheduled: in every run, from what happened. */
module UploadResponses {
  import opened Octets
  import opened UploadBridge
  import Spec = MultipartSpec
  import Log = MultipartLog
  import Ota = OtaApplication
  import opened UploadSystem
  import opened UploadInvariant
  import opened UploadTheorems

  // ------------------------------------------------------------ response codes

  /** The answer of the application task that HTTPD acts on now. */
  predicate Answers(s: Sys, a: Action, error: OtaError) {
    a.Answer? && s.http.pc.Working? && s.http.pc.stage == Answered(error)
  }

  /** HTTPD delivers the start of the data, and the bridge has a session already. */
  predicate SessionTaken(s: Sys, a: Action) {
    && a.Deliver? && s.http.pc.Delivering? && s.http.pc.events != [] && s.http.pc.events[0].Start?
    && (s.bridge.activeGeneration != 0 || s.bridge.state != Free)
  }

  /** HTTPD delivers the start of the data, and no generation is left. */
  predicate SessionsExhausted(s: Sys, a: Action) {
    && a.Deliver? && s.http.pc.Delivering? && s.http.pc.events != [] && s.http.pc.events[0].Start?
    && !SessionTaken(s, a) && s.bridge.lastGeneration == UINT64_MAX
  }

  /** The time for the request, or for reading it, is over. */
  predicate TimesOut(a: Action) {
    a in {Expire, ReadExpired, AbortRead(true), EndBody(true)}
  }

  /** What was received is no upload: the parser fails, a piece exceeds the announced size, or the
      end comes before the form is complete. */
  predicate Malformed(s: Sys, a: Action) {
    || (a.Deliver? && s.http.pc.Delivering? &&
          if s.http.pc.events == [] then !s.http.pc.good
          else s.http.pc.events[0].Chunk? &&
                 var size := |s.http.pc.events[0].bytes|;
                 size == 0 || size > 1024 || s.http.fileBytes + size > s.http.request.firmwareSize)
    || (a == EndBody(false) &&
          (Spec.Finish(s.http.phase).None? || s.http.generation == 0
           || s.http.fileBytes != s.http.request.firmwareSize))
  }

  /** The bridge does not take the command, or the wait for it ends without a result. */
  predicate BridgeRefuses(s: Sys, a: Action) {
    && s.http.pc.Working? && s.http.pc.job.kind != ArmRestart && |s.bridge.data| == CAPACITY
    && match a
       case SubmitNow(prepared) =>
         !prepared || !Submittable(s.bridge, JobCommand(s.http, s.http.pc.job), s.http.pc.job.bytes)
       case EnterNow => !Waits(s.bridge, s.http.generation)
       case LeaveNow => !Waits(s.bridge, s.http.generation) || s.bridge.state != Completed
       case _ => false
  }

  /** The response after the step is explained by the step, and the step by the response. */
  ghost predicate Explained(s: Sys, a: Action)
    requires Enabled(s, a)
  {
    var response := Do(s, a).http.response;
    var finishes := s.http.pc.Working? && s.http.pc.job.kind == EndUpload && Answers(s, a, NoError);
    && (response == Some(200) <==> finishes)
    && (response == Some(408) <==> TimesOut(a))
    && (response == Some(409) <==> Answers(s, a, Busy) || SessionTaken(s, a))
    && (response == Some(413) <==> Answers(s, a, TooLarge))
    && (response == Some(400) <==> Answers(s, a, Invalid) || Malformed(s, a))
    && (response == Some(500) <==> Answers(s, a, UpdateFailure))
    && (response == Some(503) <==> Answers(s, a, Unavailable) || SessionsExhausted(s, a) || BridgeRefuses(s, a))
    && (response.Some? ==> response.value in {200, 400, 408, 409, 413, 500, 503})
    && (response.Some? && response != Some(200) ==> Do(s, a).http.pc.Stopping?)
  }

  /** Every response of an accepted request has exactly one kind of cause, and every cause gives its
      response; nothing else responds. */
  lemma ResponseExact(s: Sys, a: Action)
    requires Inv(s) && Enabled(s, a) && !a.Refuse? && !a.Accept? && s.http.response.None?
    ensures Explained(s, a)
  {
    hide Inv, HttpEnabled, Do, Explained;
    if !HttpEnabled(s, a) {
      AppResponse(s, a);
    } else {
      match a
      case Deliver => DeliverResponse(s, a);
      case SubmitNow(_) => BridgeResponse(s, a);
      case EnterNow => BridgeResponse(s, a);
      case LeaveNow => BridgeResponse(s, a);
      case Answer(_) => AnswerResponse(s, a);
      case EndBody(_) => EndResponse(s, a);
      case _ => OtherResponse(s, a);
    }
  }

  lemma AppSilent(s: Sys, a: Action)
    requires Enabled(s, a) && !HttpEnabled(s, a)
    ensures Do(s, a).http == s.http
  {
    hide HttpEnabled, Ota.Perform, Ota.Cleanup, Spec.Consume, Log.Fed;
  }

  lemma AppResponse(s: Sys, a: Action)
    requires Inv(s) && Enabled(s, a) && !HttpEnabled(s, a) && s.http.response.None?
    ensures Explained(s, a)
  {
    hide Inv, HttpEnabled, Do;
    AppSilent(s, a);
  }

  lemma DeliverResponse(s: Sys, a: Action)
    requires Inv(s) && HttpEnabled(s, a) && s.http.response.None?
    requires a.Deliver?
    ensures Explained(s, a)
  {
    hide Spec.Consume, Log.Fed, Log.Payload, Ota.FlashAfter, Ota.GuardAfter, Ota.AppInv, AppLink, SessionInv, DoomInv;
  }

  lemma BridgeResponse(s: Sys, a: Action)
    requires Inv(s) && HttpEnabled(s, a) && s.http.response.None?
    requires a.SubmitNow? || a.EnterNow? || a.LeaveNow?
    ensures Explained(s, a)
  {
    hide Spec.Consume, Log.Fed, Log.Payload, Ota.FlashAfter, Ota.GuardAfter, Ota.AppInv, AppLink, SessionInv, DoomInv;
  }

  lemma AnswerResponse(s: Sys, a: Action)
    requires Inv(s) && HttpEnabled(s, a) && s.http.response.None?
    requires a.Answer?
    ensures Explained(s, a)
  {
    hide Spec.Consume, Log.Fed, Log.Payload, Ota.FlashAfter, Ota.GuardAfter, Ota.AppInv, AppLink, SessionInv, DoomInv,
         BridgeInv, HttpLink, ParserInv;
  }

  lemma EndResponse(s: Sys, a: Action)
    requires Inv(s) && HttpEnabled(s, a) && s.http.response.None?
    requires a.EndBody?
    ensures Explained(s, a)
  {
    hide Spec.Consume, Log.Fed, Log.Payload, Ota.FlashAfter, Ota.GuardAfter, Ota.AppInv, AppLink, SessionInv, DoomInv;
  }

  lemma OtherResponse(s: Sys, a: Action)
    requires Inv(s) && HttpEnabled(s, a) && s.http.response.None?
    requires !a.Refuse? && !a.Accept? && !a.Deliver? && !a.SubmitNow? && !a.EnterNow? && !a.LeaveNow? && !a.Answer?
             && !a.EndBody?
    ensures Explained(s, a)
  {
    hide Spec.Consume, Log.Fed, Log.Payload, Ota.FlashAfter, Ota.GuardAfter, Ota.AppInv, AppLink, SessionInv, DoomInv;
  }

  /** The first response stands. */
  lemma ResponseStands(s: Sys, a: Action)
    requires Enabled(s, a) && !a.Refuse? && !a.Accept? && s.http.response.Some?
    ensures Do(s, a).http.response == s.http.response
  {
    hide Spec.Consume, Log.Fed, Ota.Perform, Ota.Cleanup, Submit, EnterWait, LeaveWait, Admit;
  }

  /** After a success that was sent, HTTPD asks for the restart, and the bridge is ready to take that
      command; after one that could not be sent, the request is over and the watchdog remains. */
  lemma SuccessArms(s: Sys, a: Action)
    requires Inv(s) && Enabled(s, a) && Answers(s, a, NoError) && s.http.pc.job.kind == EndUpload
    ensures var t := Do(s, a);
            var arm := Job(ArmRestart, [], [], true);
            && t.http.response == Some(200) && t.app.state == Ota.AwaitingRestart
            && t.http.pc == (if a.sends then Working(Submitting, arm) else NoRequest)
            && (a.sends ==> Submittable(t.bridge, JobCommand(t.http, arm), arm.bytes))
  {
    hide Spec.Consume, Log.Fed, Log.Payload, Ota.FlashAfter, Ota.GuardAfter, Ota.AppInv, AppLink, DoomInv, ParserInv;
  }

  lemma CommitKept(s: Sys, a: Action)
    requires Enabled(s, a) && (s.http.committed <==> s.http.response == Some(200))
    requires Inv(s)
    ensures Do(s, a).http.committed <==> Do(s, a).http.response == Some(200)
  {
    hide HttpEnabled, HttpDo, Inv;
    if HttpEnabled(s, a) {
      HttpCommits(s, a);
    } else {
      AppSilent(s, a);
    }
  }

  lemma HttpCommits(s: Sys, a: Action)
    requires HttpEnabled(s, a) && (s.http.committed <==> s.http.response == Some(200))
    requires Inv(s)
    ensures Do(s, a).http.committed <==> Do(s, a).http.response == Some(200)
  {
    hide Spec.Consume, Log.Fed, Log.Payload, Ota.Perform, Ota.Cleanup, Ota.AppInv, Submit, EnterWait, LeaveWait, Admit,
         BridgeInv, AppLink, HttpLink, SessionInv, ParserInv, DoomInv;
  }

  /** In every run the route counts as committed exactly when it has answered 200. */
  lemma {:induction false} CommittedExact(states: seq<Sys>, actions: seq<Action>, k: nat)
    requires IsRun(states, actions) && k < |states|
    ensures states[k].http.committed <==> states[k].http.response == Some(200)
  {
    hide Inv, Enabled, Do;
    if k > 0 {
      CommittedExact(states, actions, k - 1);
      RunInv(states, actions, k - 1);
      assert Enabled(states[k - 1], actions[k - 1]) && states[k - 1 + 1] == Do(states[k - 1], actions[k - 1]);
      CommitKept(states[k - 1], actions[k - 1]);
    }
  }

  // ------------------------------------------------------------ the restart

  /** The step asks for the restart: the arming command of this session, or the watchdog 30 seconds
      after the flash was finalized; and the scheduler takes it. */
  predicate Schedules(s: Sys, a: Action) {
    && s.app.state == Ota.AwaitingRestart
    && match a
       case RunCommand(env) => s.appPc.Decided? && s.appPc.command.kind == ArmRestart && env.schedules
       case Watch(now, schedules) => (now - s.app.finalizedAt) % 0x1_0000_0000 >= 30000 && schedules
       case _ => false
  }

  /** One step of a finalized session: it stays finalized, remembers when that was, and the restart is
      scheduled exactly by such a step, for good. */
  lemma FinalizedStep(s: Sys, a: Action)
    requires Inv(s) && Enabled(s, a) && s.app.state == Ota.AwaitingRestart
    ensures var t := Do(s, a);
            && t.app.state == Ota.AwaitingRestart && t.app.finalizedAt == s.app.finalizedAt
            && (t.app.restartArmed <==> s.app.restartArmed || Schedules(s, a))
  {
    hide HttpDo, HttpEnabled, Ota.FlashAfter, Ota.GuardAfter, Spec.Consume, Log.Fed, Log.Payload,
         HttpLink, SessionInv, ParserInv, ResponseInv, DoomInv;
    if HttpEnabled(s, a) {
      HttpKeepsApp(s, a);
    }
  }

  lemma HttpKeepsApp(s: Sys, a: Action)
    requires HttpEnabled(s, a)
    ensures Do(s, a).app == s.app && !a.RunCommand? && !a.Watch?
  {
    hide Spec.Consume, Log.Fed;
  }

  /** The step finalizes the flash, now. */
  lemma FinalizingStep(s: Sys, a: Action)
    requires Inv(s) && Enabled(s, a) && s.app.state != Ota.AwaitingRestart && Do(s, a).app.state == Ota.AwaitingRestart
    ensures a.RunCommand? && a.env.ends && s.app.state == Ota.Receiving
    ensures Do(s, a).app.finalizedAt == a.env.now && !Do(s, a).app.restartArmed
  {
    hide HttpDo, HttpEnabled, Ota.FlashAfter, Ota.GuardAfter, Spec.Consume, Log.Fed, Log.Payload,
         HttpLink, SessionInv, ParserInv, ResponseInv, DoomInv;
    if HttpEnabled(s, a) {
      HttpKeepsApp(s, a);
    }
  }

  ghost predicate FinalizedAt(states: seq<Sys>, actions: seq<Action>, m: nat, k: nat)
    requires |states| == |actions| + 1
  {
    && m < k < |states|
    && actions[m].RunCommand? && actions[m].env.ends && actions[m].env.now == states[k].app.finalizedAt
    && states[m].app.state == Ota.Receiving
    && forall i :: m < i <= k ==>
         states[i].app.state == Ota.AwaitingRestart && states[i].app.finalizedAt == states[k].app.finalizedAt
  }

  /** In every run, while the restart is awaited, the remembered time is that of the end that finalized
      the flash; and the restart is scheduled exactly if, since then, it was asked for by the session or
      fell due by the watchdog, and the scheduler took it. */
  lemma {:induction false} RestartScheduled(states: seq<Sys>, actions: seq<Action>, k: nat) returns (m: nat)
    requires IsRun(states, actions) && k < |states| && states[k].app.state == Ota.AwaitingRestart
    ensures FinalizedAt(states, actions, m, k)
    ensures states[k].app.restartArmed <==> exists i :: m < i < k && Schedules(states[i], actions[i])
  {
    hide Inv, Enabled, Do, Init, Schedules;
    if k == 0 {
      StartsIdle(states[0]);
    }
    var s, a := states[k - 1], actions[k - 1];
    RunInv(states, actions, k - 1);
    assert Enabled(s, a) && states[k - 1 + 1] == Do(s, a);
    if s.app.state == Ota.AwaitingRestart {
      m := RestartScheduled(states, actions, k - 1);
      FinalizedStep(s, a);
      if i :| m < i < k && Schedules(states[i], actions[i]) {
        assert i == k - 1 || i < k - 1;
      }
    } else {
      FinalizingStep(s, a);
      m := k - 1;
    }
  }

  lemma StartsIdle(s: Sys)
    requires Init(s)
    ensures s.app.state == Ota.Idle
  {
  }
}
