/** Whose answer a waiter gets: over every run, the result of its own last command. */
module UploadAnswers {
  import opened Octets
  import opened UploadBridge
  import Spec = MultipartSpec
  import Log = MultipartLog
  import Ota = OtaApplication
  import BridgeSafety
  import opened UploadSystem
  import opened UploadInvariant
  import opened UploadTheorems

  // ------------------------------------------------------------ signals

  /** In every run a signalled wake finds the result: when the signal is consumed, and for as long
      as the waiter has not looked. */
  lemma SignalFindsResult(states: seq<Sys>, actions: seq<Action>, k: nat)
    requires IsRun(states, actions) && k < |states|
    ensures k < |actions| && actions[k] == Wake(Signaled) ==> states[k].bridge.state == Completed
    ensures states[k].http.pc.Working? && states[k].http.pc.stage == Leaving(Signaled) ==>
              states[k].bridge.state == Completed
  {
    hide IsRun, BridgeInv, AppLink, SessionInv, ParserInv, ResponseInv, DoomInv, Ota.AppInv;
    RunInv(states, actions, k);
    if k < |actions| && actions[k] == Wake(Signaled) {
      RunEnabled(states, actions, k);
      BridgeSafety.SignalMeansCompleted(states[k].bridge);
    }
  }

  lemma SignalStep(s: Sys, a: Action)
    requires Inv(s) && Enabled(s, a) && WokenBySignal(Do(s, a))
    requires WokenBySignal(s) ==> !s.bridge.signal
    ensures !Do(s, a).bridge.signal
  {
    hide Ota.FlashAfter, Ota.GuardAfter, Ota.AppInv, Ota.Perform, Ota.Cleanup, Spec.Consume, Log.Fed, Log.Payload,
         AppLink, SessionInv, ParserInv, ResponseInv, DoomInv;
    if !HttpEnabled(s, a) {
      AppLeavesSignal(s, a);
    }
  }

  /** The application task signals only a completion, and a woken waiter has its completion. */
  lemma AppLeavesSignal(s: Sys, a: Action)
    requires Inv(s) && Enabled(s, a) && !HttpEnabled(s, a) && WokenBySignal(s) && !s.bridge.signal
    ensures !Do(s, a).bridge.signal
  {
    hide HttpEnabled, HttpDo, Ota.FlashAfter, Ota.GuardAfter, Ota.AppInv, Ota.Perform, Ota.Cleanup, Spec.Consume,
         Log.Fed, Log.Payload, SessionInv, ParserInv, ResponseInv, DoomInv;
  }

  predicate WokenBySignal(s: Sys) {
    s.http.pc.Working? && s.http.pc.stage == Leaving(Signaled)
  }

  /** The signal of a signalled wake is used up: it cannot wake anybody again. */
  lemma {:induction false} SignalUsedUp(states: seq<Sys>, actions: seq<Action>, k: nat)
    requires IsRun(states, actions) && k < |states| && WokenBySignal(states[k])
    ensures !states[k].bridge.signal
  {
    hide Inv, Enabled, Do;
    if k > 0 {
      RunInv(states, actions, k - 1);
      RunEnabled(states, actions, k - 1);
      if WokenBySignal(states[k - 1]) {
        SignalUsedUp(states, actions, k - 1);
      }
      SignalStep(states[k - 1], actions[k - 1]);
    }
  }

  lemma RunEnabled(states: seq<Sys>, actions: seq<Action>, k: nat)
    requires IsRun(states, actions) && k < |actions|
    ensures k + 1 < |states| && Enabled(states[k], actions[k]) && states[k + 1] == Do(states[k], actions[k])
  {
    hide Enabled, Do;
  }

  // ------------------------------------------------------------ one step back

  /** The application task leaves HTTPD and the submitted command alone. */
  lemma AppKeepsCommand(s: Sys, a: Action)
    requires Enabled(s, a) && !HttpEnabled(s, a)
    ensures Do(s, a).http == s.http && Do(s, a).bridge.command == s.bridge.command
  {
    hide HttpEnabled, Ota.Perform, Ota.Cleanup, Spec.Consume, Log.Fed;
  }

  /** Where a waiting HTTPD task came from: it was waiting for the same command, or submits it now. */
  lemma WaitCameFrom(s: Sys, a: Action)
    requires Inv(s) && Enabled(s, a) && Waiting(Do(s, a).http)
    ensures var t := Do(s, a);
            && s.http.pc.Working? && s.http.pc.job == t.http.pc.job
            && (Waiting(s.http) ==> t.bridge.command == s.bridge.command)
            && (!Waiting(s.http) ==>
                  && a.SubmitNow? && s.http.pc.stage == Submitting
                  && t.bridge.state == Queued && t.bridge.command == JobCommand(s.http, t.http.pc.job))
  {
    hide Ota.FlashAfter, Ota.GuardAfter, Ota.AppInv, Ota.Perform, Spec.Consume, Log.Fed, Log.Payload,
         AppLink, SessionInv, ParserInv, ResponseInv, DoomInv, AppDo;
    if !HttpEnabled(s, a) {
      AppKeepsCommand(s, a);
    }
  }

  /** HTTPD stores no result. */
  lemma HttpKeepsResult(s: Sys, a: Action)
    requires HttpEnabled(s, a) && Do(s, a).bridge.state == Completed
    ensures var b := Do(s, a).bridge;
            s.bridge.state == Completed && s.bridge.command == b.command && s.bridge.result == b.result
  {
    hide Spec.Consume, Log.Fed;
  }

  /** Where a stored result came from: it was stored, or the application task stores it now. */
  lemma ResultCameFrom(s: Sys, a: Action)
    requires Inv(s) && Enabled(s, a) && Do(s, a).bridge.state == Completed
    ensures var b := Do(s, a).bridge;
            || (s.bridge.state == Completed && s.bridge.command == b.command && s.bridge.result == b.result)
            || (a.CompleteNow? && s.appPc == Executed(b.command, b.result))
  {
    hide Ota.FlashAfter, Ota.GuardAfter, Ota.AppInv, Ota.Perform, HttpDo, HttpEnabled,
         SessionInv, ParserInv, ResponseInv, DoomInv;
    if HttpEnabled(s, a) {
      HttpKeepsResult(s, a);
    }
  }

  /** Where an outcome came from: it was there, or the command is executed now. */
  lemma OutcomeCameFrom(s: Sys, a: Action)
    requires Inv(s) && Enabled(s, a) && Do(s, a).appPc.Executed?
    ensures s.appPc == Do(s, a).appPc
            || (a.RunCommand? && s.appPc.Decided? && s.appPc.command == Do(s, a).appPc.command)
  {
    hide Ota.FlashAfter, Ota.GuardAfter, Ota.AppInv, Ota.Perform, Spec.Consume, Log.Fed, Log.Payload,
         SessionInv, ParserInv, ResponseInv, DoomInv;
  }

  // ------------------------------------------------------------ all the way back

  lemma {:induction false} SubmittedBefore(states: seq<Sys>, actions: seq<Action>, k: nat) returns (s: nat)
    requires IsRun(states, actions) && k < |states| && Waiting(states[k].http)
    ensures s < k && actions[s].SubmitNow?
    ensures var job := states[k].http.pc.job;
            && states[s].http.pc == Working(Submitting, job)
            && JobCommand(states[s].http, job) == states[k].bridge.command
            && states[s + 1].bridge.state == Queued
            && forall i :: s < i <= k ==>
                 Waiting(states[i].http) && states[i].http.pc.job == job
                   && states[i].bridge.command == states[k].bridge.command
  {
    hide Inv, Enabled, Do, Init, Waiting;
    if k == 0 {
      NobodyWaits(states[0]);
    }
    RunInv(states, actions, k - 1);
    RunEnabled(states, actions, k - 1);
    WaitCameFrom(states[k - 1], actions[k - 1]);
    if Waiting(states[k - 1].http) {
      s := SubmittedBefore(states, actions, k - 1);
    } else {
      s := k - 1;
      WaitedWork(states[k].http);
    }
  }

  lemma NobodyWaits(s: Sys)
    requires Init(s)
    ensures !Waiting(s.http) && s.bridge.state == Free && s.appPc == Between
  {
  }

  lemma WaitedWork(h: Http)
    requires Waiting(h)
    ensures h.pc.Working? && h.pc.stage != Submitting
  {
  }

  lemma {:induction false} CompletedBefore(states: seq<Sys>, actions: seq<Action>, k: nat) returns (m: nat)
    requires IsRun(states, actions) && k < |states| && states[k].bridge.state == Completed
    ensures m < k && actions[m].CompleteNow?
    ensures states[m].appPc == Executed(states[k].bridge.command, states[k].bridge.result)
    ensures forall i :: m < i <= k ==> states[i].bridge.state == Completed
  {
    hide Inv, Enabled, Do, Init;
    if k == 0 {
      NobodyWaits(states[0]);
    }
    RunInv(states, actions, k - 1);
    RunEnabled(states, actions, k - 1);
    ResultCameFrom(states[k - 1], actions[k - 1]);
    if states[k - 1].bridge.state == Completed && states[k - 1].bridge.command == states[k].bridge.command
       && states[k - 1].bridge.result == states[k].bridge.result {
      m := CompletedBefore(states, actions, k - 1);
    } else {
      m := k - 1;
    }
  }

  lemma {:induction false} ExecutedBefore(states: seq<Sys>, actions: seq<Action>, m: nat) returns (r: nat)
    requires IsRun(states, actions) && m < |states| && states[m].appPc.Executed?
    ensures r < m && actions[r].RunCommand? && states[r].appPc.Decided?
    ensures states[r].appPc.command == states[m].appPc.command
    ensures forall i :: r < i <= m ==> states[i].appPc == states[m].appPc
  {
    hide Inv, Enabled, Do, Init;
    if m == 0 {
      NobodyWaits(states[0]);
    }
    RunInv(states, actions, m - 1);
    RunEnabled(states, actions, m - 1);
    OutcomeCameFrom(states[m - 1], actions[m - 1]);
    if states[m - 1].appPc == states[m].appPc {
      r := ExecutedBefore(states, actions, m - 1);
    } else {
      r := m - 1;
    }
  }

  // ------------------------------------------------------------ the answer

  /** One command from its submission at `s` over its execution at `r` and its completion at `m` to
      the waiter that looks at `k`: nobody else's command comes in between, and the application
      task ran it on the bytes that were submitted. */
  ghost predicate Served(states: seq<Sys>, actions: seq<Action>, s: nat, r: nat, m: nat, k: nat, error: OtaError)
    requires |states| == |actions| + 1
  {
    && s < r < m < k < |actions|
    && actions[s].SubmitNow? && actions[r].RunCommand? && actions[m].CompleteNow?
    && states[k].http.pc.Working?
    && var job := states[k].http.pc.job;
       var command := JobCommand(states[k].http, job);
       && states[s].http.pc == Working(Submitting, job) && JobCommand(states[s].http, job) == command
       && (forall i :: s < i <= k ==>
             Waiting(states[i].http) && states[i].http.pc.job == job && states[i].bridge.command == command)
       && states[r].appPc.Decided? && states[r].appPc.command == command
       && (job.kind == SendChunk ==> job.bytes <= states[r].bridge.data && |job.bytes| == command.length)
       && states[r + 1].appPc == states[m].appPc == Executed(command, error)
       && states[k].bridge.state == Completed && states[k].bridge.result == error
  }

  /** In every run an answered waiter gets the result that executing its own last command gave, and
      the slot is free again. */
  lemma AnswerIsOwn(states: seq<Sys>, actions: seq<Action>, k: nat)
    requires IsRun(states, actions) && k < |actions| && actions[k] in {EnterNow, LeaveNow}
    requires states[k + 1].http.pc.Working? && states[k + 1].http.pc.stage.Answered?
    ensures states[k + 1].bridge.state == Free && !states[k + 1].bridge.waiterAttached
    ensures var error := states[k + 1].http.pc.stage.error;
            exists s, r, m :: Served(states, actions, s, r, m, k, error)
  {
    hide Init, Inv, Enabled, Do, Waiting;
    var error := states[k + 1].http.pc.stage.error;
    RunInv(states, actions, k);
    RunEnabled(states, actions, k);
    AnswerTaken(states[k], actions[k]);
    var s := SubmittedBefore(states, actions, k);
    var m := CompletedBefore(states, actions, k);
    var r := ExecutedBefore(states, actions, m);
    RunInv(states, actions, s + 1);
    RunInv(states, actions, r);
    RunInv(states, actions, r + 1);
    if states[s + 1].appPc.Executed? {
      OutcomeHolds(states[s + 1]);
    }
    CommandRunning(states[r]);
    WaitedWork(states[k].http);
    assert Served(states, actions, s, r, m, k, error);
  }

  lemma AnswerTaken(s: Sys, a: Action)
    requires Inv(s) && Enabled(s, a) && a in {EnterNow, LeaveNow}
    requires Do(s, a).http.pc.Working? && Do(s, a).http.pc.stage.Answered?
    ensures Waiting(s.http) && s.bridge.state == Completed && s.bridge.command == JobCommand(s.http, s.http.pc.job)
    ensures s.bridge.result == Do(s, a).http.pc.stage.error
    ensures Do(s, a).bridge.state == Free && !Do(s, a).bridge.waiterAttached
  {
    hide Ota.AppInv, Spec.Consume, Log.Fed, SessionInv, ParserInv, ResponseInv, DoomInv;
  }

  lemma OutcomeHolds(s: Sys)
    requires Inv(s) && s.appPc.Executed?
    ensures s.bridge.state == Processing
  {
    hide Ota.AppInv, SessionInv, ParserInv, ResponseInv, DoomInv;
  }

  lemma CommandRunning(s: Sys)
    requires Inv(s) && s.appPc.Decided? && Waiting(s.http)
    ensures s.http.pc.job.kind == SendChunk ==>
              s.http.pc.job.bytes <= s.bridge.data && |s.http.pc.job.bytes| == s.bridge.command.length
  {
    hide Ota.AppInv, SessionInv, ParserInv, ResponseInv, DoomInv;
  }
}
