/** No request leaves its session behind: what has ended is canceled, and then released, unless the
    flash has been finalized and waits for the restart. */
module UploadRelease {
  import opened Octets
  import opened UploadBridge
  import Spec = MultipartSpec
  import Log = MultipartLog
  import Ota = OtaApplication
  import opened UploadSystem
  import opened UploadInvariant
  import opened UploadTheorems

  /** An open session is that of the request under way; when no request is, it has been canceled or
      waits for the restart. */
  predicate SessionOwned(s: Sys) {
    var h, b := s.http, s.bridge;
    && (h.pc.Stopping? ==> h.pc.cancels >= 1)
    && (b.activeGeneration != 0 ==>
          if h.pc == NoRequest then b.cancelRequested || s.app.state == Ota.AwaitingRestart
          else h.generation == b.activeGeneration)
  }

  lemma DeliverKeepsOwned(s: Sys, a: Action)
    requires Inv(s) && HttpEnabled(s, a) && SessionOwned(s)
    requires a.Deliver?
    ensures SessionOwned(Do(s, a))
  {
    hide Ota.FlashAfter, Ota.GuardAfter, Ota.AppInv, Spec.Consume, Log.Fed, Log.Payload, AppLink, ParserInv, DoomInv;
  }

  lemma WaitKeepsOwned(s: Sys, a: Action)
    requires Inv(s) && HttpEnabled(s, a) && SessionOwned(s)
    requires a.SubmitNow? || a.EnterNow? || a.LeaveNow?
    ensures SessionOwned(Do(s, a))
  {
    hide Ota.FlashAfter, Ota.GuardAfter, Ota.AppInv, Spec.Consume, Log.Fed, Log.Payload, AppLink, ParserInv, DoomInv;
  }

  lemma AnswerKeepsOwned(s: Sys, a: Action)
    requires Inv(s) && HttpEnabled(s, a) && SessionOwned(s)
    requires a.Answer?
    ensures SessionOwned(Do(s, a))
  {
    hide Ota.FlashAfter, Ota.GuardAfter, Ota.AppInv, Spec.Consume, Log.Fed, Log.Payload, AppLink, ParserInv, DoomInv;
  }

  lemma OtherKeepsOwned(s: Sys, a: Action)
    requires Inv(s) && HttpEnabled(s, a) && SessionOwned(s)
    requires !a.Deliver? && !a.SubmitNow? && !a.EnterNow? && !a.LeaveNow? && !a.Answer?
    ensures SessionOwned(Do(s, a))
  {
    hide Ota.FlashAfter, Ota.GuardAfter, Ota.AppInv, Spec.Consume, Log.Fed, Log.Payload, AppLink, ParserInv, DoomInv;
  }

  lemma HttpKeepsOwned(s: Sys, a: Action)
    requires Inv(s) && HttpEnabled(s, a) && SessionOwned(s)
    ensures SessionOwned(Do(s, a))
  {
    hide Inv, HttpEnabled, Do, SessionOwned;
    match a
    case Deliver => DeliverKeepsOwned(s, a);
    case SubmitNow(_) => WaitKeepsOwned(s, a);
    case EnterNow => WaitKeepsOwned(s, a);
    case LeaveNow => WaitKeepsOwned(s, a);
    case Answer(_) => AnswerKeepsOwned(s, a);
    case _ => OtherKeepsOwned(s, a);
  }

  lemma AppKeepsOwned(s: Sys, a: Action)
    requires Inv(s) && Enabled(s, a) && !HttpEnabled(s, a) && SessionOwned(s)
    ensures SessionOwned(Do(s, a))
  {
    hide HttpEnabled, Ota.FlashAfter, Ota.GuardAfter, Spec.Consume, Log.Fed, Log.Payload,
         HttpLink, SessionInv, ParserInv, ResponseInv, DoomInv;
  }

  lemma {:induction false} RunOwned(states: seq<Sys>, actions: seq<Action>, k: nat)
    requires IsRun(states, actions) && k < |states|
    ensures SessionOwned(states[k])
  {
    hide Inv, Enabled, HttpEnabled, Do, SessionOwned, Init;
    if k == 0 {
      NothingOwned(states[0]);
    } else {
      RunOwned(states, actions, k - 1);
      RunInv(states, actions, k - 1);
      var s, a := states[k - 1], actions[k - 1];
      assert Enabled(s, a) && states[k - 1 + 1] == Do(s, a);
      if HttpEnabled(s, a) {
        HttpKeepsOwned(s, a);
      } else {
        AppKeepsOwned(s, a);
      }
    }
  }

  lemma NothingOwned(s: Sys)
    requires Init(s)
    ensures SessionOwned(s)
  {
  }

  /** In every run: when no request is under way, an open session has been canceled, or its flash is
      finalized and waits for the restart. */
  lemma EndedIsCanceled(states: seq<Sys>, actions: seq<Action>, k: nat)
    requires IsRun(states, actions) && k < |states|
    requires states[k].http.pc == NoRequest && states[k].bridge.activeGeneration != 0
    ensures states[k].bridge.cancelRequested || AwaitsRestart(states[k])
  {
    hide IsRun, BridgeInv, AppLink, HttpLink, SessionInv, ParserInv, ResponseInv, DoomInv;
    RunOwned(states, actions, k);
    RunInv(states, actions, k);
  }

  ghost predicate AwaitsRestart(s: Sys) {
    s.app.state == Ota.AwaitingRestart && FlashOf(s).Finalized?
  }

  lemma {:induction false} StaysEnded(states: seq<Sys>, actions: seq<Action>, i: nat, j: nat)
    requires IsRun(states, actions) && i <= j < |states| && states[i].http.pc == NoRequest
    requires forall m :: i <= m < j ==> states[m].bridge.activeGeneration != 0
    ensures states[j].http.pc == NoRequest
    decreases j
  {
    hide Do, Enabled, Init;
    if i < j {
      StaysEnded(states, actions, i, j - 1);
      var s, a := states[j - 1], actions[j - 1];
      assert Enabled(s, a) && states[j - 1 + 1] == Do(s, a);
      NoNewRequest(s, a);
    }
  }

  lemma NoNewRequest(s: Sys, a: Action)
    requires Enabled(s, a) && s.http.pc == NoRequest && s.bridge.activeGeneration != 0
    ensures Do(s, a).http.pc == NoRequest
  {
    hide Ota.Perform, Ota.Cleanup;
  }

  /** After a request has ended, however it ended, any processOne call that begins later is over only
      with the session released, unless the flash was finalized and awaits the restart. */
  lemma EndedIsReleased(states: seq<Sys>, actions: seq<Action>, i: nat, j: nat, k: nat)
    requires IsRun(states, actions) && i <= j < k < |states|
    requires states[i].http.pc == NoRequest && actions[j] == TakeNext && states[k].appPc == Between
    ensures (exists m :: i <= m <= k && states[m].bridge.activeGeneration == 0) || AwaitsRestart(states[j])
  {
    hide IsRun, Inv, Enabled, Do, AwaitsRestart;
    if forall m :: i <= m <= j ==> states[m].bridge.activeGeneration != 0 {
      RunLength(states, actions);
      StaysEnded(states, actions, i, j);
      EndedIsCanceled(states, actions, j);
      if !AwaitsRestart(states[j]) {
        DoomedOrWaiting(states, actions, j);
        CanceledIsReleased(states, actions, j, k);
      }
    }
  }

  lemma RunLength(states: seq<Sys>, actions: seq<Action>)
    requires IsRun(states, actions)
    ensures |states| == |actions| + 1
  {
  }

  lemma DoomedOrWaiting(states: seq<Sys>, actions: seq<Action>, j: nat)
    requires IsRun(states, actions) && j < |states|
    requires states[j].bridge.activeGeneration != 0 && states[j].bridge.cancelRequested
    ensures Doomed(states[j]) || AwaitsRestart(states[j])
  {
    hide IsRun, BridgeInv, AppLink, HttpLink, SessionInv, ParserInv, ResponseInv, DoomInv;
    RunInv(states, actions, j);
  }
}
