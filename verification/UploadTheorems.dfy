/** The promises of the upload, over every run and every interleaving. */
module UploadTheorems {
  import opened Octets
  import opened UploadBridge
  import Spec = MultipartSpec
  import Log = MultipartLog
  import Ota = OtaApplication
  import opened UploadSystem
  import opened UploadInvariant
  import opened UploadSteps

  lemma StepKeeps(s: Sys, a: Action)
    requires Inv(s) && Enabled(s, a)
    ensures Inv(Do(s, a))
  {
    hide Inv, Do, Log.Fed, Spec.Consume;
    match a
    case Accept(r) => AcceptKeeps(s, r);
    case Refuse(n) => RefuseKeeps(s, n);
    case Read(chunk, events) => ReadKeeps(s, chunk, events);
    case ReadExpired => ReadExpiredKeeps(s);
    case AbortRead(b) => AbortReadKeeps(s, b);
    case Deliver => DeliverKeeps(s);
    case Expire => ExpireKeeps(s);
    case SubmitNow(b) => SubmitNowKeeps(s, b);
    case EnterNow => EnterNowKeeps(s);
    case Wake(w) => WakeKeeps(s, w);
    case LeaveNow => LeaveNowKeeps(s);
    case Answer(b) => AnswerKeeps(s, b);
    case EndBody(b) => EndBodyKeeps(s, b);
    case CancelNow => CancelNowKeeps(s);
    case TakeNext => TakeNextKeeps(s);
    case CheckCancel => CheckCancelKeeps(s);
    case RunCommand(env) => RunCommandKeeps(s, env);
    case CompleteNow(b) => CompleteNowKeeps(s, b);
    case ReleaseNow => ReleaseNowKeeps(s);
    case Look => LookKeeps(s);
    case CleanNow => CleanNowKeeps(s);
    case Probe => ProbeKeeps(s);
    case CheckProbed => CheckProbedKeeps(s);
    case FreeNow => FreeNowKeeps(s);
    case Watch(n, b) => WatchKeeps(s, n, b);
  }

  lemma {:induction false} RunInv(states: seq<Sys>, actions: seq<Action>, k: nat)
    requires IsRun(states, actions) && k < |states|
    ensures Inv(states[k])
  {
    hide Inv, Enabled, Do, Init;
    if k == 0 {
      InitHolds(states[0]);
    } else {
      RunInv(states, actions, k - 1);
      assert states[k - 1 + 1] == Do(states[k - 1], actions[k - 1]);
      StepKeeps(states[k - 1], actions[k - 1]);
    }
  }

  // ------------------------------------------------------------ end to end

  /** The bytes of the successful writes among `ops`, in order. */
  function Written(ops: seq<Ota.Op>): seq<octet> {
    if ops == [] then []
    else
      var last := ops[|ops| - 1];
      Written(ops[..|ops| - 1]) + if last.Write? && last.ok then last.bytes else []
  }

  /** Position `i` begins the update, `j` ends it, and the writes in between are `bytes`. */
  ghost predicate FlashedBetween(ops: seq<Ota.Op>, i: nat, j: nat, bytes: seq<octet>) {
    && i < j < |ops|
    && ops[i] == Ota.Begin(|bytes|, true) && ops[j] == Ota.Finalize(true)
    && Written(ops[i + 1..j]) == bytes
    && (forall k :: i < k < j ==> !Ota.Closes(ops[k]) && !ops[k].Begin?)
    && (forall k :: j < k < |ops| ==> !ops[k].Abort? && !Ota.Opens(ops[k]) && !ops[k].Write? && !ops[k].Finalize?)
  }

  /** An open update replays to the begin that opened it and the writes since. */
  lemma {:induction false} OpenTrace(ops: seq<Ota.Op>) returns (i: nat)
    requires Ota.FlashAfter(Ota.Closed, ops).Open?
    ensures var f := Ota.FlashAfter(Ota.Closed, ops);
            && i < |ops| && ops[i] == Ota.Begin(f.size, true) && Written(ops[i + 1..]) == f.bytes
            && forall k :: i < k < |ops| ==> !Ota.Closes(ops[k]) && !ops[k].Begin?
    decreases |ops|
  {
    hide Ota.FlashAfter, Written;
    FlashLast(ops);
    var most := ops[..|ops| - 1];
    if Ota.FlashAfter(Ota.Closed, most).Open? {
      i := OpenTrace(most);
      WrittenLast(ops, i);
    } else {
      i := |most|;
      assert ops[i + 1..] == [];
      WrittenNothing();
    }
  }

  lemma FlashLast(ops: seq<Ota.Op>)
    requires Ota.FlashAfter(Ota.Closed, ops).Open?
    ensures ops != []
    ensures Ota.FlashAfter(Ota.Closed, ops) ==
            Ota.FlashStep(Ota.FlashAfter(Ota.Closed, ops[..|ops| - 1]), ops[|ops| - 1])
  {
    hide Ota.FlashStep;
  }

  lemma WrittenLast(ops: seq<Ota.Op>, i: nat)
    requires i + 1 < |ops|
    ensures var most, last := ops[..|ops| - 1], ops[|ops| - 1];
            Written(ops[i + 1..]) == Written(most[i + 1..]) + if last.Write? && last.ok then last.bytes else []
  {
    var most := ops[..|ops| - 1];
    assert ops[i + 1..][..|ops[i + 1..]| - 1] == most[i + 1..];
  }

  lemma WrittenNothing()
    ensures Written([]) == []
  {
  }

  lemma {:induction false} FinalizedTrace(ops: seq<Ota.Op>) returns (i: nat, j: nat)
    requires Ota.FlashAfter(Ota.Closed, ops).Finalized?
    ensures FlashedBetween(ops, i, j, Ota.FlashAfter(Ota.Closed, ops).bytes)
    decreases |ops|
  {
    hide Written, FlashedBetween;
    var most := ops[..|ops| - 1];
    var f := Ota.FlashAfter(Ota.Closed, most);
    if f.Open? {
      i := OpenTrace(most);
      j := |most|;
      JustFinalized(ops, i, f.bytes);
    } else {
      i, j := FinalizedTrace(most);
      StillFinalized(ops, i, j, f.bytes);
    }
  }

  lemma JustFinalized(ops: seq<Ota.Op>, i: nat, bytes: seq<octet>)
    requires ops != [] && ops[|ops| - 1] == Ota.Finalize(true)
    requires var most := ops[..|ops| - 1];
             && i < |most| && most[i] == Ota.Begin(|bytes|, true) && Written(most[i + 1..]) == bytes
             && forall k :: i < k < |most| ==> !Ota.Closes(most[k]) && !most[k].Begin?
    ensures FlashedBetween(ops, i, |ops| - 1, bytes)
  {
    hide Written;
    var j := |ops| - 1;
    assert ops[i + 1..j] == ops[..j][i + 1..];
  }

  lemma StillFinalized(ops: seq<Ota.Op>, i: nat, j: nat, bytes: seq<octet>)
    requires ops != [] && FlashedBetween(ops[..|ops| - 1], i, j, bytes)
    requires var last := ops[|ops| - 1]; !last.Abort? && !Ota.Opens(last) && !last.Write? && !last.Finalize?
    ensures FlashedBetween(ops, i, j, bytes)
  {
    hide Written;
    assert ops[i + 1..j] == ops[..|ops| - 1][i + 1..j];
  }

  /** If the route answered 200, then in every interleaving and for every way the body was
      read: the body is a well-framed form of the announced length, and the bytes written to
      flash between a begin and its successful end are exactly its payload, as many as
      X-Firmware-Size says; nothing has touched the flash since. */
  lemma EndToEnd(states: seq<Sys>, actions: seq<Action>, k: nat)
    requires IsRun(states, actions) && k < |states|
    requires states[k].http.response == Some(200)
    ensures var h := states[k].http;
            exists block, filename, payload, tail, i, j ::
              && |h.body| == h.request.contentLength
              && Spec.Framed(h.request.delimiters, h.body, block, filename, payload, tail)
              && FlashedBetween(states[k].ops, i, j, payload)
              && |payload| == h.request.firmwareSize
  {
    hide Spec.Consume, Ota.AppInv, Ota.FlashAfter, Spec.Framed, FlashedBetween, IsRun;
    RunInv(states, actions, k);
    var s := states[k];
    var h := s.http;
    var filename :| Spec.Parses(h.request.delimiters, h.body, filename, h.delivered);
    var block, tail := Spec.ParsesFramed(h.request.delimiters, h.body, filename, h.delivered);
    var i, j := FinalizedTrace(s.ops);
  }

  // ------------------------------------------------------------ discipline of the session

  /** In every reachable state: no call on the flash was ever out of order, the OTA guard is on
      exactly outside Idle, and every successful begin was closed by exactly one successful end or
      abort, but for the one still open exactly while receiving. */
  lemma SessionDiscipline(states: seq<Sys>, actions: seq<Action>, k: nat, n: nat)
    requires IsRun(states, actions) && k < |states| && n < |states[k].ops|
    ensures var ops := states[k].ops;
            && (ops[n].Abort? || ops[n].Finalize? || ops[n].Write? ==> Ota.OpenBefore(ops, n))
            && (ops[n].Begin? ==> !Ota.OpenBefore(ops, n))
            && (ops[n].Finalize? ==> var f := Ota.FlashAfter(Ota.Closed, ops[..n]); f.Open? && |f.bytes| == f.size)
    ensures Ota.GuardAfter(states[k].ops) <==> states[k].app.state != Ota.Idle
    ensures Ota.OpenBefore(states[k].ops, |states[k].ops|) <==> states[k].app.state == Ota.Receiving
    ensures var ops := states[k].ops;
            Ota.Opens(ops[n]) ==>
              (if Ota.NextEdge(ops, n + 1) == |ops| then states[k].app.state == Ota.Receiving
               else exists m :: Ota.ClosedAt(ops, n, m))
  {
    hide Ota.FlashAfter, IsRun, Ota.OpenBefore, Ota.ClosedAt, Ota.NextEdge;
    RunInv(states, actions, k);
    var ops := states[k].ops;
    Ota.Discipline(ops, n);
    Ota.FlashIsOpen(ops);
    if Ota.Opens(ops[n]) {
      Ota.OpenOrClosed(ops, n);
    }
  }

  /** While a processOne call that began after the cancellation is running, the session can
      only stop being doomed by being released. */
  lemma DoomEndsInRelease(s: Sys, a: Action)
    requires Inv(s) && Enabled(s, a) && s.calls == 1 && Doomed(s) && !Doomed(Do(s, a))
    ensures Do(s, a).bridge.activeGeneration == 0
  {
    hide Ota.FlashAfter, Ota.GuardAfter, Ota.AppInv, Spec.Consume, Log.Fed, Log.Payload, SessionInv, ParserInv,
         ResponseInv;
  }

  lemma DoomCounts(s: Sys, a: Action)
    requires Enabled(s, a) && Doomed(Do(s, a))
    ensures Do(s, a).calls == if a == TakeNext && Doomed(s) then s.calls + 1 else s.calls
  {
    hide Spec.Consume, Log.Fed, Log.Payload, Ota.Perform;
  }

  /** A processOne call that begins on a canceled session not awaiting the restart has
      released it by the time the call is over: with a call already under way when the
      cancellation came, that is within two calls. */
  lemma CanceledIsReleased(states: seq<Sys>, actions: seq<Action>, i: nat, k: nat)
    requires IsRun(states, actions) && i < k < |states|
    requires Doomed(states[i]) && actions[i] == TakeNext && states[k].appPc == Between
    ensures exists m :: i < m <= k && states[m].bridge.activeGeneration == 0
  {
    hide Inv, Enabled, Do, Init, Doomed;
    RunInv(states, actions, k);
    StillDoomed(states, actions, i, k);
    NotBetween(states[k]);
  }

  lemma NotBetween(s: Sys)
    requires Inv(s) && s.appPc == Between
    ensures s.calls == 0
  {
  }

  lemma {:induction false} StillDoomed(states: seq<Sys>, actions: seq<Action>, i: nat, k: nat)
    requires IsRun(states, actions) && i < k < |states|
    requires Doomed(states[i]) && actions[i] == TakeNext
    ensures (exists m :: i < m <= k && states[m].bridge.activeGeneration == 0)
            || (Doomed(states[k]) && states[k].calls >= 1)
    decreases k
  {
    hide Inv, Enabled, Do, Init, Doomed;
    var p, a := states[k - 1], actions[k - 1];
    assert states[k - 1 + 1] == Do(p, a) && Enabled(p, a);
    RunInv(states, actions, k - 1);
    RunInv(states, actions, k);
    if k - 1 > i {
      StillDoomed(states, actions, i, k - 1);
      if m :| i < m <= k - 1 && states[m].bridge.activeGeneration == 0 {
        assert m <= k;
      } else {
        CallsBound(p);
        if Doomed(states[k]) {
          DoomCounts(p, a);
        } else {
          DoomEndsInRelease(p, a);
          assert states[k].bridge.activeGeneration == 0;
        }
      }
    } else {
      TakeStaysDoomed(p);
      DoomCounts(p, a);
    }
  }

  lemma CallsBound(s: Sys)
    requires Inv(s)
    ensures s.calls <= 1
  {
  }

  lemma TakeStaysDoomed(s: Sys)
    requires Doomed(s) && Enabled(s, TakeNext)
    ensures Doomed(Do(s, TakeNext))
  {
  }
}
