/** Every action of either task keeps the invariant. */
module UploadSteps {
  import opened Octets
  import opened UploadBridge
  import Spec = MultipartSpec
  import Log = MultipartLog
  import Ota = OtaApplication
  import opened UploadSystem
  import opened UploadInvariant

  // ------------------------------------------------------------ the facts behind the steps

  lemma AppFacts(a: Ota.App, ops: seq<Ota.Op>)
    requires Ota.AppInv(a, ops)
    ensures a.state in {Ota.Idle, Ota.Receiving, Ota.AwaitingRestart}
    ensures a.generation != 0 <==> a.state != Ota.Idle
    ensures a.received <= a.expected && Ota.GuardAfter(ops) == a.otaGuard
    ensures var f := Ota.FlashAfter(Ota.Closed, ops);
            && (if a.updateBegun then f.Open? else f.Closed? || f.Finalized?)
            && (a.state == Ota.Receiving ==> f.Open? && f.size == a.expected && |f.bytes| == a.received)
  {
  }

  lemma WatchdogKeeps(a: Ota.App, ops: seq<Ota.Op>, now: nat, schedules: bool)
    requires Ota.AppInv(a, ops)
    ensures Ota.AppInv(Ota.Watchdog(a, now, schedules), ops)
  {
  }

  /** A Feed's events have the shape and the payload that the session expects. */
  lemma ReadDelivers(s: Sys, chunk: seq<octet>, events: seq<Log.Event>)
    requires Inv(s) && HttpEnabled(s, Read(chunk, events))
    ensures var h := s.http;
            var r := Spec.Consume(h.request.delimiters, h.phase, chunk);
            var whole := Spec.Consume(h.request.delimiters, Spec.Opening(0), h.body + chunk);
            && EventsShape(events, h.generation)
            && whole.phase == r.phase
            && (!r.phase.Failed? ==> (
              && whole.data == h.delivered + Log.Payload(events)
              && (whole.started <==> h.generation != 0 || events != [])))
  {
    hide Spec.Consume, Log.Payload, Ota.AppInv, Ota.FlashAfter;
    var h := s.http;
    var d := h.request.delimiters;
    var r := Spec.Consume(d, h.phase, chunk);
    var none: seq<Log.Event> := [];
    Log.PayloadOfNothing();
    Spec.ConsumeConcat(d, Spec.Opening(0), h.body, chunk);
    assert none + [Log.Start] == [Log.Start] && none + [] == none;
    assert [] + r.data == r.data;
    if h.generation != 0 {
      if h.phase.Opening? || h.phase.Headers? {
        Spec.SilentBeforeData(d, Spec.Opening(0), h.body);
      } else {
        Spec.NeverRestarts(d, h.phase, chunk);
      }
    } else {
      Spec.SilentUntilStart(d, Spec.Opening(0), h.body);
      if !r.started {
        Spec.SilentUntilStart(d, h.phase, chunk);
        Log.FedSilent(Always(), none, events, r, !r.phase.Failed?);
      }
    }
  }

  /** Executing a command keeps the application's fields, guard and flash in agreement. */
  lemma RunAgrees(s: Sys, env: Ota.Env)
    requires Inv(s) && AppEnabled(s, RunCommand(env))
    ensures var t := RunStep(s, env);
            && Ota.AppInv(t.app, t.ops)
            && (t.appPc.result == NoError ==> t.app.state != Ota.Idle)
            && (t.appPc.command.kind == ArmRestart && s.app.state == Ota.AwaitingRestart ==>
                  t.app == s.app.(restartArmed := t.app.restartArmed) && FlashOf(t) == FlashOf(s))
  {
    hide Ota.FlashAfter, Ota.GuardAfter;
    var c := s.appPc.command;
    var canceled := CancellationRequested(s.bridge, c.generation);
    Ota.PerformKeeps(s.app, s.ops, c, s.bridge.data[..c.length], env, s.appPc.refuse, canceled);
    assert s.ops + [] == s.ops;
  }

  /** Executed for a waiting HTTPD, a command takes the session one step further, or fails. */
  lemma RunExecutes(s: Sys, env: Ota.Env)
    requires Inv(s) && AppEnabled(s, RunCommand(env))
    requires Waiting(s.http)
    ensures var t := RunStep(s, env); t.appPc.result == NoError ==> After(t, s.http.pc.job)
  {
    hide Ota.FlashAfter, Ota.GuardAfter, Ota.AppInv, Ota.ExecuteStart, Ota.ExecuteChunk, Ota.ExecuteEnd, Spec.Consume;
    var c := s.appPc.command;
    var job := s.http.pc.job;
    var bytes := s.bridge.data[..c.length];
    AppFacts(s.app, s.ops);
    assert c == JobCommand(s.http, job);
    assert job.kind == SendChunk ==> bytes == job.bytes;
    match job.kind
    case StartUpload => Ota.StartKeeps(s.app, s.ops, c, env, false);
    case SendChunk => Ota.ChunkKeeps(s.app, s.ops, bytes, env, false);
    case EndUpload => Ota.EndKeeps(s.app, s.ops, env);
    case ArmRestart => assert s.ops + [] == s.ops;
  }

  lemma AnswerUploaded(s: Sys)
    requires Inv(s) && AtEnd(s.http)
    ensures Uploaded(s.http)
  {
    hide Spec.Consume, Ota.AppInv, Ota.FlashAfter;
    var h := s.http;
    Log.PayloadOfNothing();
    var filename := Spec.Finish(h.phase).value;
    assert h.delivered + ([] + []) == h.delivered;
    assert Spec.Parses(h.request.delimiters, h.body, filename, h.delivered);
  }

  // ------------------------------------------------------------ HTTPD task

  lemma AcceptKeeps(s: Sys, r: Request)
    requires Inv(s) && HttpEnabled(s, Accept(r))
    ensures Inv(Do(s, Accept(r)))
  {
    hide Ota.FlashAfter, Ota.GuardAfter, Ota.AppInv, Spec.Consume, Log.Fed, Log.Payload;
    Spec.ConsumeNothing(r.delimiters, Spec.Opening(0));
    Log.PayloadOfNothing();
  }

  lemma RefuseKeeps(s: Sys, n: nat)
    requires Inv(s) && HttpEnabled(s, Refuse(n))
    ensures Inv(Do(s, Refuse(n)))
  {
    hide Ota.FlashAfter, Ota.GuardAfter, Ota.AppInv, Spec.Consume, Log.Fed, Log.Payload;
  }

  lemma ReadKeeps(s: Sys, chunk: seq<octet>, events: seq<Log.Event>)
    requires Inv(s) && HttpEnabled(s, Read(chunk, events))
    ensures Inv(Do(s, Read(chunk, events)))
  {
    hide Ota.FlashAfter, Ota.GuardAfter, Ota.AppInv, Spec.Consume, Log.Fed, Log.Payload;
    ReadDelivers(s, chunk, events);
  }

  lemma ReadExpiredKeeps(s: Sys)
    requires Inv(s) && HttpEnabled(s, ReadExpired)
    ensures Inv(Do(s, ReadExpired))
  {
    hide Ota.FlashAfter, Ota.GuardAfter, Ota.AppInv, Spec.Consume, Log.Fed, Log.Payload;
  }

  lemma AbortReadKeeps(s: Sys, b: bool)
    requires Inv(s) && HttpEnabled(s, AbortRead(b))
    ensures Inv(Do(s, AbortRead(b)))
  {
    hide Ota.FlashAfter, Ota.GuardAfter, Ota.AppInv, Spec.Consume, Log.Fed, Log.Payload;
  }

  lemma DeliverKeepsLinks(s: Sys)
    requires Inv(s) && HttpEnabled(s, Deliver)
    ensures var t := Do(s, Deliver); BridgeInv(t.bridge) && AppLink(t) && HttpLink(t)
  {
    hide Ota.FlashAfter, Ota.GuardAfter, Ota.AppInv, Spec.Consume, Log.Fed, Log.Payload;
    Log.PayloadOfNothing();
    AppFacts(s.app, s.ops);
    var h := s.http;
    if h.pc.events != [] {
      Log.PayloadFirst(h.pc.events);
      assert [] + Log.Payload(h.pc.events[1..]) == Log.Payload(h.pc.events[1..]);
    }
  }

  lemma DeliverKeepsDoom(s: Sys)
    requires Inv(s) && HttpEnabled(s, Deliver)
    ensures var t := Do(s, Deliver); DoomInv(t)
  {
    hide Ota.FlashAfter, Ota.GuardAfter, Ota.AppInv, Spec.Consume, Log.Fed, Log.Payload;
    Log.PayloadOfNothing();
    AppFacts(s.app, s.ops);
    var h := s.http;
    if h.pc.events != [] {
      Log.PayloadFirst(h.pc.events);
      assert [] + Log.Payload(h.pc.events[1..]) == Log.Payload(h.pc.events[1..]);
    }
  }

  lemma DeliverKeepsSession(s: Sys)
    requires Inv(s) && HttpEnabled(s, Deliver)
    ensures var t := Do(s, Deliver); SessionInv(t)
  {
    hide Ota.FlashAfter, Ota.GuardAfter, Ota.AppInv, Spec.Consume, Log.Fed, Log.Payload;
    Log.PayloadOfNothing();
    AppFacts(s.app, s.ops);
    var h := s.http;
    if h.pc.events != [] {
      Log.PayloadFirst(h.pc.events);
      assert [] + Log.Payload(h.pc.events[1..]) == Log.Payload(h.pc.events[1..]);
    }
  }

  lemma DeliverEventKeepsParser(s: Sys)
    requires Inv(s) && HttpEnabled(s, Deliver) && s.http.pc.events != []
    ensures ParserInv(Do(s, Deliver))
  {
    hide Ota.FlashAfter, Ota.GuardAfter, Ota.AppInv, Spec.Consume, Log.Fed, Log.Payload,
         BridgeInv, AppLink, DoomInv, ResponseInv, SessionInv;
    Log.PayloadOfNothing();
    Log.PayloadFirst(s.http.pc.events);
    assert [] + Log.Payload(s.http.pc.events[1..]) == Log.Payload(s.http.pc.events[1..]);
  }

  lemma DeliverNothingKeepsParser(s: Sys)
    requires Inv(s) && HttpEnabled(s, Deliver) && s.http.pc.events == []
    ensures ParserInv(Do(s, Deliver))
  {
    hide Ota.FlashAfter, Ota.GuardAfter, Ota.AppInv, Spec.Consume, Log.Fed, Log.Payload,
         BridgeInv, AppLink, DoomInv, ResponseInv, SessionInv;
    Log.PayloadOfNothing();
  }

  lemma DeliverKeepsParser(s: Sys)
    requires Inv(s) && HttpEnabled(s, Deliver)
    ensures var t := Do(s, Deliver); ParserInv(t)
  {
    hide Inv, Do, ParserInv;
    if s.http.pc.events == [] {
      DeliverNothingKeepsParser(s);
    } else {
      DeliverEventKeepsParser(s);
    }
  }

  lemma DeliverKeepsResponse(s: Sys)
    requires Inv(s) && HttpEnabled(s, Deliver)
    ensures var t := Do(s, Deliver); ResponseInv(t)
  {
    hide Ota.FlashAfter, Ota.GuardAfter, Ota.AppInv, Spec.Consume, Log.Fed, Log.Payload;
    Log.PayloadOfNothing();
    AppFacts(s.app, s.ops);
    var h := s.http;
    if h.pc.events != [] {
      Log.PayloadFirst(h.pc.events);
      assert [] + Log.Payload(h.pc.events[1..]) == Log.Payload(h.pc.events[1..]);
    }
  }

  lemma DeliverKeeps(s: Sys)
    requires Inv(s) && HttpEnabled(s, Deliver)
    ensures Inv(Do(s, Deliver))
  {
    hide Ota.AppInv, BridgeInv, AppLink, HttpLink, DoomInv, SessionInv, ParserInv, ResponseInv;
    DeliverKeepsLinks(s);
    DeliverKeepsDoom(s);
    DeliverKeepsSession(s);
    DeliverKeepsParser(s);
    DeliverKeepsResponse(s);
  }

  lemma ExpireKeeps(s: Sys)
    requires Inv(s) && HttpEnabled(s, Expire)
    ensures Inv(Do(s, Expire))
  {
    hide Ota.FlashAfter, Ota.GuardAfter, Ota.AppInv, Spec.Consume, Log.Fed, Log.Payload;
  }

  lemma SubmitNowKeepsLinks(s: Sys, b: bool)
    requires Inv(s) && HttpEnabled(s, SubmitNow(b))
    ensures var t := Do(s, SubmitNow(b));
            BridgeInv(t.bridge) && Ota.AppInv(t.app, t.ops) && AppLink(t) && HttpLink(t) && DoomInv(t)
  {
    hide Ota.FlashAfter, Ota.GuardAfter, Ota.AppInv, Spec.Consume, Log.Fed, Log.Payload, ParserInv, ResponseInv;
  }

  lemma SubmitNowKeepsRest(s: Sys, b: bool)
    requires Inv(s) && HttpEnabled(s, SubmitNow(b))
    ensures var t := Do(s, SubmitNow(b));
            SessionInv(t) && ParserInv(t) && ResponseInv(t)
  {
    hide Ota.FlashAfter, Ota.GuardAfter, Ota.AppInv, Spec.Consume, Log.Fed, Log.Payload, DoomInv;
  }

  lemma SubmitNowKeeps(s: Sys, b: bool)
    requires Inv(s) && HttpEnabled(s, SubmitNow(b))
    ensures Inv(Do(s, SubmitNow(b)))
  {
    hide Inv, Do;
    SubmitNowKeepsLinks(s, b);
    SubmitNowKeepsRest(s, b);
    InvParts(Do(s, SubmitNow(b)));
  }

  lemma EnterNowKeepsLinks(s: Sys)
    requires Inv(s) && HttpEnabled(s, EnterNow)
    ensures var t := Do(s, EnterNow); BridgeInv(t.bridge) && AppLink(t) && HttpLink(t)
  {
    hide Ota.FlashAfter, Ota.GuardAfter, Ota.AppInv, Spec.Consume, Log.Fed, Log.Payload;
  }

  lemma EnterNowKeepsDoom(s: Sys)
    requires Inv(s) && HttpEnabled(s, EnterNow)
    ensures var t := Do(s, EnterNow); DoomInv(t)
  {
    hide Ota.FlashAfter, Ota.GuardAfter, Ota.AppInv, Spec.Consume, Log.Fed, Log.Payload;
  }

  lemma EnterNowKeepsSession(s: Sys)
    requires Inv(s) && HttpEnabled(s, EnterNow)
    ensures var t := Do(s, EnterNow); SessionInv(t)
  {
    hide Ota.FlashAfter, Ota.GuardAfter, Ota.AppInv, Spec.Consume, Log.Fed, Log.Payload;
  }

  lemma EnterNowKeepsParser(s: Sys)
    requires Inv(s) && HttpEnabled(s, EnterNow)
    ensures var t := Do(s, EnterNow); ParserInv(t)
  {
    hide Ota.FlashAfter, Ota.GuardAfter, Ota.AppInv, Spec.Consume, Log.Fed, Log.Payload;
  }

  lemma EnterNowKeepsResponse(s: Sys)
    requires Inv(s) && HttpEnabled(s, EnterNow)
    ensures var t := Do(s, EnterNow); ResponseInv(t)
  {
    hide Ota.FlashAfter, Ota.GuardAfter, Ota.AppInv, Spec.Consume, Log.Fed, Log.Payload;
  }

  lemma EnterNowKeeps(s: Sys)
    requires Inv(s) && HttpEnabled(s, EnterNow)
    ensures Inv(Do(s, EnterNow))
  {
    hide Ota.AppInv, BridgeInv, AppLink, HttpLink, DoomInv, SessionInv, ParserInv, ResponseInv;
    EnterNowKeepsLinks(s);
    EnterNowKeepsDoom(s);
    EnterNowKeepsSession(s);
    EnterNowKeepsParser(s);
    EnterNowKeepsResponse(s);
  }

  lemma WakeKeeps(s: Sys, w: WaitStatus)
    requires Inv(s) && HttpEnabled(s, Wake(w))
    ensures Inv(Do(s, Wake(w)))
  {
    hide Ota.FlashAfter, Ota.GuardAfter, Ota.AppInv, Spec.Consume, Log.Fed, Log.Payload;
  }

  lemma LeaveNowKeepsLinks(s: Sys)
    requires Inv(s) && HttpEnabled(s, LeaveNow)
    ensures var t := Do(s, LeaveNow); BridgeInv(t.bridge) && AppLink(t) && HttpLink(t)
  {
    hide Ota.FlashAfter, Ota.GuardAfter, Ota.AppInv, Spec.Consume, Log.Fed, Log.Payload;
  }

  lemma LeaveNowKeepsDoom(s: Sys)
    requires Inv(s) && HttpEnabled(s, LeaveNow)
    ensures var t := Do(s, LeaveNow); DoomInv(t)
  {
    hide Ota.FlashAfter, Ota.GuardAfter, Ota.AppInv, Spec.Consume, Log.Fed, Log.Payload;
  }

  lemma LeaveNowKeepsSession(s: Sys)
    requires Inv(s) && HttpEnabled(s, LeaveNow)
    ensures var t := Do(s, LeaveNow); SessionInv(t)
  {
    hide Ota.FlashAfter, Ota.GuardAfter, Ota.AppInv, Spec.Consume, Log.Fed, Log.Payload;
  }

  lemma LeaveNowKeepsParser(s: Sys)
    requires Inv(s) && HttpEnabled(s, LeaveNow)
    ensures var t := Do(s, LeaveNow); ParserInv(t)
  {
    hide Ota.FlashAfter, Ota.GuardAfter, Ota.AppInv, Spec.Consume, Log.Fed, Log.Payload;
  }

  lemma LeaveNowKeepsResponse(s: Sys)
    requires Inv(s) && HttpEnabled(s, LeaveNow)
    ensures var t := Do(s, LeaveNow); ResponseInv(t)
  {
    hide Ota.FlashAfter, Ota.GuardAfter, Ota.AppInv, Spec.Consume, Log.Fed, Log.Payload;
  }

  lemma LeaveNowKeeps(s: Sys)
    requires Inv(s) && HttpEnabled(s, LeaveNow)
    ensures Inv(Do(s, LeaveNow))
  {
    hide Ota.AppInv, BridgeInv, AppLink, HttpLink, DoomInv, SessionInv, ParserInv, ResponseInv;
    LeaveNowKeepsLinks(s);
    LeaveNowKeepsDoom(s);
    LeaveNowKeepsSession(s);
    LeaveNowKeepsParser(s);
    LeaveNowKeepsResponse(s);
  }

  lemma AnswerKeepsLinks(s: Sys, b: bool)
    requires Inv(s) && HttpEnabled(s, Answer(b))
    ensures var t := Do(s, Answer(b)); BridgeInv(t.bridge) && AppLink(t) && HttpLink(t)
  {
    hide Ota.FlashAfter, Ota.GuardAfter, Ota.AppInv, Spec.Consume, Log.Fed, Log.Payload, SessionInv, ParserInv,
         ResponseInv, DoomInv;
  }

  lemma AnswerKeepsDoom(s: Sys, b: bool)
    requires Inv(s) && HttpEnabled(s, Answer(b))
    ensures var t := Do(s, Answer(b)); DoomInv(t)
  {
    hide Ota.FlashAfter, Ota.GuardAfter, Ota.AppInv, Spec.Consume, Log.Fed, Log.Payload;
    Log.PayloadOfNothing();
    if AtEnd(s.http) {
      AnswerUploaded(s);
    }
  }

  lemma AnswerKeepsSession(s: Sys, b: bool)
    requires Inv(s) && HttpEnabled(s, Answer(b))
    ensures var t := Do(s, Answer(b)); SessionInv(t)
  {
    hide Ota.FlashAfter, Ota.GuardAfter, Ota.AppInv, Spec.Consume, Log.Fed, Log.Payload;
    Log.PayloadOfNothing();
    if AtEnd(s.http) {
      AnswerUploaded(s);
    }
  }

  lemma HttpJob(s: Sys)
    requires HttpLink(s) && s.http.pc.Working?
    ensures JobShape(s.http.pc.job)
  {
  }

  lemma NoEventsShape(generation: nat)
    ensures EventsShape([], generation)
  {
  }

  lemma AnswerKeepsParser(s: Sys, b: bool)
    requires Inv(s) && HttpEnabled(s, Answer(b))
    ensures var t := Do(s, Answer(b)); ParserInv(t)
  {
    hide Ota.FlashAfter, Ota.GuardAfter, Ota.AppInv, Spec.Consume, Log.Fed, Log.Payload;
    hide BridgeInv, AppLink, HttpLink, DoomInv, SessionInv, ResponseInv, EventsShape, StatusOf, CancelsAfter;
    Log.PayloadOfNothing();
    NoEventsShape(s.http.generation);
    var h := s.http;
    var job := h.pc.job;
    assert h.delivered + job.bytes + Log.Payload(job.rest) == h.delivered + (job.bytes + Log.Payload(job.rest));
    assert h.delivered + ([] + Log.Payload(job.rest)) == h.delivered + Log.Payload(job.rest);
    HttpJob(s);
  }

  lemma AnswerKeepsResponse(s: Sys, b: bool)
    requires Inv(s) && HttpEnabled(s, Answer(b))
    ensures var t := Do(s, Answer(b)); ResponseInv(t)
  {
    hide Ota.FlashAfter, Ota.GuardAfter, Ota.AppInv, Spec.Consume, Log.Fed, Log.Payload;
    Log.PayloadOfNothing();
    if AtEnd(s.http) {
      AnswerUploaded(s);
    }
  }

  lemma AnswerKeeps(s: Sys, b: bool)
    requires Inv(s) && HttpEnabled(s, Answer(b))
    ensures Inv(Do(s, Answer(b)))
  {
    hide Ota.AppInv, BridgeInv, AppLink, HttpLink, DoomInv, SessionInv, ParserInv, ResponseInv;
    AnswerKeepsLinks(s, b);
    AnswerKeepsDoom(s, b);
    AnswerKeepsSession(s, b);
    AnswerKeepsParser(s, b);
    AnswerKeepsResponse(s, b);
  }

  lemma EndBodyKeepsLinks(s: Sys, b: bool)
    requires Inv(s) && HttpEnabled(s, EndBody(b))
    ensures var t := Do(s, EndBody(b));
            BridgeInv(t.bridge) && Ota.AppInv(t.app, t.ops) && AppLink(t) && HttpLink(t) && DoomInv(t)
  {
    hide Ota.FlashAfter, Ota.GuardAfter, Ota.AppInv, Spec.Consume, Log.Fed, Log.Payload, SessionInv, ParserInv,
         ResponseInv;
  }

  lemma EndBodyKeepsRest(s: Sys, b: bool)
    requires Inv(s) && HttpEnabled(s, EndBody(b))
    ensures var t := Do(s, EndBody(b));
            SessionInv(t) && ParserInv(t) && ResponseInv(t)
  {
    hide Ota.FlashAfter, Ota.GuardAfter, Ota.AppInv, Spec.Consume, Log.Fed, Log.Payload, AppLink, DoomInv;
    Log.PayloadOfNothing();
  }

  lemma EndBodyKeeps(s: Sys, b: bool)
    requires Inv(s) && HttpEnabled(s, EndBody(b))
    ensures Inv(Do(s, EndBody(b)))
  {
    hide Inv, Do;
    EndBodyKeepsLinks(s, b);
    EndBodyKeepsRest(s, b);
    InvParts(Do(s, EndBody(b)));
  }

  lemma InvParts(s: Sys)
    requires BridgeInv(s.bridge) && Ota.AppInv(s.app, s.ops) && AppLink(s) && HttpLink(s)
    requires SessionInv(s) && ParserInv(s) && ResponseInv(s) && DoomInv(s)
    ensures Inv(s)
  {
  }

  /** The response's part does not see where the application task is. */
  lemma SameResponse(s: Sys, t: Sys)
    requires t.http == s.http && t.bridge == s.bridge && t.app == s.app && t.ops == s.ops
    ensures ResponseInv(t) == ResponseInv(s)
  {
    hide Ota.FlashAfter, Spec.Consume;
  }

  /** The parser's part speaks of the HTTPD task alone. */
  lemma SameParser(s: Sys, t: Sys)
    requires t.http == s.http
    ensures ParserInv(t) == ParserInv(s)
  {
  }

  lemma CancelNowKeeps(s: Sys)
    requires Inv(s) && HttpEnabled(s, CancelNow)
    ensures Inv(Do(s, CancelNow))
  {
    hide Ota.FlashAfter, Ota.GuardAfter, Ota.AppInv, Spec.Consume, Log.Fed, Log.Payload;
  }

  lemma TakeNextKeeps(s: Sys)
    requires Inv(s) && AppEnabled(s, TakeNext)
    ensures Inv(Do(s, TakeNext))
  {
    hide Ota.FlashAfter, Ota.GuardAfter, Ota.AppInv, Spec.Consume, Log.Fed, Log.Payload, ParserInv;
    SameParser(s, Do(s, TakeNext));
  }

  lemma CheckCancelKeeps(s: Sys)
    requires Inv(s) && AppEnabled(s, CheckCancel)
    ensures Inv(Do(s, CheckCancel))
  {
    hide Ota.FlashAfter, Ota.GuardAfter, Ota.AppInv, Spec.Consume, Log.Fed, Log.Payload, ParserInv, ResponseInv;
    SameParser(s, Do(s, CheckCancel));
    SameResponse(s, Do(s, CheckCancel));
  }

  lemma RunCommandKeepsLinks(s: Sys, env: Ota.Env)
    requires Inv(s) && AppEnabled(s, RunCommand(env))
    ensures var t := Do(s, RunCommand(env)); BridgeInv(t.bridge) && AppLink(t) && HttpLink(t)
  {
    hide Ota.FlashAfter, Ota.GuardAfter, Ota.AppInv, Spec.Consume, Log.Fed, Log.Payload;
    AppFacts(s.app, s.ops);
    RunAgrees(s, env);
    if Waiting(s.http) {
      RunExecutes(s, env);
    }
  }

  lemma RunCommandKeepsDoom(s: Sys, env: Ota.Env)
    requires Inv(s) && AppEnabled(s, RunCommand(env))
    ensures var t := Do(s, RunCommand(env)); DoomInv(t)
  {
    hide Ota.FlashAfter, Ota.GuardAfter, Ota.AppInv, Spec.Consume, Log.Fed, Log.Payload;
    AppFacts(s.app, s.ops);
    RunAgrees(s, env);
    if Waiting(s.http) {
      RunExecutes(s, env);
    }
  }

  lemma RunCommandKeepsSession(s: Sys, env: Ota.Env)
    requires Inv(s) && AppEnabled(s, RunCommand(env))
    ensures var t := Do(s, RunCommand(env)); SessionInv(t)
  {
    hide Ota.FlashAfter, Ota.GuardAfter, Ota.AppInv, Spec.Consume, Log.Fed, Log.Payload;
    AppFacts(s.app, s.ops);
    RunAgrees(s, env);
    if Waiting(s.http) {
      RunExecutes(s, env);
    }
  }

  lemma RunCommandKeepsParser(s: Sys, env: Ota.Env)
    requires Inv(s) && AppEnabled(s, RunCommand(env))
    ensures var t := Do(s, RunCommand(env)); ParserInv(t)
  {
    hide Ota.FlashAfter, Ota.GuardAfter, Ota.AppInv, Spec.Consume, Log.Fed, Log.Payload;
    AppFacts(s.app, s.ops);
    RunAgrees(s, env);
    if Waiting(s.http) {
      RunExecutes(s, env);
    }
  }

  lemma RunCommandKeepsResponse(s: Sys, env: Ota.Env)
    requires Inv(s) && AppEnabled(s, RunCommand(env))
    ensures var t := Do(s, RunCommand(env)); ResponseInv(t)
  {
    hide Ota.FlashAfter, Ota.GuardAfter, Ota.AppInv, Spec.Consume, Log.Fed, Log.Payload;
    AppFacts(s.app, s.ops);
    RunAgrees(s, env);
    if Waiting(s.http) {
      RunExecutes(s, env);
    }
  }

  lemma RunCommandKeeps(s: Sys, env: Ota.Env)
    requires Inv(s) && AppEnabled(s, RunCommand(env))
    ensures Inv(Do(s, RunCommand(env)))
  {
    hide Ota.AppInv, BridgeInv, AppLink, HttpLink, DoomInv, SessionInv, ParserInv, ResponseInv;
    RunCommandKeepsLinks(s, env);
    RunCommandKeepsDoom(s, env);
    RunCommandKeepsSession(s, env);
    RunCommandKeepsParser(s, env);
    RunCommandKeepsResponse(s, env);
    RunAgrees(s, env);
  }

  lemma CompleteNowKeeps(s: Sys, b: bool)
    requires Inv(s) && AppEnabled(s, CompleteNow(b))
    ensures Inv(Do(s, CompleteNow(b)))
  {
    hide Ota.FlashAfter, Ota.GuardAfter, Ota.AppInv, Spec.Consume, Log.Fed, Log.Payload;
  }

  lemma ReleaseNowKeeps(s: Sys)
    requires Inv(s) && AppEnabled(s, ReleaseNow)
    ensures Inv(Do(s, ReleaseNow))
  {
    hide Ota.FlashAfter, Ota.GuardAfter, Ota.AppInv, Spec.Consume, Log.Fed, Log.Payload;
  }

  lemma LookKeeps(s: Sys)
    requires Inv(s) && AppEnabled(s, Look)
    ensures Inv(Do(s, Look))
  {
    hide Ota.FlashAfter, Ota.GuardAfter, Ota.AppInv, Spec.Consume, Log.Fed, Log.Payload, ParserInv, ResponseInv;
    SameParser(s, Do(s, Look));
    SameResponse(s, Do(s, Look));
    AppFacts(s.app, s.ops);
  }

  lemma CleanNowKeeps(s: Sys)
    requires Inv(s) && AppEnabled(s, CleanNow)
    ensures Inv(Do(s, CleanNow))
  {
    hide Ota.FlashAfter, Ota.GuardAfter, Ota.AppInv, Spec.Consume, Log.Fed, Log.Payload, ParserInv;
    SameParser(s, Do(s, CleanNow));
    AppFacts(s.app, s.ops);
    Ota.CleanupCloses(s.app, s.ops);
  }

  lemma ProbeKeeps(s: Sys)
    requires Inv(s) && AppEnabled(s, Probe)
    ensures Inv(Do(s, Probe))
  {
    hide Ota.FlashAfter, Ota.GuardAfter, Ota.AppInv, Spec.Consume, Log.Fed, Log.Payload, ParserInv, ResponseInv;
    SameParser(s, Do(s, Probe));
    SameResponse(s, Do(s, Probe));
  }

  lemma CheckProbedKeeps(s: Sys)
    requires Inv(s) && AppEnabled(s, CheckProbed)
    ensures Inv(Do(s, CheckProbed))
  {
    hide Ota.FlashAfter, Ota.GuardAfter, Ota.AppInv, Spec.Consume, Log.Fed, Log.Payload, ParserInv, ResponseInv;
    SameParser(s, Do(s, CheckProbed));
    SameResponse(s, Do(s, CheckProbed));
  }

  lemma FreeNowKeeps(s: Sys)
    requires Inv(s) && AppEnabled(s, FreeNow)
    ensures Inv(Do(s, FreeNow))
  {
    hide Ota.FlashAfter, Ota.GuardAfter, Ota.AppInv, Spec.Consume, Log.Fed, Log.Payload, ParserInv;
    SameParser(s, Do(s, FreeNow));
  }

  lemma WatchKeeps(s: Sys, n: nat, b: bool)
    requires Inv(s) && AppEnabled(s, Watch(n, b))
    ensures Inv(Do(s, Watch(n, b)))
  {
    hide Ota.FlashAfter, Ota.GuardAfter, Ota.AppInv, Spec.Consume, Log.Fed, Log.Payload, ParserInv;
    SameParser(s, Do(s, Watch(n, b)));
    AppFacts(s.app, s.ops);
    WatchdogKeeps(s.app, s.ops, n, b);
  }
}
