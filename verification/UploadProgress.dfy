/** A well-formed upload can succeed: every acceptable form has a run that ends in a 200. Also: what
    the route receives from the parser is what the parser's class delivers. */
module UploadProgress {
  import opened Octets
  import opened UploadBridge
  import Spec = MultipartSpec
  import Log = MultipartLog
  import Ota = OtaApplication
  import opened UploadSystem

  // ------------------------------------------------------------ the parser's events

  lemma {:induction false} PayloadConcat(a: seq<Log.Event>, b: seq<Log.Event>)
    ensures Log.Payload(a + b) == Log.Payload(a) + Log.Payload(b)
    decreases |b|
  {
    hide Log.Payload;
    if b == [] {
      Log.PayloadOfNothing();
      assert a + b == a;
    } else {
      var most, last := b[..|b| - 1], b[|b| - 1];
      assert b == most + [last] && a + b == (a + most) + [last];
      PayloadConcat(a, most);
      Log.PayloadAppend(most, last);
      Log.PayloadAppend(a + most, last);
    }
  }

  /** The bytes cut into the largest chunks a callback takes. */
  function Pieces(bytes: seq<octet>): (events: seq<Log.Event>)
    ensures Log.BoundedChunks(events, 0)
  {
    if bytes == [] then []
    else if |bytes| <= Log.MAX_CHUNK then [Log.Chunk(bytes)]
    else [Log.Chunk(bytes[..Log.MAX_CHUNK])] + Pieces(bytes[Log.MAX_CHUNK..])
  }

  lemma {:induction false} PiecesDeliver(bytes: seq<octet>)
    ensures Log.Payload(Pieces(bytes)) == bytes
    decreases |bytes|
  {
    hide Log.Payload;
    Log.PayloadOfNothing();
    if bytes != [] {
      var head := if |bytes| <= Log.MAX_CHUNK then bytes else bytes[..Log.MAX_CHUNK];
      var tail := if |bytes| <= Log.MAX_CHUNK then [] else bytes[Log.MAX_CHUNK..];
      assert Pieces(bytes) == [Log.Chunk(head)] + Pieces(tail);
      Log.PayloadAppend([], Log.Chunk(head));
      assert [] + [Log.Chunk(head)] == [Log.Chunk(head)];
      PiecesDeliver(tail);
      PayloadConcat([Log.Chunk(head)], Pieces(tail));
    }
  }

  /** A log that starts and then delivers all the data is one that a feed may produce. */
  lemma WholeLog(events: seq<Log.Event>, r: Spec.Progress)
    requires var base := if r.started then [Log.Start] else [];
             base <= events && Log.BoundedChunks(events, |base|)
    requires Log.Payload(events) == r.data
    ensures Log.Fed(Always(), [], events, r, !r.phase.Failed?)
  {
    hide Log.Payload, Log.BoundedChunks;
    Log.PayloadOfNothing();
    assert [] + [Log.Start] == [Log.Start];
    assert [] + r.data == r.data;
  }

  lemma SentPart(accepts: Log.Policy, before: seq<Log.Event>, after: seq<Log.Event>, r: Spec.Progress, ok: bool)
    requires Log.Fed(accepts, before, after, r, ok)
    ensures before <= after && after == before + after[|before|..]
    ensures var base := if r.started then [Log.Start] else [];
            var sent := after[|before|..];
            base <= sent && Log.BoundedChunks(sent, |base|)
  {
    hide Log.Payload, Log.StopsAtRefusal, Log.Accepted;
    var base := if r.started then [Log.Start] else [];
    var sent := after[|before|..];
    assert before + base <= after;
    assert forall i :: 0 <= i < |sent| ==> sent[i] == after[|before| + i];
  }

  lemma SentPayload(accepts: Log.Policy, before: seq<Log.Event>, after: seq<Log.Event>, r: Spec.Progress, ok: bool)
    requires Log.Fed(accepts, before, after, r, ok)
    ensures before <= after
    ensures var sent := Log.Payload(after[|before|..]);
            sent <= r.data && (ok ==> sent == r.data)
  {
    hide Log.Payload, Log.StopsAtRefusal, Log.Accepted, Log.BoundedChunks;
    SentPart(accepts, before, after, r, ok);
    var sent := after[|before|..];
    PayloadConcat(before, sent);
    var p, q := Log.Payload(before), Log.Payload(sent);
    assert p + q <= p + r.data;
    assert (p + r.data)[|p|..] == r.data && (p + q)[|p|..] == q;
  }

  /** Whatever its sink refuses, what a feed sends is the head of a log in which nothing is refused:
      the events that the route of this model delivers one by one. */
  lemma FeedIsModelled(accepts: Log.Policy, before: seq<Log.Event>, after: seq<Log.Event>, r: Spec.Progress, ok: bool)
    returns (events: seq<Log.Event>)
    requires Log.Fed(accepts, before, after, r, ok)
    ensures before <= after && after[|before|..] <= events
    ensures ok ==> events == after[|before|..]
    ensures Log.Fed(Always(), [], events, r, !r.phase.Failed?)
  {
    hide Log.Payload, Log.Fed, Pieces;
    SentPart(accepts, before, after, r, ok);
    SentPayload(accepts, before, after, r, ok);
    var sent := after[|before|..];
    var rest := r.data[|Log.Payload(sent)|..];
    var more := Pieces(rest);
    PiecesDeliver(rest);
    PayloadConcat(sent, more);
    events := sent + more;
    assert forall i :: |sent| <= i < |events| ==> events[i] == more[i - |sent|];
    WholeLog(events, r);
    if ok {
      assert rest == [];
      NoPieces();
    }
  }

  lemma NoPieces()
    ensures Pieces([]) == []
  {
  }

  // ------------------------------------------------------------ running without disturbance

  ghost function Go(s: Sys, actions: seq<Action>): Option<Sys>
    decreases |actions|
  {
    if actions == [] then Some(s)
    else if !Enabled(s, actions[0]) then None
    else Go(Do(s, actions[0]), actions[1..])
  }

  lemma {:induction false} GoOn(s: Sys, a: seq<Action>, b: seq<Action>)
    requires Go(s, a).Some?
    ensures Go(s, a + b) == Go(Go(s, a).value, b)
    decreases |a|
  {
    hide Enabled, Do;
    if a == [] {
      assert a + b == b;
    } else {
      assert (a + b)[0] == a[0] && (a + b)[1..] == a[1..] + b;
      GoOn(Do(s, a[0]), a[1..], b);
    }
  }

  lemma GoOne(s: Sys, a: Action)
    requires Enabled(s, a)
    ensures Go(s, [a]) == Some(Do(s, a))
  {
    hide Enabled, Do;
    assert [a][1..] == [];
  }

  /** Between commands: the slot is free, nothing is canceled, and the application task rests. */
  predicate Calm(s: Sys) {
    && s.appPc == Between && |s.bridge.data| == CAPACITY && s.bridge.state == Free
    && !s.bridge.cancelRequested && s.calls == 0
  }

  /** The session is HTTPD's, and the application works on it. */
  predicate Session(s: Sys) {
    && Calm(s) && s.http.generation != 0 && s.bridge.activeGeneration == s.http.generation
    && s.app.received <= s.app.expected
  }

  const KIND_ENV := Ota.Env(false, UINT32_MAX, true, 0, true, 0, true)

  /** The environment in which nothing goes wrong with this command. */
  function KindEnv(job: Job): Ota.Env {
    KIND_ENV.(written := |job.bytes|)
  }

  function Round(env: Ota.Env): seq<Action> {
    [SubmitNow(true), TakeNext, CheckCancel, RunCommand(env), CompleteNow(true), EnterNow, Answer(false)]
  }

  function RanApp(s: Sys, job: Job): Ota.Outcome
    requires s.app.received <= s.app.expected
  {
    Ota.Execute(s.app, JobCommand(s.http, job), job.bytes, KindEnv(job), false)
  }

  /** The state after one command was handed over, carried out and answered. */
  function AfterRound(s: Sys, job: Job): Sys
    requires s.app.received <= s.app.expected && |s.bridge.data| == CAPACITY
    requires job.kind == SendChunk ==> |job.bytes| <= CAPACITY
  {
    var c := JobCommand(s.http, job);
    var o := RanApp(s, job);
    var data := if job.kind == SendChunk then job.bytes + s.bridge.data[c.length..] else s.bridge.data;
    var bridge := s.bridge.(command := c, data := data, result := NoError, state := Free, waiterAttached := false,
                            signal := true);
    var answered := s.(http := s.http.(pc := Working(Answered(NoError), job)), app := o.app, ops := s.ops + o.ops,
                       bridge := bridge);
    AnswerStep(answered, false)
  }

  predicate ReadyFor(s: Sys, job: Job) {
    && Session(s) && s.http.pc == Working(Submitting, job)
    && WellFormed(JobCommand(s.http, job), job.bytes)
    && job.kind != ArmRestart
    && RanApp(s, job).result == NoError && RanApp(s, job).app.state != Ota.Idle
  }

  function Handed(s: Sys, job: Job, pc: AppPc, stage: SlotState): Sys
    requires |s.bridge.data| == CAPACITY && (job.kind == SendChunk ==> |job.bytes| <= CAPACITY)
  {
    var c := JobCommand(s.http, job);
    var data := if job.kind == SendChunk then job.bytes + s.bridge.data[c.length..] else s.bridge.data;
    s.(http := s.http.(pc := Working(Entering, job)), appPc := pc,
       bridge := s.bridge.(command := c, data := data, state := stage, waiterAttached := true, signal := false))
  }

  lemma SubmitGoes(s: Sys, job: Job)
    requires ReadyFor(s, job)
    ensures Enabled(s, SubmitNow(true)) && Do(s, SubmitNow(true)) == Handed(s, job, Between, Queued)
  {
    hide Ota.Execute, Spec.Consume, Log.Fed;
  }

  lemma TakeGoes(s: Sys, job: Job)
    requires ReadyFor(s, job)
    ensures var t := Handed(s, job, Between, Queued);
            Enabled(t, TakeNext) && Do(t, TakeNext) == Handed(s, job, Taken(JobCommand(s.http, job)), Processing)
  {
    hide Ota.Execute, Spec.Consume, Log.Fed;
  }

  lemma CheckGoes(s: Sys, job: Job)
    requires ReadyFor(s, job)
    ensures var c := JobCommand(s.http, job);
            var t := Handed(s, job, Taken(c), Processing);
            Enabled(t, CheckCancel) && Do(t, CheckCancel) == Handed(s, job, Decided(c, false), Processing)
  {
    hide Ota.Execute, Spec.Consume, Log.Fed;
  }

  lemma RunGoes(s: Sys, job: Job)
    requires ReadyFor(s, job)
    ensures var c := JobCommand(s.http, job);
            var t := Handed(s, job, Decided(c, false), Processing);
            var o := RanApp(s, job);
            && Enabled(t, RunCommand(KindEnv(job)))
            && Do(t, RunCommand(KindEnv(job))) ==
               Handed(s, job, Executed(c, NoError), Processing).(app := o.app, ops := s.ops + o.ops)
  {
    hide Spec.Consume, Log.Fed, Ota.ExecuteStart, Ota.ExecuteEnd, Ota.ExecuteChunk;
    var c := JobCommand(s.http, job);
    var t := Handed(s, job, Decided(c, false), Processing);
    assert job.kind == SendChunk ==> t.bridge.data[..c.length] == job.bytes;
    assert t.bridge.data[..c.length] == job.bytes || job.kind != SendChunk;
  }

  lemma CompleteGoes(s: Sys, job: Job)
    requires ReadyFor(s, job)
    ensures var c := JobCommand(s.http, job);
            var o := RanApp(s, job);
            var t := Handed(s, job, Executed(c, NoError), Processing).(app := o.app, ops := s.ops + o.ops);
            var u := Handed(s, job, Between, Completed).(app := o.app, ops := s.ops + o.ops);
            Enabled(t, CompleteNow(true))
              && Do(t, CompleteNow(true)) == u.(bridge := u.bridge.(result := NoError, signal := true))
  {
    hide Ota.Execute, Spec.Consume, Log.Fed;
  }

  lemma AnswerGoes(s: Sys, job: Job)
    requires ReadyFor(s, job)
    ensures var o := RanApp(s, job);
            var u := Handed(s, job, Between, Completed).(app := o.app, ops := s.ops + o.ops);
            var v := u.(bridge := u.bridge.(result := NoError, signal := true));
            && Enabled(v, EnterNow) && Enabled(Do(v, EnterNow), Answer(false))
            && Do(Do(v, EnterNow), Answer(false)) == AfterRound(s, job)
  {
    hide Ota.Execute, Spec.Consume, Log.Fed;
  }

  /** One undisturbed command goes from HTTPD to the application task and back. */
  lemma RoundGoes(s: Sys, job: Job)
    requires ReadyFor(s, job)
    ensures Go(s, Round(KindEnv(job))) == Some(AfterRound(s, job))
  {
    hide Enabled, Do, Handed, AfterRound, RanApp, ReadyFor, JobCommand, KindEnv;
    var env := KindEnv(job);
    SubmitGoes(s, job);
    TakeGoes(s, job);
    CheckGoes(s, job);
    RunGoes(s, job);
    CompleteGoes(s, job);
    AnswerGoes(s, job);
    SevenSteps(s, Round(env));
  }

  lemma SevenSteps(s: Sys, a: seq<Action>)
    requires |a| == 7
    requires Enabled(s, a[0])
    requires var s1 := Do(s, a[0]);
             Enabled(s1, a[1]) && Enabled(Do(s1, a[1]), a[2]) && Enabled(Do(Do(s1, a[1]), a[2]), a[3])
    requires var s4 := Do(Do(Do(Do(s, a[0]), a[1]), a[2]), a[3]);
             Enabled(s4, a[4]) && Enabled(Do(s4, a[4]), a[5]) && Enabled(Do(Do(s4, a[4]), a[5]), a[6])
    ensures var s4 := Do(Do(Do(Do(s, a[0]), a[1]), a[2]), a[3]);
            Go(s, a) == Some(Do(Do(Do(s4, a[4]), a[5]), a[6]))
  {
    hide Enabled, Do;
    var s1 := Do(s, a[0]);
    var s2 := Do(s1, a[1]);
    var s3 := Do(s2, a[2]);
    var s4 := Do(s3, a[3]);
    var s5 := Do(s4, a[4]);
    var s6 := Do(s5, a[5]);
    assert a[6..][1..] == [] && a[6..][0] == a[6];
    assert Go(s6, a[6..]) == Go(Do(s6, a[6]), a[6..][1..]);
    assert a[5..][1..] == a[6..] && a[4..][1..] == a[5..] && a[3..][1..] == a[4..];
    assert Go(s5, a[5..]) == Go(s6, a[6..]);
    assert Go(s4, a[4..]) == Go(s5, a[5..]);
    assert Go(s3, a[3..]) == Go(s4, a[4..]);
    assert a[2..][1..] == a[3..] && a[1..][1..] == a[2..];
    assert Go(s2, a[2..]) == Go(s3, a[3..]);
    assert Go(s1, a[1..]) == Go(s2, a[2..]);
  }

  // ------------------------------------------------------------ the whole upload

  /** What the route sees before each command that sends a chunk. */
  predicate Sending(s: Sys, events: seq<Log.Event>) {
    && Session(s) && s.http.pc == Delivering(events, true) && s.http.response.None?
    && Log.BoundedChunks(events, 0)
    && s.app.state == Ota.Receiving && s.app.generation == s.http.generation
    && s.app.expected == s.http.request.firmwareSize && s.app.received == s.http.fileBytes
    && s.http.fileBytes + |Log.Payload(events)| == s.http.request.firmwareSize
    && Acceptable(s.http.request)
  }

  /** Nothing but the delivery has changed. */
  predicate SameUpload(s: Sys, t: Sys) {
    && t.http.request == s.http.request && t.http.body == s.http.body && t.http.phase == s.http.phase
    && t.http.generation == s.http.generation
  }

  /** The state in which the first of these events is being submitted. */
  function OfferFirst(s: Sys, events: seq<Log.Event>): Sys
    requires events != [] && events[0].Chunk?
  {
    s.(http := s.http.(pc := Working(Submitting, ChunkJob(events))))
  }

  function ChunkJob(events: seq<Log.Event>): Job
    requires events != [] && events[0].Chunk?
  {
    Job(SendChunk, events[0].bytes, events[1..], true)
  }

  lemma ChunkFits(s: Sys, events: seq<Log.Event>)
    requires Sending(s, events) && events != []
    ensures var bytes := events[0].bytes;
            && events[0].Chunk? && 1 <= |bytes| <= Log.MAX_CHUNK
            && |bytes| + |Log.Payload(events[1..])| == s.http.request.firmwareSize - s.http.fileBytes
            && Log.BoundedChunks(events[1..], 0)
  {
    hide Log.Payload;
    Log.PayloadFirst(events);
    assert forall i :: 0 <= i < |events| - 1 ==> events[1..][i] == events[i + 1];
  }

  lemma ChunkSubmits(s: Sys, events: seq<Log.Event>)
    requires Sending(s, events) && events != []
    ensures events[0].Chunk? && Enabled(s, Deliver) && Do(s, Deliver) == OfferFirst(s, events)
  {
    hide Log.Payload, Log.Fed, Spec.Consume, Log.BoundedChunks;
    ChunkFits(s, events);
  }

  lemma ChunkReady(s: Sys, events: seq<Log.Event>)
    requires Sending(s, events) && events != []
    ensures events[0].Chunk?
    ensures var job, t := ChunkJob(events), OfferFirst(s, events);
            && ReadyFor(t, job)
            && Sending(AfterRound(t, job), events[1..]) && SameUpload(s, AfterRound(t, job))
  {
    hide Log.Payload, Log.Fed, Spec.Consume, Log.BoundedChunks, Acceptable;
    ChunkFits(s, events);
  }

  /** Every chunk in turn is written and acknowledged. */
  lemma {:induction false} ChunksGo(s: Sys, events: seq<Log.Event>) returns (actions: seq<Action>, t: Sys)
    requires Sending(s, events)
    ensures Go(s, actions) == Some(t) && Sending(t, []) && SameUpload(s, t)
    decreases |events|
  {
    hide Enabled, Do, Go, Sending, AfterRound, ReadyFor, Log.Payload;
    if events == [] {
      actions, t := [], s;
      GoNowhere(s);
    } else {
      SendingShape(s, events);
      var job, u := ChunkJob(events), OfferFirst(s, events);
      ChunkSubmits(s, events);
      ChunkReady(s, events);
      GoOne(s, Deliver);
      RoundGoes(u, job);
      GoOn(s, [Deliver], Round(KindEnv(job)));
      var v := AfterRound(u, job);
      var rest, w := ChunksGo(v, events[1..]);
      GoOn(s, [Deliver] + Round(KindEnv(job)), rest);
      actions, t := [Deliver] + Round(KindEnv(job)) + rest, w;
    }
  }

  lemma GoNowhere(s: Sys)
    ensures Go(s, []) == Some(s)
  {
  }

  lemma SendingShape(s: Sys, events: seq<Log.Event>)
    requires Sending(s, events) && events != []
    ensures events[0].Chunk? && 1 <= |events[0].bytes| <= CAPACITY && |s.bridge.data| == CAPACITY
    ensures s.app.received <= s.app.expected
  {
    hide Log.Payload;
  }

  /** A request, its whole body read at once, and the session begun. */
  lemma StartGoes(s: Sys, r: Request, body: seq<octet>, filename: seq<octet>, payload: seq<octet>)
    returns (actions: seq<Action>, t: Sys)
    requires Init(s) && s.bridge.lastGeneration < UINT64_MAX
    requires Acceptable(r) && |body| == r.contentLength && |payload| == r.firmwareSize
    requires Spec.Parses(r.delimiters, body, filename, payload)
    ensures Go(s, actions) == Some(t) && Sending(t, Pieces(payload))
    ensures t.http.request == r && t.http.body == body
    ensures t.http.phase == Spec.Consume(r.delimiters, Spec.Opening(0), body).phase
  {
    hide Spec.Consume, Log.Fed, Log.Payload, Go, Pieces, Ota.Execute, Log.BoundedChunks;
    var progress := Spec.Consume(r.delimiters, Spec.Opening(0), body);
    Spec.FinishStarted(r.delimiters, body);
    var pieces := Pieces(payload);
    var events := [Log.Start] + pieces;
    PiecesDeliver(payload);
    StartedLog(pieces, payload, progress);
    GoOne(s, Accept(r));
    var s1 := Do(s, Accept(r));
    assert [] + body == body && body != [];
    assert Enabled(s1, Read(body, events));
    GoOne(s1, Read(body, events));
    var s2 := Do(s1, Read(body, events));
    assert events[1..] == pieces;
    GoOne(s2, Deliver);
    var s3 := Do(s2, Deliver);
    var job := Job(StartUpload, [], pieces, true);
    StartReady(s3, job);
    RoundGoes(s3, job);
    GoOn(s, [Accept(r)], [Read(body, events)]);
    GoOn(s, [Accept(r)] + [Read(body, events)], [Deliver]);
    GoOn(s, [Accept(r)] + [Read(body, events)] + [Deliver], Round(KindEnv(job)));
    actions := [Accept(r)] + [Read(body, events)] + [Deliver] + Round(KindEnv(job));
    t := AfterRound(s3, job);
  }

  lemma StartedLog(pieces: seq<Log.Event>, payload: seq<octet>, r: Spec.Progress)
    requires Log.BoundedChunks(pieces, 0) && Log.Payload(pieces) == payload == r.data
    requires r.started && !r.phase.Failed?
    ensures Log.Fed(Always(), [], [Log.Start] + pieces, r, true)
  {
    hide Log.Payload, Log.Fed;
    var events := [Log.Start] + pieces;
    Log.PayloadFirst(events);
    assert events[1..] == pieces;
    assert forall i :: 1 <= i < |events| ==> events[i] == pieces[i - 1];
    WholeLog(events, r);
  }

  lemma StartReady(s: Sys, job: Job)
    requires Calm(s) && s.http.generation != 0 && s.bridge.activeGeneration == s.http.generation
    requires s.http.pc == Working(Submitting, job) && job.kind == StartUpload && job.bytes == []
    requires s.app == Ota.InitialApp && Acceptable(s.http.request) && s.http.response.None?
    requires job.good && Log.BoundedChunks(job.rest, 0) && s.http.fileBytes == 0
    requires |Log.Payload(job.rest)| == s.http.request.firmwareSize
    ensures ReadyFor(s, job) && Sending(AfterRound(s, job), job.rest) && SameUpload(s, AfterRound(s, job))
  {
    hide Log.Payload;
  }

  /** After the last chunk: the end of the body, the finalised flash, and the answer. */
  lemma EndGoes(s: Sys, filename: seq<octet>) returns (actions: seq<Action>, t: Sys)
    requires Sending(s, []) && |s.http.body| == s.http.request.contentLength
    requires Spec.Finish(s.http.phase) == Some(filename)
    ensures Go(s, actions) == Some(t) && t.http.response == Some(200) && SameUpload(s, t)
  {
    hide Spec.Consume, Log.Fed, Go;
    Log.PayloadOfNothing();
    GoOne(s, Deliver);
    var s1 := Do(s, Deliver);
    GoOne(s1, EndBody(false));
    var s2 := Do(s1, EndBody(false));
    var job := Job(EndUpload, [], [], true);
    EndReady(s2, job);
    RoundGoes(s2, job);
    GoOn(s, [Deliver], [EndBody(false)]);
    GoOn(s, [Deliver] + [EndBody(false)], Round(KindEnv(job)));
    actions := [Deliver] + [EndBody(false)] + Round(KindEnv(job));
    t := AfterRound(s2, job);
  }

  lemma EndReady(s: Sys, job: Job)
    requires Session(s) && s.http.pc == Working(Submitting, job) && job == Job(EndUpload, [], [], true)
    requires s.app.state == Ota.Receiving && s.app.generation == s.http.generation
    requires s.app.received == s.app.expected && s.http.response.None?
    ensures ReadyFor(s, job)
    ensures AfterRound(s, job).http.response == Some(200) && SameUpload(s, AfterRound(s, job))
  {
  }

  lemma {:induction false} GoIsRun(s: Sys, actions: seq<Action>, t: Sys) returns (states: seq<Sys>)
    requires Go(s, actions) == Some(t)
    ensures |states| == |actions| + 1 && states[0] == s && states[|actions|] == t
    ensures forall i :: 0 <= i < |actions| ==>
            Enabled(states[i], actions[i]) && states[i + 1] == Do(states[i], actions[i])
    decreases |actions|
  {
    hide Enabled, Do;
    if actions == [] {
      states := [s];
    } else {
      var rest := GoIsRun(Do(s, actions[0]), actions[1..], t);
      states := [s] + rest;
      assert forall i :: 0 < i < |actions| ==> actions[i] == actions[1..][i - 1] && states[i] == rest[i - 1];
    }
  }

  /** Every body that the form grammar accepts, with the announced sizes, has a run in which the
      upload is answered 200. */
  lemma UploadCanSucceed(s: Sys, r: Request, body: seq<octet>, filename: seq<octet>, payload: seq<octet>)
    returns (states: seq<Sys>, actions: seq<Action>)
    requires Init(s) && s.bridge.lastGeneration < UINT64_MAX
    requires Acceptable(r) && |body| == r.contentLength && |payload| == r.firmwareSize
    requires Spec.Parses(r.delimiters, body, filename, payload)
    ensures IsRun(states, actions) && states[0] == s
    ensures var h := states[|actions|].http;
            h.response == Some(200) && h.request == r && h.body == body
  {
    hide Enabled, Do, Go, Sending, Spec.Consume;
    var a, t := StartGoes(s, r, body, filename, payload);
    var b, u := ChunksGo(t, Pieces(payload));
    var c, v := EndGoes(u, filename);
    GoOn(s, a, b);
    GoOn(s, a + b, c);
    actions := a + b + c;
    states := GoIsRun(s, actions, v);
  }
}
