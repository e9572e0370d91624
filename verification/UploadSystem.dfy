/** The whole upload: the HTTPD task (receive loop, parser events, route) and the
    application task (processOne, watchdog) around the bridge, as interleaved atomic steps. */
module UploadSystem {
  import opened Octets
  import opened UploadBridge
  import Spec = MultipartSpec
  import Log = MultipartLog
  import Ota = OtaApplication

  const UINT32_MAX: nat := 0xFFFF_FFFF

  datatype Request = Request(delimiters: Spec.Delimiters, firmwareSize: nat, contentLength: nat)

  /** One bridge command on its way: `rest` and `good` are what the current Feed still has
      to deliver, and its verdict. */
  datatype Job = Job(kind: Operation, bytes: seq<octet>, rest: seq<Log.Event>, good: bool)
  datatype Stage = Submitting | Entering | Blocked | Leaving(status: WaitStatus) | Answered(error: OtaError)

  datatype HttpPc =
    | NoRequest
    | Reading
    | Delivering(events: seq<Log.Event>, good: bool)
    | Working(stage: Stage, job: Job)
    | Stopping(cancels: nat)

  /** `phase` is the parser after the current Feed; `body` and `delivered` are history: the
      bytes received, and the payload bytes the application acknowledged. */
  datatype Http = Http(
    pc: HttpPc, request: Request, body: seq<octet>, phase: Spec.Phase, generation: nat,
    fileBytes: nat, response: Option<nat>, committed: bool, delivered: seq<octet>)

  datatype AppPc =
    | Between
    | Taken(command: Command)
    | Decided(command: Command, refuse: bool)
    | Executed(command: Command, result: OtaError)
    | Releasing(generation: nat)
    | Looking
    | Cleaning(generation: nat)
    | Probing
    | Probed(generation: nat)
    | Freeing(generation: nat)

  /** `ops` are the calls on the flash authority; `calls` counts the processOne calls begun
      since the current session was canceled. */
  datatype Sys = Sys(bridge: Bridge, http: Http, app: Ota.App, appPc: AppPc, ops: seq<Ota.Op>, calls: nat)

  datatype Action =
    | Accept(request: Request)
    | Refuse(status: nat)
    | Read(chunk: seq<octet>, events: seq<Log.Event>)
    | ReadExpired
    | AbortRead(timedOut: bool)
    | Deliver
    | Expire
    | SubmitNow(prepared: bool)
    | EnterNow
    | Wake(outcome: WaitStatus)
    | LeaveNow
    | Answer(sends: bool)
    | EndBody(expired: bool)
    | CancelNow
    | TakeNext
    | CheckCancel
    | RunCommand(env: Ota.Env)
    | CompleteNow(signaled: bool)
    | ReleaseNow
    | Look
    | CleanNow
    | Probe
    | CheckProbed
    | FreeNow
    | Watch(now: nat, schedules: bool)

  const NoRequestYet: Http :=
    Http(NoRequest, Request(Spec.Delimiters([]), 0, 0), [], Spec.Failed, 0, 0, None, false, [])

  predicate Init(s: Sys) {
    && |s.bridge.data| == CAPACITY && s.bridge.lastGeneration <= UINT64_MAX
    && s.bridge.activeGeneration == 0 && s.bridge.state == Free && s.bridge.command.generation == 0
    && !s.bridge.cancelRequested && !s.bridge.waiterAttached && !s.bridge.signal
    && s.http == NoRequestYet && s.app == Ota.InitialApp && s.appPc == Between && s.ops == [] && s.calls == 0
  }

  // ------------------------------------------------------------ HTTPD task

  /** A sink that refuses nothing: its log is all that a Feed would deliver. */
  function Always(): Log.Policy {
    (log: seq<Log.Event>, event: Log.Event) => true
  }

  function JobCommand(h: Http, job: Job): Command {
    Command(job.kind, h.generation, if job.kind == StartUpload then h.request.firmwareSize else 0, |job.bytes|)
  }

  /** Only the first response counts. */
  function Respond(h: Http, status: nat): Http {
    h.(response := if h.response.None? then Some(status) else h.response)
  }

  function StatusOf(error: OtaError): nat {
    match error
    case UpdateFailure => 500
    case Busy => 409
    case TooLarge => 413
    case Invalid => 400
    case _ => 503
  }

  /** How many requestCancel calls follow inside data() or end() and the abort handler. */
  function CancelsAfter(kind: Operation): nat {
    if kind == EndUpload then 1 else 2
  }

  function Stop(h: Http, status: nat, cancels: nat): Http {
    Respond(h, status).(pc := Stopping(cancels))
  }

  /** The end of a command that got no answer: arming the restart is best effort. */
  function Unanswered(h: Http, job: Job, status: nat): Http {
    if job.kind == ArmRestart then h.(pc := NoRequest) else Stop(h, status, CancelsAfter(job.kind) + 1)
  }

  predicate Acceptable(r: Request) {
    && 1 <= |r.delimiters.boundary| <= Spec.MAX_BOUNDARY
    && 1 <= r.firmwareSize <= UINT32_MAX
    && Spec.ValidContentLength(r.contentLength, r.firmwareSize)
  }

  ghost predicate HttpEnabled(s: Sys, a: Action) {
    var h, b := s.http, s.bridge;
    match a
    case Accept(r) => h.pc == NoRequest && b.activeGeneration == 0 && Acceptable(r)
    case Refuse(status) => h.pc == NoRequest && status != 200
    case Read(chunk, events) =>
      && h.pc == Reading && chunk != [] && |h.body| + |chunk| <= h.request.contentLength
      && var r := Spec.Consume(h.request.delimiters, h.phase, chunk);
         Log.Fed(Always(), [], events, r, !r.phase.Failed?)
    case ReadExpired => h.pc == Reading
    case AbortRead(_) => h.pc == Reading
    case Deliver => h.pc.Delivering? && (h.pc.events != [] ==> !h.pc.events[0].End?)
    case Expire => h.pc.Working? && h.pc.stage == Submitting && h.pc.job.kind != ArmRestart
    case SubmitNow(_) => h.pc.Working? && h.pc.stage == Submitting && |b.data| == CAPACITY
    case EnterNow => h.pc.Working? && h.pc.stage == Entering
    case Wake(status) => h.pc.Working? && h.pc.stage == Blocked && (status == Signaled ==> b.signal)
    case LeaveNow => h.pc.Working? && h.pc.stage.Leaving?
    case Answer(_) => h.pc.Working? && h.pc.stage.Answered?
    case EndBody(_) => h.pc == Reading && |h.body| == h.request.contentLength
    case CancelNow => h.pc.Stopping? && h.pc.cancels >= 1
    case _ => false
  }

  function DeliverEvent(s: Sys): Sys
    requires s.http.pc.Delivering? && s.http.pc.events != []
  {
    var h, b := s.http, s.bridge;
    var e, rest, good := h.pc.events[0], h.pc.events[1..], h.pc.good;
    match e
    case Start =>
      var (admission, b') := Admit(b);
      if admission == Accepted then
        s.(bridge := b',
           http := h.(generation := b'.activeGeneration, pc := Working(Submitting, Job(StartUpload, [], rest, good))))
      else s.(http := Stop(h, if admission == AdmissionBusy then 409 else 503, 2))
    case Chunk(bytes) =>
      if |bytes| == 0 || |bytes| > 1024 || |bytes| > h.request.firmwareSize - h.fileBytes then
        s.(http := Stop(h, 400, 2))
      else s.(http := h.(pc := Working(Submitting, Job(SendChunk, bytes, rest, good))))
    case End => s
  }

  function DeliverStep(s: Sys): Sys
    requires s.http.pc.Delivering?
  {
    var h := s.http;
    if h.pc.events != [] then DeliverEvent(s)
    else if h.pc.good then s.(http := h.(pc := Reading))
    else s.(http := Stop(h, 400, 2))
  }

  function SubmitStep(s: Sys, prepared: bool): Sys
    requires s.http.pc.Working? && |s.bridge.data| == CAPACITY
  {
    var h, job := s.http, s.http.pc.job;
    var (accepted, b') := Submit(s.bridge, JobCommand(h, job), job.bytes, prepared);
    if accepted then s.(bridge := b', http := h.(pc := Working(Entering, job)))
    else s.(http := Unanswered(h, job, 503))
  }

  function WaitedStep(s: Sys, w: Waited, b': Bridge): Sys
    requires s.http.pc.Working?
  {
    var h, job := s.http, s.http.pc.job;
    match w
    case Ready(e) => s.(bridge := b', http := h.(pc := Working(Answered(e), job)))
    case Pending => s.(bridge := b', http := h.(pc := Working(Blocked, job)))
    case Refused => s.(bridge := b', http := Unanswered(h, job, 503))
  }

  function AnswerStep(s: Sys, sends: bool): Sys
    requires s.http.pc.Working? && s.http.pc.stage.Answered?
  {
    var h, job, error := s.http, s.http.pc.job, s.http.pc.stage.error;
    if job.kind == ArmRestart then s.(http := h.(pc := NoRequest))
    else if error != NoError then s.(http := Stop(h, StatusOf(error), CancelsAfter(job.kind)))
    else if job.kind == StartUpload then s.(http := h.(pc := Delivering(job.rest, job.good)))
    else if job.kind == SendChunk then
      s.(http := h.(fileBytes := h.fileBytes + |job.bytes|, delivered := h.delivered + job.bytes,
                    pc := Delivering(job.rest, job.good)))
    else
      var arms := sends && h.response.None?;
      var next := if arms then Working(Submitting, Job(ArmRestart, [], [], true)) else NoRequest;
      s.(http := Respond(h, 200).(committed := true, pc := next))
  }

  function EndBodyStep(s: Sys, expired: bool): Sys {
    var h := s.http;
    if expired then s.(http := Stop(h, 408, 2))
    else if Spec.Finish(h.phase).None? || h.generation == 0 || h.fileBytes != h.request.firmwareSize then
      s.(http := Stop(h, 400, 2))
    else s.(http := h.(pc := Working(Submitting, Job(EndUpload, [], [], true))))
  }

  function CancelStep(s: Sys): Sys
    requires s.http.pc.Stopping? && s.http.pc.cancels >= 1
  {
    var h := s.http;
    s.(bridge := RequestCancel(s.bridge, h.generation),
       http := h.(pc := if h.pc.cancels == 1 then NoRequest else Stopping(h.pc.cancels - 1)))
  }

  ghost function HttpDo(s: Sys, a: Action): Sys
    requires HttpEnabled(s, a)
  {
    var h, b := s.http, s.bridge;
    match a
    case Accept(r) => s.(http := Http(Reading, r, [], Spec.Opening(0), 0, 0, None, false, []))
    case Refuse(status) => s.(http := Http(NoRequest, h.request, [], Spec.Opening(0), 0, 0, Some(status), false, []))
    case Read(chunk, events) =>
      var r := Spec.Consume(h.request.delimiters, h.phase, chunk);
      s.(http := h.(body := h.body + chunk, phase := r.phase, pc := Delivering(events, !r.phase.Failed?)))
    case ReadExpired => s.(http := Stop(h, 408, 2))
    case AbortRead(timedOut) => s.(http := if timedOut then Stop(h, 408, 1) else h.(pc := Stopping(1)))
    case Deliver => DeliverStep(s)
    case Expire => s.(http := Stop(h, 408, CancelsAfter(h.pc.job.kind) + 1))
    case SubmitNow(prepared) => SubmitStep(s, prepared)
    case EnterNow => var (w, b') := EnterWait(b, h.generation); WaitedStep(s, w, b')
    case Wake(status) => s.(bridge := Block(b, status), http := h.(pc := Working(Leaving(status), h.pc.job)))
    case LeaveNow => var (w, b') := LeaveWait(b, h.generation); WaitedStep(s, w, b')
    case Answer(sends) => AnswerStep(s, sends)
    case EndBody(expired) => EndBodyStep(s, expired)
    case CancelNow => CancelStep(s)
    case _ => s
  }

  // ------------------------------------------------------------ application task

  predicate AppEnabled(s: Sys, a: Action) {
    match a
    case TakeNext => s.appPc == Between
    case CheckCancel => s.appPc.Taken?
    case RunCommand(_) =>
      s.appPc.Decided? && s.app.received <= s.app.expected && s.appPc.command.length <= |s.bridge.data|
    case CompleteNow(_) => s.appPc.Executed?
    case ReleaseNow => s.appPc.Releasing?
    case Look => s.appPc == Looking
    case CleanNow => s.appPc.Cleaning?
    case Probe => s.appPc == Probing
    case CheckProbed => s.appPc.Probed?
    case FreeNow => s.appPc.Freeing?
    case Watch(_, _) => s.appPc == Between
    case _ => false
  }

  function RunStep(s: Sys, env: Ota.Env): Sys
    requires AppEnabled(s, RunCommand(env))
  {
    var c := s.appPc.command;
    var o := Ota.Perform(s.app, c, s.bridge.data[..c.length], env, s.appPc.refuse,
                         CancellationRequested(s.bridge, c.generation));
    s.(app := o.app, ops := s.ops + o.ops, appPc := Executed(c, o.result))
  }

  function AppDo(s: Sys, a: Action): Sys
    requires AppEnabled(s, a)
  {
    var b := s.bridge;
    match a
    case TakeNext =>
      var (c, b') := Take(b);
      s.(bridge := b', appPc := if c.Some? then Taken(c.value) else Looking,
         calls := if Doomed(s) then s.calls + 1 else s.calls)
    case CheckCancel => s.(appPc := Decided(s.appPc.command, CancellationRequested(b, s.appPc.command.generation)))
    case RunCommand(env) => RunStep(s, env)
    case CompleteNow(signaled) =>
      var c := s.appPc.command;
      s.(bridge := Complete(b, c, s.appPc.result, signaled),
         appPc := if s.app.state == Ota.Idle then Releasing(c.generation) else Between)
    case ReleaseNow => s.(bridge := Release(b, s.appPc.generation), appPc := Between)
    case Look =>
      if s.app.generation != 0 && s.app.state != Ota.AwaitingRestart && CancellationRequested(b, s.app.generation)
      then s.(appPc := Cleaning(s.app.generation)) else s.(appPc := Probing)
    case CleanNow =>
      var (app', more) := Ota.Cleanup(s.app);
      s.(app := app', ops := s.ops + more, bridge := Release(b, s.appPc.generation), appPc := Between)
    case Probe => s.(appPc := Probed(b.activeGeneration))
    case CheckProbed =>
      var g := s.appPc.generation;
      if g != 0 && s.app.state == Ota.Idle && CancellationRequested(b, g) then s.(appPc := Freeing(g))
      else s.(appPc := Between)
    case FreeNow => s.(bridge := Release(b, s.appPc.generation), appPc := Between)
    case Watch(now, schedules) => s.(app := Ota.Watchdog(s.app, now, schedules))
    case _ => s
  }

  // ------------------------------------------------------------ runs

  /** A canceled session that is not waiting for the restart. */
  predicate Doomed(s: Sys) {
    s.bridge.activeGeneration != 0 && s.bridge.cancelRequested && s.app.state != Ota.AwaitingRestart
  }

  ghost predicate Enabled(s: Sys, a: Action) {
    HttpEnabled(s, a) || AppEnabled(s, a)
  }

  ghost function Do(s: Sys, a: Action): Sys
    requires Enabled(s, a)
  {
    var t := if HttpEnabled(s, a) then HttpDo(s, a) else AppDo(s, a);
    t.(calls := if Doomed(t) then t.calls else 0)
  }

  /** A run: any interleaving of enabled actions of the two tasks, from an initial state. */
  ghost predicate IsRun(states: seq<Sys>, actions: seq<Action>) {
    && |states| == |actions| + 1
    && Init(states[0])
    && forall i :: 0 <= i < |actions| ==> Enabled(states[i], actions[i]) && states[i + 1] == Do(states[i], actions[i])
  }
}
