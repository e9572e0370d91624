/** What every reachable state of the upload system satisfies. */
module UploadInvariant {
  import opened Octets
  import opened UploadBridge
  import Spec = MultipartSpec
  import Log = MultipartLog
  import Ota = OtaApplication
  import opened UploadSystem

  // ------------------------------------------------------------ the bridge alone

  /** Kept by every locked section, whoever calls it. */
  predicate BridgeInv(b: Bridge) {
    && |b.data| == CAPACITY
    && b.lastGeneration <= UINT64_MAX
    && b.activeGeneration <= b.lastGeneration && b.command.generation <= b.lastGeneration
    && (b.state == Queued || b.state == Processing ==>
          b.command.generation == b.activeGeneration != 0 && b.command.length <= CAPACITY)
    && (b.state == Completed ==> b.waiterAttached)
    && (b.waiterAttached ==> b.state != Free && b.command.generation != 0)
    && (b.signal ==> b.state == Completed || b.state == Free)
    && (b.cancelRequested ==> b.activeGeneration != 0)
  }

  // ------------------------------------------------------------ application task and bridge

  function PcCommand(pc: AppPc): Option<Command> {
    match pc
    case Taken(c) => Some(c)
    case Decided(c, _) => Some(c)
    case Executed(c, _) => Some(c)
    case _ => None
  }

  /** A command is being processed exactly while the application task holds it; a session
      is only cleaned up or freed after it was seen canceled, or after the application task went idle. */
  predicate AppLink(s: Sys) {
    var b := s.bridge;
    && (b.state == Processing <==> PcCommand(s.appPc).Some?)
    && (b.state == Processing ==> PcCommand(s.appPc).value == b.command)
    && (s.app.state != Ota.Idle ==> s.app.generation == b.activeGeneration)
    && (s.appPc.Cleaning? ==> b.activeGeneration == s.appPc.generation != 0 && b.cancelRequested
                              && s.app.state == Ota.Receiving && s.app.generation == s.appPc.generation)
    && (s.appPc.Freeing? ==>
        b.activeGeneration == s.appPc.generation != 0 && b.cancelRequested && s.app.state == Ota.Idle)
    && (s.appPc.Releasing? ==> b.activeGeneration == s.appPc.generation != 0 && s.app.state == Ota.Idle
                               && (b.state == Free || b.state == Completed))
    && (s.appPc.Decided? && s.appPc.refuse ==> b.cancelRequested)
    && (b.state == Queued || b.state == Processing ==>
        b.command.kind == ArmRestart ==> s.app.state == Ota.AwaitingRestart)
    && (s.app.state == Ota.AwaitingRestart ==>
          && (b.state == Queued ==> b.command.kind == ArmRestart)
          && (s.appPc.Taken? || s.appPc.Decided? ==> b.command.kind == ArmRestart))
    && (s.appPc.Executed? && s.appPc.result == NoError ==> s.app.state != Ota.Idle)
  }

  // ------------------------------------------------------------ HTTPD task and bridge

  predicate Waiting(h: Http) {
    h.pc.Working? && (h.pc.stage == Entering || h.pc.stage == Blocked || h.pc.stage.Leaving?)
  }

  /** The waiter is attached exactly while HTTPD waits, and then for its own last command,
      whose bytes are in the buffer until it completed. A signaled wake finds the result. */
  predicate HttpLink(s: Sys) {
    var h, b := s.http, s.bridge;
    && (b.waiterAttached <==> Waiting(h))
    && (Waiting(h) ==>
          && b.command == JobCommand(h, h.pc.job) && h.generation != 0
          && (b.state == Queued || b.state == Processing ==>
                !b.cancelRequested && (h.pc.job.kind == SendChunk ==> h.pc.job.bytes <= b.data))
          && (h.pc.stage == Leaving(Signaled) ==> b.state == Completed))
    && (!b.waiterAttached && (b.state == Queued || b.state == Processing) ==>
        b.cancelRequested || b.command.kind == ArmRestart)
    && h.generation <= b.lastGeneration
    && (h.pc.Working? ==> JobShape(h.pc.job))
  }

  predicate JobShape(job: Job) {
    && (if job.kind == SendChunk then 1 <= |job.bytes| <= Ota.MAX_CHUNK else job.bytes == [])
    && (job.kind == EndUpload || job.kind == ArmRestart ==> job.rest == [] && job.good)
  }

  // ------------------------------------------------------------ what the session has written

  ghost function FlashOf(s: Sys): Ota.Flash {
    Ota.FlashAfter(Ota.Closed, s.ops)
  }

  /** The session is HTTPD's, and nobody asked to cancel it. */
  predicate Mine(s: Sys) {
    s.http.generation != 0 && s.bridge.activeGeneration == s.http.generation && !s.bridge.cancelRequested
  }

  ghost predicate Holding(s: Sys, bytes: seq<octet>) {
    && Mine(s) && s.app.state == Ota.Receiving
    && s.app.expected == s.http.request.firmwareSize
    && FlashOf(s) == Ota.Open(s.http.request.firmwareSize, bytes)
  }

  /** The flash holds exactly the delivered bytes, finalized, and their number is the
      announced firmware size. */
  ghost predicate Finished(s: Sys) {
    && Mine(s) && s.app.state == Ota.AwaitingRestart
    && FlashOf(s) == Ota.Finalized(s.http.request.firmwareSize, s.http.delivered)
    && |s.http.delivered| == s.http.request.firmwareSize
  }

  ghost predicate Before(s: Sys, job: Job) {
    match job.kind
    case StartUpload => Mine(s) && s.app.state == Ota.Idle && s.http.delivered == []
    case ArmRestart => Finished(s)
    case _ => Holding(s, s.http.delivered)
  }

  ghost predicate After(s: Sys, job: Job) {
    match job.kind
    case StartUpload => Holding(s, []) && s.http.delivered == []
    case SendChunk => Holding(s, s.http.delivered + job.bytes)
    case _ => Finished(s)
  }

  /** Whether the answer to the command HTTPD waits for is known to be an error. */
  predicate AnswerIsError(s: Sys) {
    || (s.bridge.state == Completed && s.bridge.result != NoError)
    || (s.appPc.Executed? && s.appPc.result != NoError)
  }

  ghost predicate SessionInv(s: Sys) {
    var h := s.http;
    match h.pc
    case NoRequest => true
    case Stopping(_) => true
    case Reading => h.generation != 0 ==> Holding(s, h.delivered) && s.bridge.state == Free && !s.appPc.Releasing?
    case Delivering(_, _) =>
      h.generation != 0 ==> Holding(s, h.delivered) && s.bridge.state == Free && !s.appPc.Releasing?
    case Working(stage, job) =>
      match stage
      case Submitting => Before(s, job) && s.bridge.state == Free && !s.appPc.Releasing?
      case Answered(e) =>
        e == NoError && job.kind != ArmRestart ==> After(s, job) && s.bridge.state == Free && !s.appPc.Releasing?
      case _ =>
        !AnswerIsError(s) ==>
          && !s.appPc.Releasing?
          && (if s.bridge.state == Completed || s.appPc.Executed? then After(s, job) else Before(s, job))
  }

  // ------------------------------------------------------------ parser and delivery

  predicate EventsShape(events: seq<Log.Event>, generation: nat) {
    if generation != 0 || events == [] then Log.BoundedChunks(events, 0)
    else events[0] == Log.Start && Log.BoundedChunks(events, 1)
  }

  /** Bytes in flight: the chunk of the current job, then what the Feed still delivers. */
  function InFlight(h: Http): seq<octet> {
    match h.pc
    case Delivering(events, _) => Log.Payload(events)
    case Working(_, job) => (if job.kind == SendChunk then job.bytes else []) + Log.Payload(job.rest)
    case _ => []
  }

  predicate Good(h: Http) {
    match h.pc
    case Reading => true
    case Delivering(_, good) => good
    case Working(_, job) => job.good
    case _ => false
  }

  function Pending(h: Http): seq<Log.Event> {
    match h.pc
    case Delivering(events, _) => events
    case Working(_, job) => job.rest
    case _ => []
  }

  /** What the parser set free from the body so far is what was delivered plus what is in
      flight; the session exists once the data has started. */
  ghost predicate ParserInv(s: Sys) {
    var h := s.http;
    var r := Spec.Consume(h.request.delimiters, Spec.Opening(0), h.body);
    && h.fileBytes == |h.delivered|
    && |h.body| <= h.request.contentLength
    && EventsShape(Pending(h), h.generation)
    && (h.generation == 0 && (h.pc == Reading || h.pc.Delivering?) ==> h.delivered == [])
    && (h.pc.Working? ==> h.generation != 0)
    && (Good(h) ==>
          && h.phase == r.phase && !r.phase.Failed?
          && r.data == h.delivered + InFlight(h)
          && (r.started <==> h.generation != 0 || Pending(h) != []))
  }

  predicate AtEnd(h: Http) {
    h.pc.Working? && (h.pc.job.kind == EndUpload || h.pc.job.kind == ArmRestart)
  }

  predicate BodyComplete(h: Http) {
    Spec.Finish(h.phase).Some? && |h.body| == h.request.contentLength && |h.delivered| == h.request.firmwareSize
  }

  /** The only way to a 200 is a complete body whose payload is on the flash. */
  ghost predicate ResponseInv(s: Sys) {
    var h := s.http;
    && (AtEnd(h) ==> BodyComplete(h))
    && (Good(h) || h.pc.Delivering? || h.pc.Working? ==>
          h.response == if h.pc.Working? && h.pc.job.kind == ArmRestart then Some(200) else None)
    && (h.response == Some(200) ==> (h.pc == NoRequest || AtEnd(h)) && Finished(s) && Uploaded(h))
  }

  /** The body received is a form with this payload, all of it delivered. */
  ghost predicate Uploaded(h: Http) {
    && |h.body| == h.request.contentLength && |h.delivered| == h.request.firmwareSize
    && exists filename :: Spec.Parses(h.request.delimiters, h.body, filename, h.delivered)
  }

  // ------------------------------------------------------------ canceled sessions

  /** A processOne call that begins after the cancellation ends with the session released. */
  predicate DoomInv(s: Sys) {
    var idle := s.app.state == Ota.Idle;
    var settled := s.bridge.state == Free || s.bridge.state == Completed;
    && s.calls <= 1
    && (s.calls == 1 ==>
          Doomed(s) &&
          match s.appPc
          case Between => false
          case Taken(c) => c.kind != ArmRestart
          case Decided(c, refuse) => refuse && c.kind != ArmRestart
          case Executed(_, _) => idle
          case Releasing(_) => settled
          case Looking => settled
          case Cleaning(_) => settled
          case Probing => settled && idle
          case Probed(g) => settled && idle && g == s.bridge.activeGeneration
          case Freeing(_) => settled)
  }

  ghost predicate Inv(s: Sys) {
    && BridgeInv(s.bridge) && Ota.AppInv(s.app, s.ops)
    && AppLink(s) && HttpLink(s) && SessionInv(s) && ParserInv(s) && ResponseInv(s) && DoomInv(s)
  }

  lemma InitHolds(s: Sys)
    requires Init(s)
    ensures Inv(s)
  {
  }
}
