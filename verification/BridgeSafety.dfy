/** The bridge under any interleaving of calls, by any callers. */
module BridgeSafety {
  import opened Octets
  import opened UploadBridge
  import opened UploadInvariant

  datatype Call =
    | AdmitCall
    | CancelCall(generation: nat)
    | ReleaseCall(generation: nat)
    | SubmitCall(command: Command, bytes: seq<octet>, prepared: bool)
    | EnterCall(generation: nat)
    | BlockCall(status: WaitStatus)
    | LeaveCall(generation: nat)
    | TakeCall
    | CompleteCall(command: Command, result: OtaError, signaled: bool)

  /** The bridge with its history: the generations handed out, how many commands were
      accepted, taken and completed, and which one the stored result belongs to. */
  datatype Ledger = Ledger(bridge: Bridge, admitted: seq<nat>, submitted: nat, taken: nat, completed: nat,
                           resultOf: nat)

  function CallBridge(b: Bridge, c: Call): Bridge
    requires |b.data| == CAPACITY
  {
    match c
    case AdmitCall => Admit(b).1
    case CancelCall(g) => RequestCancel(b, g)
    case ReleaseCall(g) => Release(b, g)
    case SubmitCall(cmd, bytes, prepared) => Submit(b, cmd, bytes, prepared).1
    case EnterCall(g) => EnterWait(b, g).1
    case BlockCall(status) => Block(b, status)
    case LeaveCall(g) => LeaveWait(b, g).1
    case TakeCall => Take(b).1
    case CompleteCall(cmd, result, signaled) => Complete(b, cmd, result, signaled)
  }

  function Record(l: Ledger, c: Call): Ledger
    requires |l.bridge.data| == CAPACITY
  {
    var b := l.bridge;
    var next := l.(bridge := CallBridge(b, c));
    match c
    case AdmitCall =>
      if Admit(b).0 == Accepted then next.(admitted := l.admitted + [next.bridge.activeGeneration]) else next
    case SubmitCall(cmd, bytes, prepared) =>
      if Submit(b, cmd, bytes, prepared).0 then next.(submitted := l.submitted + 1) else next
    case TakeCall => if Take(b).0.Some? then next.(taken := l.taken + 1) else next
    case CompleteCall(cmd, _, _) =>
      if Completable(b, cmd) then next.(completed := l.completed + 1, resultOf := l.taken) else next
    case _ => next
  }

  /** Generations only grow, so none is reused; every accepted command is taken and
      completed at most once, in order; a stored result is that of the last command. */
  predicate LedgerInv(l: Ledger) {
    var b := l.bridge;
    && BridgeInv(b)
    && (forall i, j :: 0 <= i < j < |l.admitted| ==> l.admitted[i] < l.admitted[j])
    && (forall i :: 0 <= i < |l.admitted| ==> 0 < l.admitted[i] <= b.lastGeneration)
    && (b.activeGeneration != 0 ==> l.admitted != [] && l.admitted[|l.admitted| - 1] == b.activeGeneration)
    && l.submitted == l.taken + (if b.state == Queued then 1 else 0)
    && l.taken == l.completed + (if b.state == Processing then 1 else 0)
    && (b.state == Completed ==> l.resultOf == l.submitted)
  }

  lemma CallKeepsBridge(b: Bridge, c: Call)
    requires BridgeInv(b)
    ensures BridgeInv(CallBridge(b, c))
  {
  }

  /** One call of any kind, by any caller, keeps the ledger. */
  lemma LedgerKept(l: Ledger, c: Call)
    requires LedgerInv(l)
    ensures LedgerInv(Record(l, c))
  {
    hide BridgeInv;
    CallKeepsBridge(l.bridge, c);
    BridgeFacts(l.bridge);
  }

  lemma BridgeFacts(b: Bridge)
    requires BridgeInv(b)
    ensures |b.data| == CAPACITY && b.activeGeneration <= b.lastGeneration
    ensures b.waiterAttached ==> b.state != Free
    ensures b.state == Completed ==> b.waiterAttached
  {
  }

  // ------------------------------------------------------------ exactly when each call succeeds

  /** A session is admitted when none is open and the slot is free, while generations last, and starts
      uncanceled; it is canceled and released only under its own generation, and not while a command of
      it waits or runs. */
  lemma SessionExact(b: Bridge, generation: nat)
    ensures var (admission, t) := Admit(b);
            && (admission == Accepted <==> b.activeGeneration == 0 && b.state == Free && b.lastGeneration != UINT64_MAX)
            && (admission == Exhausted <==>
                  b.activeGeneration == 0 && b.state == Free && b.lastGeneration == UINT64_MAX)
            && (if admission == Accepted then
                  && t.activeGeneration == t.lastGeneration == b.lastGeneration + 1 && !t.cancelRequested
                  && t == b.(activeGeneration := t.activeGeneration, lastGeneration := t.lastGeneration,
                             cancelRequested := false)
                else t == b)
    ensures var mine := generation != 0 && generation == b.activeGeneration;
            && RequestCancel(b, generation) == b.(cancelRequested := b.cancelRequested || mine)
            && (Release(b, generation).activeGeneration == 0 <==>
                  b.activeGeneration == 0 || (mine && b.state in {Free, Completed}))
            && (if mine && b.state in {Free, Completed} then !Release(b, generation).cancelRequested
                else Release(b, generation) == b)
  {
  }

  /** A command is accepted when it is well formed, of the open and uncanceled session, the slot is
      free and the stale signal could be cleared; then it waits in the slot, with its bytes. */
  lemma SubmitExact(b: Bridge, command: Command, bytes: seq<octet>, prepared: bool)
    requires |b.data| == CAPACITY
    ensures var (accepted, t) := Submit(b, command, bytes, prepared);
            var chunk := command.kind == SendChunk;
            var sized := if chunk then 1 <= |bytes| == command.length <= 1024 else command.length == 0;
            && (accepted <==>
                  && command.generation != 0 && command.generation == b.activeGeneration && !b.cancelRequested
                  && b.state == Free && sized && prepared)
            && (accepted ==>
                  && t.state == Queued && t.command == command && t.waiterAttached && !t.signal
                  && (command.kind == SendChunk ==> bytes <= t.data) && |t.data| == CAPACITY
                  && t.activeGeneration == b.activeGeneration && !t.cancelRequested)
            && (!accepted ==> t == b)
  {
  }

  /** A waiter of the last command gets its result when it is there, and frees the slot; without it the
      first look waits on, and the second gives up and cancels the session, unless it was arming the
      restart; anybody else is refused. */
  lemma WaitExact(b: Bridge, generation: nat)
    ensures var (first, t) := EnterWait(b, generation);
            var (second, u) := LeaveWait(b, generation);
            var mine := generation != 0 && generation == b.command.generation && b.waiterAttached;
            var ready := mine && b.state == Completed;
            && (if ready then first == second == Ready(b.result) && t == u == b.(state := Free, waiterAttached := false)
                else !first.Ready? && !second.Ready? && t == b)
            && (first == Pending <==> mine && !ready) && (first == Refused <==> !mine) && second != Pending
            && (mine && !ready ==>
                  var cancels := b.cancelRequested || b.command.kind != ArmRestart;
                  u == b.(waiterAttached := false, cancelRequested := cancels))
            && (!mine ==> u == b)
  {
  }

  /** The application task takes what is queued, once, and completes only what it took: for a waiter
      the result is kept, without one the slot is freed. */
  lemma SlotExact(b: Bridge, command: Command, result: OtaError, signaled: bool)
    ensures var (taken, t) := Take(b);
            && (taken == Some(b.command) <==> b.state == Queued) && (taken == None <==> b.state != Queued)
            && t == (if b.state == Queued then b.(state := Processing) else b)
    ensures var t := Complete(b, command, result, signaled);
            var running := && b.state == Processing && b.command.generation == command.generation
                           && b.command.kind == command.kind;
            && (running && b.waiterAttached ==>
                  t == b.(state := Completed, result := result, signal := b.signal || signaled))
            && (running && !b.waiterAttached ==> t == b.(state := Free))
            && (!running ==> t == b)
  {
  }

  // ------------------------------------------------------------ any sequence of calls

  function RecordAll(l: Ledger, calls: seq<Call>): Ledger
    requires LedgerInv(l)
    ensures LedgerInv(RecordAll(l, calls))
    decreases |calls|
  {
    if calls == [] then l
    else
      var most := RecordAll(l, calls[..|calls| - 1]);
      LedgerKept(most, calls[|calls| - 1]);
      Record(most, calls[|calls| - 1])
  }

  /** From an empty bridge, any sequence of calls keeps the ledger. */
  lemma {:induction false} AnyCalls(l: Ledger, calls: seq<Call>)
    requires BridgeInv(l.bridge) && l.bridge.activeGeneration == 0 && l.bridge.state == Free
    requires l.admitted == [] && l.submitted == l.taken == l.completed
    ensures LedgerInv(l) && LedgerInv(RecordAll(l, calls))
  {
  }

  /** From the moment a command is queued until it completes, no call by anyone changes the
      command or the shared buffer, nor releases or replaces its session. */
  lemma SlotFrozen(b: Bridge, c: Call)
    requires BridgeInv(b) && (b.state == Queued || b.state == Processing)
    ensures var t := CallBridge(b, c);
            t.data == b.data && t.command == b.command && t.activeGeneration == b.activeGeneration
  {
  }

  /** After any sequence of calls a wait hands out a result only when every accepted command has
      been completed; it is the result of the last of them, and it is handed out once. */
  lemma OwnResult(l: Ledger, calls: seq<Call>, generation: nat)
    requires BridgeInv(l.bridge) && l.bridge.activeGeneration == 0 && l.bridge.state == Free
    requires l.admitted == [] && l.submitted == l.taken == l.completed
    ensures LedgerInv(l)
    ensures var now := RecordAll(l, calls);
            var waits := {EnterWait(now.bridge, generation), LeaveWait(now.bridge, generation)};
            forall w, t :: (w, t) in waits && w.Ready? ==>
              && w.error == now.bridge.result && now.resultOf == now.submitted == now.completed
              && t.state == Free && !t.waiterAttached
  {
    AnyCalls(l, calls);
  }

  /** Once a command was accepted, a signal can only mean that its result is there: while
      the waiter is attached, a signaled wake finds the slot completed. */
  lemma SignalMeansCompleted(b: Bridge)
    requires BridgeInv(b) && b.waiterAttached && b.signal
    ensures b.state == Completed
  {
  }
}
