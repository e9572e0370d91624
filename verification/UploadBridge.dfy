/** The one-slot bridge between the HTTPD task and the application task. Every function is
    one locked section, hence one atomic step of whichever task calls it. */
module UploadBridge {
  import opened Octets

  const CAPACITY: nat := 1024
  const UINT64_MAX: nat := 0xFFFF_FFFF_FFFF_FFFF

  datatype OtaError = NoError | Invalid | Busy | TooLarge | UpdateFailure | Unavailable

  datatype Operation = StartUpload | SendChunk | EndUpload | ArmRestart
  datatype SlotState = Free | Queued | Processing | Completed
  datatype Admission = Accepted | AdmissionBusy | Exhausted
  datatype Command = Command(kind: Operation, generation: nat, expectedSize: nat, length: nat)

  datatype WaitStatus = Signaled | TimedOut | WaitFailure
  datatype Waited = Ready(error: OtaError) | Refused | Pending

  /** `signal` is the completion semaphore of the synchronizer. */
  datatype Bridge = Bridge(
    data: seq<octet>, command: Command, result: OtaError,
    lastGeneration: nat, activeGeneration: nat, state: SlotState,
    cancelRequested: bool, waiterAttached: bool, signal: bool)

  function Admit(b: Bridge): (Admission, Bridge) {
    if b.activeGeneration != 0 || b.state != Free then (AdmissionBusy, b)
    else if b.lastGeneration == UINT64_MAX then (Exhausted, b)
    else
      var g := b.lastGeneration + 1;
      (Accepted, b.(lastGeneration := g, activeGeneration := g, cancelRequested := false))
  }

  function RequestCancel(b: Bridge, generation: nat): Bridge {
    if generation != 0 && b.activeGeneration == generation then b.(cancelRequested := true) else b
  }

  predicate CancellationRequested(b: Bridge, generation: nat) {
    b.activeGeneration == generation && b.cancelRequested
  }

  predicate Releasable(b: Bridge, generation: nat) {
    generation != 0 && b.activeGeneration == generation && b.state != Processing && b.state != Queued
  }

  function Release(b: Bridge, generation: nat): Bridge {
    if Releasable(b, generation) then b.(activeGeneration := 0, cancelRequested := false) else b
  }

  predicate WellFormed(command: Command, bytes: seq<octet>) {
    && command.generation != 0
    && (if command.kind == SendChunk then 1 <= command.length <= CAPACITY && |bytes| == command.length
        else command.length == 0)
  }

  predicate Submittable(b: Bridge, command: Command, bytes: seq<octet>) {
    && WellFormed(command, bytes)
    && command.generation == b.activeGeneration && !b.cancelRequested && b.state == Free
  }

  /** `prepared` is the synchronizer's answer to clearing a stale completion signal. */
  function Submit(b: Bridge, command: Command, bytes: seq<octet>, prepared: bool): (bool, Bridge)
    requires |b.data| == CAPACITY
  {
    if Submittable(b, command, bytes) && prepared then
      (true, b.(command := command, state := Queued, waiterAttached := true, signal := false,
                data := if command.kind == SendChunk then bytes + b.data[command.length..] else b.data))
    else (false, b)
  }

  predicate Waits(b: Bridge, generation: nat) {
    generation != 0 && b.command.generation == generation && b.waiterAttached
  }

  /** The first locked section of a wait: the result may already be there. */
  function EnterWait(b: Bridge, generation: nat): (Waited, Bridge) {
    if !Waits(b, generation) then (Refused, b)
    else if b.state == Completed then (Ready(b.result), b.(state := Free, waiterAttached := false))
    else (Pending, b)
  }

  /** The semaphore wait between the two sections; a signalled return consumes the signal. */
  function Block(b: Bridge, status: WaitStatus): Bridge {
    if status == Signaled then b.(signal := false) else b
  }

  /** The second locked section: without a result the waiter detaches and, unless it was
      arming the restart, cancels the session. */
  function LeaveWait(b: Bridge, generation: nat): (Waited, Bridge) {
    if !Waits(b, generation) then (Refused, b)
    else if b.state == Completed then (Ready(b.result), b.(state := Free, waiterAttached := false))
    else (Refused, b.(waiterAttached := false, cancelRequested := b.cancelRequested || b.command.kind != ArmRestart))
  }

  function Take(b: Bridge): (Option<Command>, Bridge) {
    if b.state == Queued then (Some(b.command), b.(state := Processing)) else (None, b)
  }

  predicate Completable(b: Bridge, command: Command) {
    b.state == Processing && b.command.generation == command.generation && b.command.kind == command.kind
  }

  /** `signaled` is the synchronizer's answer; a failed signal does not lose the result. */
  function Complete(b: Bridge, command: Command, result: OtaError, signaled: bool): Bridge {
    if !Completable(b, command) then b
    else if b.waiterAttached then b.(result := result, state := Completed, signal := b.signal || signaled)
    else b.(state := Free)
  }

  // ------------------------------------------------------------ the object both tasks share

  class StreamingUploadBridge {
    const data: array<octet>
    var command: Command
    var result: OtaError
    var lastGeneration: nat
    var activeGeneration: nat
    var state: SlotState
    var cancelRequested: bool
    var waiterAttached: bool
    var signal: bool

    ghost predicate Valid()
      reads this
    {
      data.Length == CAPACITY
    }

    ghost function Abs(): Bridge
      reads this, data
    {
      Bridge(data[..], command, result, lastGeneration, activeGeneration, state, cancelRequested, waiterAttached,
             signal)
    }

    constructor (last: nat)
      ensures Valid() && fresh(data)
      ensures activeGeneration == 0 && state == Free && lastGeneration == last && !cancelRequested && !waiterAttached
              && !signal
    {
      data := new octet[1024](_ => 0);
      command, result := Command(StartUpload, 0, 0, 0), NoError;
      lastGeneration, activeGeneration, state := last, 0, Free;
      cancelRequested, waiterAttached, signal := false, false, false;
    }

    /** The generation is handed out only on acceptance. */
    method AdmitSession(current: nat) returns (r: Admission, generation: nat)
      requires Valid()
      modifies this
      ensures Valid() && (r, Abs()) == Admit(old(Abs()))
      ensures generation == if r == Accepted then activeGeneration else current
    {
      r, generation := AdmissionBusy, current;
      if activeGeneration == 0 && state == Free {
        r := if lastGeneration == UINT64_MAX then Exhausted else Accepted;
      }
      if r == Accepted {
        lastGeneration := lastGeneration + 1;
        generation := lastGeneration;
        activeGeneration := generation;
        cancelRequested := false;
      }
    }

    method Cancel(generation: nat) returns (matches: bool)
      requires Valid()
      modifies this
      ensures Valid() && Abs() == RequestCancel(old(Abs()), generation)
      ensures matches <==> generation != 0 && old(activeGeneration) == generation
    {
      if generation == 0 {
        return false;
      }
      matches := activeGeneration == generation;
      if matches {
        cancelRequested := true;
      }
    }

    method ReleaseSession(generation: nat) returns (released: bool)
      requires Valid()
      modifies this
      ensures Valid() && Abs() == Release(old(Abs()), generation)
      ensures released <==> Releasable(old(Abs()), generation)
    {
      released := generation != 0 && activeGeneration == generation && state != Processing && state != Queued;
      if released {
        activeGeneration := 0;
        cancelRequested := false;
      }
    }

    method SubmitCommand(cmd: Command, bytes: seq<octet>, prepared: bool) returns (accepted: bool)
      requires Valid()
      modifies this, data
      ensures Valid() && (accepted, Abs()) == Submit(old(Abs()), cmd, bytes, prepared)
    {
      if cmd.generation == 0 || cmd.length > CAPACITY ||
         (cmd.kind == SendChunk && (cmd.length == 0 || |bytes| != cmd.length)) ||
         (cmd.kind != SendChunk && cmd.length != 0) {
        return false;
      }
      accepted := cmd.generation == activeGeneration && !cancelRequested && state == Free && prepared;
      if accepted {
        signal := false;
        command := cmd;
        if cmd.kind == SendChunk {
          for i := 0 to cmd.length
            invariant forall k :: 0 <= k < i ==> data[k] == bytes[k]
            invariant forall k :: i <= k < data.Length ==> data[k] == old(data[k])
            modifies data
          {
            data[i] := bytes[i];
          }
          assert data[..] == bytes + old(data[..])[cmd.length..];
        }
        state := Queued;
        waiterAttached := true;
      }
    }

    method BeginWait(generation: nat) returns (r: Waited)
      requires Valid()
      modifies this
      ensures Valid() && (r, Abs()) == EnterWait(old(Abs()), generation)
    {
      if generation == 0 || command.generation != generation || !waiterAttached {
        return Refused;
      }
      if state == Completed {
        r := Ready(result);
        state := Free;
        waiterAttached := false;
      } else {
        r := Pending;
      }
    }

    method EndWait(generation: nat) returns (r: Waited)
      requires Valid() && generation != 0
      modifies this
      ensures Valid() && (r, Abs()) == LeaveWait(old(Abs()), generation)
    {
      if command.generation != generation || !waiterAttached {
        return Refused;
      }
      if state == Completed {
        r := Ready(result);
        state := Free;
        waiterAttached := false;
      } else {
        var arm := command.kind == ArmRestart;
        waiterAttached := false;
        if !arm {
          cancelRequested := true;
        }
        r := Refused;
      }
    }

    method TakeCommand() returns (r: Option<Command>)
      requires Valid()
      modifies this
      ensures Valid() && (r, Abs()) == Take(old(Abs()))
    {
      r := None;
      if state == Queued {
        r := Some(command);
        state := Processing;
      }
    }

    method CompleteCommand(cmd: Command, outcome: OtaError, signaled: bool) returns (valid: bool)
      requires Valid()
      modifies this
      ensures Valid() && Abs() == Complete(old(Abs()), cmd, outcome, signaled)
      ensures valid <==> Completable(old(Abs()), cmd)
    {
      valid := state == Processing && command.generation == cmd.generation && command.kind == cmd.kind;
      if valid {
        if waiterAttached {
          result := outcome;
          state := Completed;
          signal := signal || signaled;
        } else {
          state := Free;
        }
      }
    }
  }
}
