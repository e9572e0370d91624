/** The application task's side of an upload: it alone drives the flash authority. */
module OtaApplication {
  import opened Octets
  import opened UploadBridge

  const MAX_CHUNK: nat := 1024
  const UINT32: nat := 0x1_0000_0000
  const RESTART_WATCHDOG_MS: nat := 30000

  /** Starting, Finalizing, Aborting and Failed are only held inside a single call. */
  datatype OtaState = Idle | Starting | Receiving | Finalizing | AwaitingRestart | Aborting | Failed

  /** Calls on the authority, in order, with the authority's answer where it has one. */
  datatype Op =
    | StopPumps
    | SetOtaInProgress(active: bool)
    | Begin(size: nat, ok: bool)
    | Write(bytes: seq<octet>, ok: bool)
    | Finalize(ok: bool)
    | Abort

  /** What the authority, the restart scheduler and the clock answer during one call. */
  datatype Env = Env(restartPending: bool, available: nat, begins: bool, written: nat, ends: bool, now: nat,
                     schedules: bool)

  datatype App = App(
    state: OtaState, generation: nat, expected: nat, received: nat, finalizedAt: nat,
    updateBegun: bool, otaGuard: bool, restartArmed: bool)

  datatype Outcome = Outcome(app: App, result: OtaError, ops: seq<Op>)

  const InitialApp: App := App(Idle, 0, 0, 0, 0, false, false, false)

  function Cleanup(a: App): (App, seq<Op>) {
    (a.(state := Idle, generation := 0, expected := 0, received := 0, updateBegun := false, otaGuard := false,
        restartArmed := false),
     (if a.updateBegun then [Abort] else []) + (if a.otaGuard then [SetOtaInProgress(false)] else []))
  }

  function Fail(a: App, error: OtaError, ops: seq<Op>): Outcome {
    var (app, more) := Cleanup(a);
    Outcome(app, error, ops + more)
  }

  function ExecuteStart(a: App, c: Command, env: Env, canceled: bool): Outcome {
    if a.state != Idle || c.generation == 0 || c.expectedSize == 0 then Outcome(a, Invalid, [])
    else if env.restartPending then Outcome(a, Busy, [])
    else if c.expectedSize > env.available then Outcome(a, TooLarge, [])
    else
      var started := a.(state := Starting, generation := c.generation, expected := c.expectedSize, received := 0,
                        otaGuard := true);
      var ops := [StopPumps, SetOtaInProgress(true), Begin(c.expectedSize, env.begins)];
      if !env.begins then Fail(started, UpdateFailure, ops)
      else if canceled then Fail(started.(updateBegun := true), Unavailable, ops)
      else Outcome(started.(updateBegun := true, state := Receiving), NoError, ops)
  }

  function ExecuteChunk(a: App, bytes: seq<octet>, env: Env, canceled: bool): Outcome
    requires a.received <= a.expected
  {
    if |bytes| == 0 || |bytes| > MAX_CHUNK then Outcome(a, Invalid, [])
    else if |bytes| > a.expected - a.received then Fail(a, Invalid, [])
    else if env.written != |bytes| then Fail(a, UpdateFailure, [Write(bytes, false)])
    else if canceled then Fail(a.(received := a.received + |bytes|), Unavailable, [Write(bytes, true)])
    else Outcome(a.(received := a.received + |bytes|), NoError, [Write(bytes, true)])
  }

  function ExecuteEnd(a: App, env: Env): Outcome {
    if a.received != a.expected then Fail(a, Invalid, [])
    else if !env.ends then Fail(a.(state := Finalizing), UpdateFailure, [Finalize(false)])
    else Outcome(a.(state := AwaitingRestart, updateBegun := false, finalizedAt := env.now), NoError, [Finalize(true)])
  }

  function ExecuteArm(a: App, env: Env): Outcome {
    if a.state != AwaitingRestart then Outcome(a, Invalid, [])
    else
      var armed := a.(restartArmed := a.restartArmed || env.schedules);
      Outcome(armed, if armed.restartArmed then NoError else Unavailable, [])
  }

  /** One command. `canceled` is the bridge's answer, read under its lock after the
      authority was called; `bytes` is what the shared buffer holds. */
  function Execute(a: App, c: Command, bytes: seq<octet>, env: Env, canceled: bool): Outcome
    requires a.received <= a.expected
  {
    if c.kind == StartUpload then ExecuteStart(a, c, env, canceled)
    else if c.generation == 0 || c.generation != a.generation then Outcome(a, Invalid, [])
    else if c.kind == ArmRestart then ExecuteArm(a, env)
    else if a.state != Receiving then Outcome(a, Invalid, [])
    else if c.kind == SendChunk then ExecuteChunk(a, bytes, env, canceled)
    else ExecuteEnd(a, env)
  }

  /** A command whose session is canceled fails unexecuted, unless it arms the restart. */
  function Perform(a: App, c: Command, bytes: seq<octet>, env: Env, refuse: bool, canceled: bool): Outcome
    requires a.received <= a.expected
  {
    if refuse && c.kind != ArmRestart then Fail(a, Unavailable, []) else Execute(a, c, bytes, env, canceled)
  }

  function Watchdog(a: App, now: nat, schedules: bool): App {
    if a.state == AwaitingRestart && !a.restartArmed && (now - a.finalizedAt) % UINT32 >= RESTART_WATCHDOG_MS
    then a.(restartArmed := schedules) else a
  }

  // ------------------------------------------------------------ what the flash has seen

  /** The update state of the flash partition, replayed from the calls. `Misused` is any
      call out of order: a begin while open, a finalize that is short, an abort of nothing. */
  datatype Flash =
    | Closed
    | Open(size: nat, bytes: seq<octet>)
    | Spoiled
    | Finalized(size: nat, bytes: seq<octet>)
    | Misused

  function FlashStep(f: Flash, op: Op): Flash {
    match op
    case Begin(size, ok) => if f.Open? || f.Spoiled? || f.Misused? then Misused else if ok then Open(size, []) else f
    case Write(bytes, ok) =>
      if !f.Open? || |f.bytes| + |bytes| > f.size then Misused
      else if ok then Open(f.size, f.bytes + bytes)
      else Spoiled
    case Finalize(ok) =>
      if !f.Open? || |f.bytes| != f.size then Misused else if ok then Finalized(f.size, f.bytes) else Spoiled
    case Abort => if f.Open? || f.Spoiled? then Closed else Misused
    case _ => f
  }

  function FlashAfter(f: Flash, ops: seq<Op>): Flash
    decreases |ops|
  {
    if ops == [] then f else FlashStep(FlashAfter(f, ops[..|ops| - 1]), ops[|ops| - 1])
  }

  /** The value of the last SetOtaInProgress call. */
  function GuardAfter(ops: seq<Op>): bool {
    if ops == [] then false
    else if ops[|ops| - 1].SetOtaInProgress? then ops[|ops| - 1].active
    else GuardAfter(ops[..|ops| - 1])
  }

  /** Between two calls: the fields, the guard and the flash agree. */
  ghost predicate AppInv(a: App, ops: seq<Op>) {
    var f := FlashAfter(Closed, ops);
    && a.state in {Idle, Receiving, AwaitingRestart}
    && (a.otaGuard <==> a.state != Idle) && GuardAfter(ops) == a.otaGuard
    && (a.generation != 0 <==> a.state != Idle)
    && (a.updateBegun <==> a.state == Receiving)
    && a.received <= a.expected
    && (a.state == Idle ==> f.Closed? || f.Finalized?)
    && (a.state == Receiving ==> f.Open? && f.size == a.expected && |f.bytes| == a.received)
    && (a.state == AwaitingRestart ==> f.Finalized? && f.size == a.expected == a.received && |f.bytes| == a.received)
    && (a.restartArmed ==> a.state == AwaitingRestart)
  }

  lemma FlashAppend(ops: seq<Op>, op: Op)
    ensures FlashAfter(Closed, ops + [op]) == FlashStep(FlashAfter(Closed, ops), op)
    ensures GuardAfter(ops + [op]) == if op.SetOtaInProgress? then op.active else GuardAfter(ops)
  {
    assert (ops + [op])[..|ops|] == ops;
  }

  /** Cleanup closes whatever is open and returns to Idle, whatever the state. */
  lemma CleanupCloses(a: App, ops: seq<Op>)
    requires GuardAfter(ops) == a.otaGuard
    requires var f := FlashAfter(Closed, ops);
             if a.updateBegun then f.Open? || f.Spoiled? else f.Closed? || f.Finalized?
    ensures var (app, more) := Cleanup(a);
            && AppInv(app, ops + more) && app.state == Idle
            && FlashAfter(Closed, ops + more) == if a.updateBegun then Closed else FlashAfter(Closed, ops)
  {
    hide FlashAfter, GuardAfter;
    var (app, more) := Cleanup(a);
    var first := if a.updateBegun then [Abort] else [];
    var second := if a.otaGuard then [SetOtaInProgress(false)] else [];
    assert more == first + second && ops + more == (ops + first) + second;
    assert ops + [] == ops && (ops + first) + [] == ops + first;
    FlashAppend(ops, Abort);
    FlashAppend(ops + first, SetOtaInProgress(false));
  }

  lemma BeginOps(ops: seq<Op>, size: nat, ok: bool)
    ensures var begun := ops + [StopPumps, SetOtaInProgress(true), Begin(size, ok)];
            && FlashAfter(Closed, begun) == FlashStep(FlashAfter(Closed, ops), Begin(size, ok))
            && GuardAfter(begun)
  {
    hide FlashStep;
    var one := ops + [StopPumps];
    var two := one + [SetOtaInProgress(true)];
    FlashAppend(ops, StopPumps);
    FlashAppend(one, SetOtaInProgress(true));
    FlashAppend(two, Begin(size, ok));
    StepIgnores(FlashAfter(Closed, ops));
    assert ops + [StopPumps, SetOtaInProgress(true), Begin(size, ok)] == two + [Begin(size, ok)];
  }

  lemma StepIgnores(f: Flash)
    ensures FlashStep(f, StopPumps) == f && FlashStep(f, SetOtaInProgress(true)) == f
  {
  }

  lemma StartKeeps(a: App, ops: seq<Op>, c: Command, env: Env, canceled: bool)
    requires AppInv(a, ops)
    ensures var o := ExecuteStart(a, c, env, canceled);
            AppInv(o.app, ops + o.ops) &&
            (o.result == NoError ==> (
              && o.app ==
                 a.(state := Receiving, generation := c.generation, expected := c.expectedSize, received := 0,
                    updateBegun := true, otaGuard := true)
              && FlashAfter(Closed, ops + o.ops) == Open(c.expectedSize, [])))
  {
    hide FlashAfter, GuardAfter, Cleanup;
    assert ops + [] == ops;
    if a.state == Idle && c.generation != 0 && c.expectedSize != 0 && !env.restartPending
       && c.expectedSize <= env.available {
      var begun := [StopPumps, SetOtaInProgress(true), Begin(c.expectedSize, env.begins)];
      BeginOps(ops, c.expectedSize, env.begins);
      var started := a.(state := Starting, generation := c.generation, expected := c.expectedSize, received := 0,
                        otaGuard := true);
      var failing := if env.begins then started.(updateBegun := true) else started;
      CleanupCloses(failing, ops + begun);
      assert ops + (begun + Cleanup(failing).1) == ops + begun + Cleanup(failing).1;
    }
  }

  lemma ChunkKeeps(a: App, ops: seq<Op>, bytes: seq<octet>, env: Env, canceled: bool)
    requires AppInv(a, ops) && a.state == Receiving
    ensures var o := ExecuteChunk(a, bytes, env, canceled);
            && AppInv(o.app, ops + o.ops)
            && (o.result == NoError ==> (
              && o.app == a.(received := a.received + |bytes|)
              && FlashAfter(Closed, ops + o.ops) == Open(a.expected, FlashAfter(Closed, ops).bytes + bytes)))
  {
    assert ops + [] == ops;
    if 0 < |bytes| <= MAX_CHUNK {
      if |bytes| > a.expected - a.received {
        CleanupCloses(a, ops);
        assert [] + Cleanup(a).1 == Cleanup(a).1;
      } else {
        var op := Write(bytes, env.written == |bytes|);
        var failing := if env.written == |bytes| then a.(received := a.received + |bytes|) else a;
        FlashAppend(ops, op);
        CleanupCloses(failing, ops + [op]);
        assert ops + ([op] + Cleanup(failing).1) == ops + [op] + Cleanup(failing).1;
      }
    }
  }

  lemma EndKeeps(a: App, ops: seq<Op>, env: Env)
    requires AppInv(a, ops) && a.state == Receiving
    ensures var o := ExecuteEnd(a, env);
            && AppInv(o.app, ops + o.ops)
            && (o.result == NoError ==> (
              && o.app.state == AwaitingRestart && o.app.generation == a.generation
              && a.received == a.expected == o.app.expected
              && FlashAfter(Closed, ops + o.ops) == Finalized(a.expected, FlashAfter(Closed, ops).bytes)))
  {
    if a.received != a.expected {
      CleanupCloses(a, ops);
      assert [] + Cleanup(a).1 == Cleanup(a).1;
    } else {
      FlashAppend(ops, Finalize(env.ends));
      var failing := a.(state := Finalizing);
      if !env.ends {
        CleanupCloses(failing, ops + [Finalize(false)]);
      }
      assert ops + ([Finalize(env.ends)] + Cleanup(failing).1) == ops + [Finalize(env.ends)] + Cleanup(failing).1;
    }
  }

  /** Every command keeps fields, guard and flash in agreement: nothing is ever misused. */
  lemma PerformKeeps(a: App, ops: seq<Op>, c: Command, bytes: seq<octet>, env: Env, refuse: bool, canceled: bool)
    requires AppInv(a, ops)
    ensures var o := Perform(a, c, bytes, env, refuse, canceled); AppInv(o.app, ops + o.ops)
  {
    assert ops + [] == ops;
    if refuse && c.kind != ArmRestart {
      CleanupCloses(a, ops);
      assert [] + Cleanup(a).1 == Cleanup(a).1;
    } else if c.kind == StartUpload {
      StartKeeps(a, ops, c, env, canceled);
    } else if a.state == Receiving {
      ChunkKeeps(a, ops, bytes, env, canceled);
      EndKeeps(a, ops, env);
    }
  }

  // ------------------------------------------------------------ what "not misused" means

  predicate Closes(op: Op) {
    op.Abort? || op == Finalize(true)
  }

  predicate Opens(op: Op) {
    op.Begin? && op.ok
  }

  /** Before position `k` there is a successful begin with no begin or close after it. */
  ghost predicate OpenBefore(ops: seq<Op>, k: nat)
    requires k <= |ops|
  {
    exists i :: 0 <= i < k && Opens(ops[i]) && forall j :: i < j < k ==> !Closes(ops[j]) && !ops[j].Begin?
  }

  lemma OpenBeforeNext(ops: seq<Op>)
    requires ops != []
    ensures var k := |ops| - 1;
            OpenBefore(ops, |ops|) <==> Opens(ops[k]) || (OpenBefore(ops, k) && !Closes(ops[k]) && !ops[k].Begin?)
  {
    var k := |ops| - 1;
    if OpenBefore(ops, k) {
      var i :| 0 <= i < k && Opens(ops[i]) && forall j :: i < j < k ==> !Closes(ops[j]) && !ops[j].Begin?;
      if !Closes(ops[k]) && !ops[k].Begin? {
        assert 0 <= i < |ops|;
      }
    }
  }

  lemma {:induction false} FlashIsOpen(ops: seq<Op>)
    requires !FlashAfter(Closed, ops).Misused?
    ensures var f := FlashAfter(Closed, ops); (f.Open? || f.Spoiled?) <==> OpenBefore(ops, |ops|)
    decreases |ops|
  {
    if ops != [] {
      var most := ops[..|ops| - 1];
      FlashIsOpen(most);
      OpenBeforeNext(ops);
      OpenBeforeOfPrefix(ops, |most|);
    }
  }

  lemma OpenBeforeOfPrefix(ops: seq<Op>, k: nat)
    requires k <= |ops|
    ensures OpenBefore(ops[..k], k) <==> OpenBefore(ops, k)
  {
    var p := ops[..k];
    if OpenBefore(p, k) {
      var i :| 0 <= i < k && Opens(p[i]) && forall j :: i < j < k ==> !Closes(p[j]) && !p[j].Begin?;
      assert Opens(ops[i]) && forall j :: i < j < k ==> ops[j] == p[j];
    }
    if OpenBefore(ops, k) {
      var i :| 0 <= i < k && Opens(ops[i]) && forall j :: i < j < k ==> !Closes(ops[j]) && !ops[j].Begin?;
      assert Opens(p[i]) && forall j :: i < j < k ==> ops[j] == p[j];
    }
  }

  lemma {:induction false} MisusedStays(ops: seq<Op>, k: nat)
    requires k <= |ops| && FlashAfter(Closed, ops[..k]).Misused?
    ensures FlashAfter(Closed, ops).Misused?
    decreases |ops|
  {
    if k < |ops| {
      var most := ops[..|ops| - 1];
      assert most[..k] == ops[..k];
      MisusedStays(most, k);
    } else {
      assert ops[..k] == ops;
    }
  }

  /** A log that is not misused pairs begins and closes: every close, write and finalize
      falls inside exactly one open update, and no begin does. Since a close ends the update
      it falls in, each successful begin is closed at most once, by a finalize or an abort,
      and an abort never follows a successful finalize. */
  lemma Discipline(ops: seq<Op>, k: nat)
    requires !FlashAfter(Closed, ops).Misused? && k < |ops|
    ensures ops[k].Abort? || ops[k].Finalize? || ops[k].Write? ==> OpenBefore(ops, k)
    ensures ops[k].Begin? ==> !OpenBefore(ops, k)
    ensures ops[k].Finalize? ==> var f := FlashAfter(Closed, ops[..k]); f.Open? && |f.bytes| == f.size
  {
    var before := ops[..k];
    var upto := ops[..k + 1];
    if FlashAfter(Closed, upto).Misused? {
      MisusedStays(ops, k + 1);
    }
    assert upto == before + [ops[k]];
    FlashAppend(before, ops[k]);
    FlashIsOpen(before);
    OpenBeforeOfPrefix(ops, k);
  }

  /** Position `m` closes the update that `n` began, and nothing closes it again. */
  ghost predicate ClosedAt(ops: seq<Op>, n: nat, m: nat) {
    && n < m < |ops| && Closes(ops[m])
    && (forall j :: n < j < m ==> !Closes(ops[j]) && !ops[j].Begin?)
    && (forall j :: m < j < |ops| && Closes(ops[j]) ==> exists i :: m < i < j && Opens(ops[i]))
  }

  /** The first close or begin at or after `k`. */
  function NextEdge(ops: seq<Op>, k: nat): (m: nat)
    requires k <= |ops|
    ensures k <= m <= |ops|
    ensures forall j :: k <= j < m ==> !Closes(ops[j]) && !ops[j].Begin?
    ensures m < |ops| ==> Closes(ops[m]) || ops[m].Begin?
    decreases |ops| - k
  {
    if k == |ops| || Closes(ops[k]) || ops[k].Begin? then k else NextEdge(ops, k + 1)
  }

  /** The next edge after a successful begin is a close: nothing is begun while it is open. */
  lemma EdgeCloses(ops: seq<Op>, n: nat)
    requires !FlashAfter(Closed, ops).Misused? && n < |ops| && Opens(ops[n])
    ensures var m := NextEdge(ops, n + 1); if m == |ops| then OpenBefore(ops, m) else Closes(ops[m])
  {
    hide FlashAfter;
    var m := NextEdge(ops, n + 1);
    assert OpenBefore(ops, m);
    if m < |ops| {
      Discipline(ops, m);
    }
  }

  /** Between two closes there is a successful begin. */
  lemma ClosesAreApart(ops: seq<Op>, m: nat, j: nat)
    requires !FlashAfter(Closed, ops).Misused? && m < j < |ops| && Closes(ops[m]) && Closes(ops[j])
    ensures exists i :: m < i < j && Opens(ops[i])
  {
    hide FlashAfter;
    Discipline(ops, j);
    var i :| 0 <= i < j && Opens(ops[i]) && forall h :: i < h < j ==> !Closes(ops[h]) && !ops[h].Begin?;
    assert m < i;
  }

  /** A successful begin is still open, or it was closed by exactly one successful end or abort. */
  lemma OpenOrClosed(ops: seq<Op>, n: nat)
    requires !FlashAfter(Closed, ops).Misused? && n < |ops| && Opens(ops[n])
    ensures if NextEdge(ops, n + 1) == |ops| then OpenBefore(ops, |ops|) else exists m :: ClosedAt(ops, n, m)
  {
    hide FlashAfter, OpenBefore;
    EdgeCloses(ops, n);
    var m := NextEdge(ops, n + 1);
    if m < |ops| {
      forall j | m < j < |ops| && Closes(ops[j]) ensures exists i :: m < i < j && Opens(ops[i]) {
        ClosesAreApart(ops, m, j);
      }
      assert ClosedAt(ops, n, m);
    }
  }

  // ------------------------------------------------------------ what each command answers

  /** A start is accepted exactly for an idle application, a named session, a size that fits the free
      space, no restart pending, a flash that begins, and no cancellation; every refusal says why, and
      the pumps and the flash are touched only when nothing speaks against it beforehand. */
  lemma StartAnswer(a: App, c: Command, bytes: seq<octet>, env: Env, refuse: bool, canceled: bool)
    requires c.kind == StartUpload && a.received <= a.expected
    ensures var o := Perform(a, c, bytes, env, refuse, canceled);
            var proper := !refuse && a.state == Idle && c.generation != 0 && c.expectedSize != 0;
            var starts := proper && !env.restartPending && c.expectedSize <= env.available;
            && (o.result == NoError <==> starts && env.begins && !canceled)
            && (o.result == Busy <==> proper && env.restartPending)
            && (o.result == TooLarge <==> proper && !env.restartPending && c.expectedSize > env.available)
            && (o.result == UpdateFailure <==> starts && !env.begins)
            && (o.result == Unavailable <==> refuse || (starts && env.begins && canceled))
            && (o.result == Invalid <==> !refuse && !proper)
            && (StopPumps in o.ops <==> starts) && (Begin(c.expectedSize, env.begins) in o.ops <==> starts)
            && (starts ==> [StopPumps, SetOtaInProgress(true), Begin(c.expectedSize, env.begins)] <= o.ops)
            && (o.result == NoError ==>
                  && o.app.state == Receiving && o.app.generation == c.generation
                  && o.app.expected == c.expectedSize && o.app.received == 0)
            && (o.result in {UpdateFailure, Unavailable} ==> o.app.state == Idle)
            && (o.result in {Busy, TooLarge, Invalid} ==> o.app == a && o.ops == [])
  {
  }

  /** A chunk is written exactly when it belongs to the session being received, has 1 to 1024 bytes and
      does not exceed the announced size; it is accepted when all of it was written and nobody canceled. */
  lemma ChunkAnswer(a: App, c: Command, bytes: seq<octet>, env: Env, refuse: bool, canceled: bool)
    requires c.kind == SendChunk && a.received <= a.expected
    ensures var o := Perform(a, c, bytes, env, refuse, canceled);
            var mine := !refuse && c.generation != 0 && c.generation == a.generation && a.state == Receiving;
            var sized := mine && 1 <= |bytes| <= MAX_CHUNK;
            var fits := sized && a.received + |bytes| <= a.expected;
            var whole := env.written == |bytes|;
            && (Write(bytes, whole) in o.ops <==> fits)
            && (o.result == NoError <==> fits && whole && !canceled)
            && (o.result == UpdateFailure <==> fits && !whole)
            && (o.result == Unavailable <==> refuse || (fits && whole && canceled))
            && (o.result == Invalid <==> !refuse && !fits)
            && (o.result == NoError ==> o.app == a.(received := a.received + |bytes|))
            && (o.result != NoError && (refuse || sized) ==> o.app.state == Idle)
            && (!refuse && !sized ==> o.app == a && o.ops == [])
  {
  }

  /** An end is asked of the flash exactly when everything announced was received; it succeeds when
      the flash ends, and the time of that is remembered. */
  lemma EndAnswer(a: App, c: Command, bytes: seq<octet>, env: Env, refuse: bool, canceled: bool)
    requires c.kind == EndUpload && a.received <= a.expected
    ensures var o := Perform(a, c, bytes, env, refuse, canceled);
            var mine := !refuse && c.generation != 0 && c.generation == a.generation && a.state == Receiving;
            var complete := mine && a.received == a.expected;
            && (Finalize(env.ends) in o.ops <==> complete)
            && (o.result == NoError <==> complete && env.ends)
            && (o.result == UpdateFailure <==> complete && !env.ends)
            && (o.result == Unavailable <==> refuse)
            && (o.result == Invalid <==> !refuse && !complete)
            && (o.result == NoError ==> o.app.state == AwaitingRestart && o.app.finalizedAt == env.now)
            && (o.result != NoError && (refuse || mine) ==> o.app.state == Idle)
            && (!refuse && !mine ==> o.app == a && o.ops == [])
  {
  }

  /** Arming is never refused for a cancellation; it schedules the restart once, and succeeds exactly
      when the restart is scheduled. */
  lemma ArmAnswer(a: App, c: Command, bytes: seq<octet>, env: Env, refuse: bool, canceled: bool)
    requires c.kind == ArmRestart && a.received <= a.expected
    ensures var o := Perform(a, c, bytes, env, refuse, canceled);
            var mine := c.generation != 0 && c.generation == a.generation && a.state == AwaitingRestart;
            && o.ops == [] && o.app == a.(restartArmed := a.restartArmed || (mine && env.schedules))
            && (o.result == NoError <==> mine && o.app.restartArmed)
            && (o.result == Unavailable <==> mine && !o.app.restartArmed)
            && (o.result == Invalid <==> !mine)
  {
  }

  /** The watchdog schedules the restart exactly 30 seconds or more after the flash was finalized,
      unless it is scheduled already, and does nothing else. */
  lemma WatchdogExact(a: App, now: nat, schedules: bool)
    ensures var due := a.state == AwaitingRestart && (now - a.finalizedAt) % 0x1_0000_0000 >= 30000;
            Watchdog(a, now, schedules) == a.(restartArmed := a.restartArmed || (due && schedules))
  {
  }

  // ------------------------------------------------------------ the object of the application task

  /** The flash authority: what it is asked is logged, what it answers is given. */
  class OtaAuthority {
    var log: seq<Op>

    constructor ()
      ensures log == []
    {
      log := [];
    }

    method StopPumpsNow()
      modifies this
      ensures log == old(log) + [StopPumps]
    {
      log := log + [StopPumps];
    }

    method SetOta(active: bool)
      modifies this
      ensures log == old(log) + [SetOtaInProgress(active)]
    {
      log := log + [SetOtaInProgress(active)];
    }

    method BeginFirmwareUpdate(size: nat, answer: bool) returns (ok: bool)
      modifies this
      ensures ok == answer && log == old(log) + [Begin(size, answer)]
    {
      log := log + [Begin(size, answer)];
      ok := answer;
    }

    method WriteFirmware(bytes: seq<octet>, answer: nat) returns (written: nat)
      modifies this
      ensures written == answer && log == old(log) + [Write(bytes, answer == |bytes|)]
    {
      log := log + [Write(bytes, answer == |bytes|)];
      written := answer;
    }

    method EndFirmwareUpdate(answer: bool) returns (ok: bool)
      modifies this
      ensures ok == answer && log == old(log) + [Finalize(answer)]
    {
      log := log + [Finalize(answer)];
      ok := answer;
    }

    method AbortFirmwareUpdate()
      modifies this
      ensures log == old(log) + [Abort]
    {
      log := log + [Abort];
    }
  }

  class DoserOtaApplication {
    const authority: OtaAuthority
    var state: OtaState
    var generation: nat
    var expected: nat
    var received: nat
    var finalizedAt: nat
    var updateBegun: bool
    var otaGuard: bool
    var restartArmed: bool

    ghost function Abs(): App
      reads this
    {
      App(state, generation, expected, received, finalizedAt, updateBegun, otaGuard, restartArmed)
    }

    ghost predicate Valid()
      reads this, authority
    {
      AppInv(Abs(), authority.log)
    }

    constructor (authority: OtaAuthority)
      requires authority.log == []
      ensures Valid() && Abs() == InitialApp && this.authority == authority
    {
      this.authority := authority;
      state, generation, expected, received, finalizedAt := Idle, 0, 0, 0, 0;
      updateBegun, otaGuard, restartArmed := false, false, false;
    }

    method CleanupSession()
      modifies this, authority
      ensures (Abs(), authority.log) == (Cleanup(old(Abs())).0, old(authority.log) + Cleanup(old(Abs())).1)
    {
      state := Aborting;
      if updateBegun {
        authority.AbortFirmwareUpdate();
      }
      updateBegun := false;
      if otaGuard {
        authority.SetOta(false);
      }
      otaGuard := false;
      expected, received := 0, 0;
      restartArmed := false;
      state := Failed;
      state := Idle;
      generation := 0;
      assert authority.log == old(authority.log) + Cleanup(old(Abs())).1;
    }

    method Start(c: Command, env: Env, canceled: bool) returns (result: OtaError)
      modifies this, authority
      ensures var o := ExecuteStart(old(Abs()), c, env, canceled);
              && Abs() == o.app && result == o.result && authority.log == old(authority.log) + o.ops
    {
      if state != Idle || c.generation == 0 || c.expectedSize == 0 {
        return Invalid;
      }
      if env.restartPending {
        return Busy;
      }
      if c.expectedSize > env.available {
        return TooLarge;
      }
      state := Starting;
      generation := c.generation;
      expected := c.expectedSize;
      received := 0;
      authority.StopPumpsNow();
      authority.SetOta(true);
      otaGuard := true;
      var begun := authority.BeginFirmwareUpdate(expected, env.begins);
      if !begun {
        CleanupSession();
        return UpdateFailure;
      }
      updateBegun := true;
      if canceled {
        CleanupSession();
        return Unavailable;
      }
      state := Receiving;
      return NoError;
    }

    method Chunk(bytes: seq<octet>, env: Env, canceled: bool) returns (result: OtaError)
      requires received <= expected
      modifies this, authority
      ensures var o := ExecuteChunk(old(Abs()), bytes, env, canceled);
              && Abs() == o.app && result == o.result && authority.log == old(authority.log) + o.ops
    {
      if |bytes| == 0 || |bytes| > 1024 {
        return Invalid;
      }
      if |bytes| > expected - received {
        CleanupSession();
        return Invalid;
      }
      var written := authority.WriteFirmware(bytes, env.written);
      if written != |bytes| {
        CleanupSession();
        return UpdateFailure;
      }
      received := received + |bytes|;
      if canceled {
        CleanupSession();
        return Unavailable;
      }
      return NoError;
    }

    method End(env: Env) returns (result: OtaError)
      modifies this, authority
      ensures var o := ExecuteEnd(old(Abs()), env);
              && Abs() == o.app && result == o.result && authority.log == old(authority.log) + o.ops
    {
      if received != expected {
        CleanupSession();
        return Invalid;
      }
      state := Finalizing;
      var ended := authority.EndFirmwareUpdate(env.ends);
      if !ended {
        CleanupSession();
        return UpdateFailure;
      }
      updateBegun := false;
      finalizedAt := env.now;
      state := AwaitingRestart;
      return NoError;
    }

    /** One command taken from the bridge; the object stays consistent with the flash. */
    method Handle(c: Command, bytes: seq<octet>, env: Env, refuse: bool, canceled: bool) returns (result: OtaError)
      requires Valid()
      modifies this, authority
      ensures Valid()
      ensures var o := Perform(old(Abs()), c, bytes, env, refuse, canceled);
              && Abs() == o.app && result == o.result && authority.log == old(authority.log) + o.ops
    {
      hide AppInv, Cleanup;
      PerformKeeps(Abs(), authority.log, c, bytes, env, refuse, canceled);
      AppInvBounds(Abs(), authority.log);
      assert [] + Cleanup(Abs()).1 == Cleanup(Abs()).1 && authority.log + [] == authority.log;
      if refuse && c.kind != ArmRestart {
        CleanupSession();
        return Unavailable;
      }
      if c.kind == StartUpload {
        result := Start(c, env, canceled);
        return;
      }
      if c.generation == 0 || c.generation != generation {
        return Invalid;
      }
      if c.kind == ArmRestart {
        if state != AwaitingRestart {
          return Invalid;
        }
        if !restartArmed {
          restartArmed := env.schedules;
        }
        return if restartArmed then NoError else Unavailable;
      }
      if state != Receiving {
        return Invalid;
      }
      if c.kind == SendChunk {
        result := Chunk(bytes, env, canceled);
      } else {
        result := End(env);
      }
    }

    method ServiceRestartWatchdog(now: nat, schedules: bool)
      requires Valid()
      modifies this`restartArmed
      ensures Valid() && Abs() == Watchdog(old(Abs()), now, schedules)
    {
      if state == AwaitingRestart && !restartArmed && (now - finalizedAt) % UINT32 >= RESTART_WATCHDOG_MS {
        restartArmed := schedules;
      }
    }
  }

  lemma AppInvBounds(a: App, ops: seq<Op>)
    requires AppInv(a, ops)
    ensures a.received <= a.expected
  {
  }
}
