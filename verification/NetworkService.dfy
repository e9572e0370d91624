/** The station connection: connect timeouts and reconnects on either of the two clocks. */
module NetworkService {
  import opened MillisClock
  import opened Octets

  datatype NetConfig = NetConfig(
    valid: bool, staEnabled: bool, autoReconnect: bool, reconnectIntervalMs: u32, connectTimeoutMs: u32,
    fastRetryEnabled: bool, fastReconnectIntervalMs: u32)

  datatype NetworkState = Disabled | Idle | Connecting | Connected | Disconnected | NetError

  datatype BackendState = BackendConnected | BackendConnecting | BackendDisconnected | BackendError

  datatype Net = Net(
    initialized: bool, initializationFailed: bool, config: NetConfig, state: NetworkState, reconnectCount: u32,
    activeReconnectIntervalMs: u32, reconnectAnchorMs: u64, connectingStartedMs: u64, connectedSinceMs: u64,
    hasReconnectAnchor: bool, hasConnectingStarted: bool, hasConnectedSince: bool)

  const DEFAULT_RECONNECT_INTERVAL_MS: u32 := 10000
  const NO_CONFIG := NetConfig(true, false, true, DEFAULT_RECONNECT_INTERVAL_MS, 0, false, 0)

  const FRESH := Net(false, false, NO_CONFIG, Disabled, 0, DEFAULT_RECONNECT_INTERVAL_MS, 0, 0, 0, false, false, false)

  /** What the backend answers when it is asked during one update. */
  datatype Answers = Answers(sta: BackendState, fastCandidate: bool, reconnects: bool)

  /** Starting up; `radio` and `connects` say whether the radio policy and the rest of the
      initialisation succeed. No clock is read. */
  function Begin(config: NetConfig, apEnabled: bool, radio: bool, connects: bool): (Net, bool) {
    var blank := FRESH;
    if !config.valid then (blank.(state := NetError), false)
    else
      var t := blank.(config := config, activeReconnectIntervalMs := config.reconnectIntervalMs);
      if !config.staEnabled && !apEnabled then (t.(initialized := true), true)
      else if !radio then (t.(state := NetError), false)
      else if !connects then (t.(initialized := true, state := NetError, initializationFailed := true), false)
      else if !config.staEnabled then (t.(initialized := true, state := Idle), true)
      else (t.(initialized := true, state := Connecting), true)
  }

  function ClearStaRuntime(s: Net): Net {
    s.(connectedSinceMs := 0, hasConnectedSince := false)
  }

  predicate RetriesFast(config: NetConfig, a: Answers) {
    config.fastRetryEnabled && a.fastCandidate && config.fastReconnectIntervalMs > 0
  }

  /** A disconnected station waits one interval from when it was first seen so, then reconnects. */
  function Disconnect(s: Net, sta: BackendState, a: Answers, now: u64): (Net, bool) {
    var t := ClearStaRuntime(s).(connectingStartedMs := 0, hasConnectingStarted := false,
                                 state := if sta == BackendError then NetError else Disconnected);
    if !s.hasReconnectAnchor then
      (t.(reconnectAnchorMs := now, hasReconnectAnchor := true,
          activeReconnectIntervalMs := if RetriesFast(s.config, a) then s.config.fastReconnectIntervalMs
                                       else s.config.reconnectIntervalMs), false)
    else if !s.config.autoReconnect || Elapsed(now, s.reconnectAnchorMs) < s.activeReconnectIntervalMs then (t, false)
    else
      var u := t.(reconnectAnchorMs := now, hasReconnectAnchor := false,
                  reconnectCount := (s.reconnectCount + 1) % WRAP32);
      if a.reconnects then (u.(state := Connecting, connectingStartedMs := now, hasConnectingStarted := true), true)
      else (u.(state := NetError), true)
  }

  /** One update; the flag says whether a reconnect was tried. */
  function Updated(s: Net, a: Answers, now: u64): (Net, bool) {
    if !s.initialized || s.initializationFailed || !s.config.staEnabled then (s, false)
    else
      match a.sta
      case BackendConnected =>
        var t := if s.state != Connected then s.(connectedSinceMs := now, hasConnectedSince := true) else s;
        (t.(state := Connected, hasReconnectAnchor := false, hasConnectingStarted := false, connectingStartedMs := 0),
         false)
      case BackendConnecting =>
        var t := ClearStaRuntime(s).(state := Connecting);
        if !s.hasConnectingStarted then (t.(connectingStartedMs := now, hasConnectingStarted := true), false)
        else if s.config.connectTimeoutMs > 0 && Elapsed(now, s.connectingStartedMs) >= s.config.connectTimeoutMs then
          Disconnect(t, BackendDisconnected, a, now)
        else (t, false)
      case _ => Disconnect(s, a.sta, a, now)
  }

  function Uptime(s: Net, now: u64): nat {
    if s.state != Connected || !s.hasConnectedSince then 0 else Elapsed(now, s.connectedSinceMs)
  }

  // ------------------------------------------------------------ the service

  class NetworkService {
    const legacyTiming: bool
    const legacyClock: LegacyMillisClock
    var s: Net

    constructor (legacyTiming: bool)
      ensures this.legacyTiming == legacyTiming && s == FRESH
      ensures fresh(legacyClock) && legacyClock.State() == UNOBSERVED
    {
      this.legacyTiming := legacyTiming;
      legacyClock := new LegacyMillisClock();
      s := FRESH;
    }

    method Update(nowMs: u32, monotonicMs: u64, a: Answers) returns (reconnected: bool, ghost now: u64)
      modifies this, legacyClock
      ensures legacyClock.State() ==
              if legacyTiming then Observed(old(legacyClock.State()), nowMs) else old(legacyClock.State())
      ensures now == (if legacyTiming then legacyClock.nowMs else monotonicMs)
      ensures (s, reconnected) == Updated(old(s), a, now)
    {
      if legacyTiming {
        legacyClock.Observe(nowMs);
      }
      reconnected := false;
      var time := if legacyTiming then legacyClock.nowMs else monotonicMs;
      now := time;
      if !s.initialized || s.initializationFailed || !s.config.staEnabled {
        return;
      }
      if a.sta == BackendConnected {
        if s.state != Connected {
          s := s.(connectedSinceMs := time, hasConnectedSince := true);
        }
        s := s.(state := Connected, hasReconnectAnchor := false, hasConnectingStarted := false,
                connectingStartedMs := 0);
        return;
      }
      if a.sta == BackendConnecting {
        s := s.(state := Connecting);
        s := s.(connectedSinceMs := 0, hasConnectedSince := false);
        if !s.hasConnectingStarted {
          s := s.(connectingStartedMs := time, hasConnectingStarted := true);
        } else if s.config.connectTimeoutMs > 0 && Elapsed(time, s.connectingStartedMs) >= s.config.connectTimeoutMs {
          reconnected := ObserveDisconnected(BackendDisconnected, a, time);
        }
        return;
      }
      reconnected := ObserveDisconnected(a.sta, a, time);
    }

    method ObserveDisconnected(sta: BackendState, a: Answers, time: u64) returns (reconnected: bool)
      modifies this
      ensures (s, reconnected) == Disconnect(old(s), sta, a, time)
    {
      reconnected := false;
      s := s.(connectedSinceMs := 0, hasConnectedSince := false);
      s := s.(connectingStartedMs := 0, hasConnectingStarted := false);
      s := s.(state := if sta == BackendError then NetError else Disconnected);
      if !s.hasReconnectAnchor {
        s := s.(reconnectAnchorMs := time, hasReconnectAnchor := true);
        if s.config.fastRetryEnabled && a.fastCandidate && s.config.fastReconnectIntervalMs > 0 {
          s := s.(activeReconnectIntervalMs := s.config.fastReconnectIntervalMs);
        } else {
          s := s.(activeReconnectIntervalMs := s.config.reconnectIntervalMs);
        }
        return;
      }
      if !s.config.autoReconnect || Elapsed(time, s.reconnectAnchorMs) < s.activeReconnectIntervalMs {
        return;
      }
      s := s.(reconnectAnchorMs := time, hasReconnectAnchor := false);
      s := s.(reconnectCount := (s.reconnectCount + 1) % WRAP32);
      reconnected := true;
      if a.reconnects {
        s := s.(state := Connecting, connectingStartedMs := time, hasConnectingStarted := true);
      } else {
        s := s.(state := NetError);
      }
    }
  }

  // ------------------------------------------------------------ one clock simulates the other

  /** The same service at two times that differ by a constant. */
  predicate Shifted(s: Net, r: Net, offset: nat) {
    && r == s.(reconnectAnchorMs := r.reconnectAnchorMs, connectingStartedMs := r.connectingStartedMs,
               connectedSinceMs := r.connectedSinceMs)
    && (s.hasReconnectAnchor ==> r.reconnectAnchorMs == s.reconnectAnchorMs + offset)
    && (s.hasConnectingStarted ==> r.connectingStartedMs == s.connectingStartedMs + offset)
    && (s.hasConnectedSince ==> r.connectedSinceMs == s.connectedSinceMs + offset)
  }

  lemma DisconnectShifts(s: Net, r: Net, offset: nat, sta: BackendState, a: Answers, now: u64, t: u64)
    requires Shifted(s, r, offset) && now + offset == t
    ensures var (x, y) := (Disconnect(s, sta, a, now), Disconnect(r, sta, a, t));
            x.1 == y.1 && Shifted(x.0, y.0, offset)
  {
    hide Elapsed;
    ElapsedShift(now, s.reconnectAnchorMs, offset);
  }

  lemma UpdateShifts(s: Net, r: Net, offset: nat, a: Answers, now: u64, t: u64)
    requires Shifted(s, r, offset) && now + offset == t
    ensures var (x, y) := (Updated(s, a, now), Updated(r, a, t));
            x.1 == y.1 && Shifted(x.0, y.0, offset)
  {
    hide Elapsed, Disconnect;
    ElapsedShift(now, s.connectingStartedMs, offset);
    DisconnectShifts(s, r, offset, a.sta, a, now, t);
    DisconnectShifts(ClearStaRuntime(s).(state := Connecting), ClearStaRuntime(r).(state := Connecting), offset,
                     BackendDisconnected, a, now, t);
  }

  datatype Event =
    | EvBegin(config: NetConfig, apEnabled: bool, radio: bool, connects: bool)
    | EvUpdate(answers: Answers)
    // A question about the uptime; it changes nothing.
    | EvUptime

  /** Only an update moves the extended clock on. */
  predicate Observes(e: Event) {
    e.EvUpdate?
  }

  /** The flag is what a begin returns, or whether an update tried to reconnect. */
  function Step(s: Net, e: Event, now: u64): (Net, bool) {
    match e
    case EvBegin(config, apEnabled, radio, connects) => Begin(config, apEnabled, radio, connects)
    case EvUpdate(a) => Updated(s, a, now)
    case EvUptime => (s, false)
  }

  /** What can be seen after a step: the state, its flag, the reconnect count and the uptime. */
  datatype Seen = Seen(state: NetworkState, flag: bool, count: u32, uptime: nat)

  function SeenOf(out: (Net, bool), now: u64): Seen {
    Seen(out.0.state, out.1, out.0.reconnectCount, Uptime(out.0, now))
  }

  lemma SeenShifted(x: (Net, bool), y: (Net, bool), offset: nat, now: u64, t: u64)
    requires x.1 == y.1 && Shifted(x.0, y.0, offset) && now + offset == t
    ensures SeenOf(x, now) == SeenOf(y, t)
  {
    hide Elapsed;
    ElapsedShift(now, x.0.connectedSinceMs, offset);
  }

  /** Nothing is being timed: so after every begin. */
  predicate Untimed(s: Net) {
    !s.hasReconnectAnchor && !s.hasConnectingStarted && !s.hasConnectedSince
  }

  lemma BeginIsUntimed(config: NetConfig, apEnabled: bool, radio: bool, connects: bool)
    ensures Untimed(Begin(config, apEnabled, radio, connects).0)
  {
  }

  lemma UntimedShifts(s: Net, offset: nat)
    requires Untimed(s)
    ensures Shifted(s, s, offset)
  {
  }

  lemma StepShifts(s: Net, r: Net, offset: nat, e: Event, now: u64, t: u64)
    requires Shifted(s, r, offset) && now + offset == t
    ensures var (x, y) := (Step(s, e, now), Step(r, e, t));
            x.1 == y.1 && Shifted(x.0, y.0, offset)
  {
    hide Begin, Updated, Shifted;
    match e
    case EvBegin(config, apEnabled, radio, connects) =>
      BeginIsUntimed(config, apEnabled, radio, connects);
      UntimedShifts(Begin(config, apEnabled, radio, connects).0, offset);
    case EvUpdate(a) => UpdateShifts(s, r, offset, a, now, t);
    case EvUptime =>
  }

  /** A run on the wrapping counter. */
  function LegacyRun(s: Net, c: Clock, events: seq<(Event, u64)>): seq<Seen>
    decreases |events|
  {
    if events == [] then []
    else
      var (e, t) := events[0];
      var now := Expanded(c, Sample(t));
      var out := Step(s, e, now);
      [SeenOf(out, now)] + LegacyRun(out.0, if Observes(e) then Observed(c, Sample(t)) else c, events[1..])
  }

  function TrueRun(r: Net, events: seq<(Event, u64)>): seq<Seen>
    decreases |events|
  {
    if events == [] then []
    else
      var out := Step(r, events[0].0, events[0].1);
      [SeenOf(out, events[0].1)] + TrueRun(out.0, events[1..])
  }

  /** Every operation comes less than one counter cycle after the last observation, made at `last`. */
  predicate PacedFrom(last: u64, events: seq<(Event, u64)>)
    decreases |events|
  {
    events != [] ==>
      var (e, t) := events[0];
      last <= t < last + WRAP32 && PacedFrom(if Observes(e) then t else last, events[1..])
  }

  predicate Paced(events: seq<(Event, u64)>)
    decreases |events|
  {
    events != [] ==>
      var (e, t) := events[0];
      if Observes(e) then PacedFrom(t, events[1..]) else Paced(events[1..])
  }

  lemma {:induction false} RunShifts(s: Net, r: Net, c: Clock, events: seq<(Event, u64)>, last: u64, offset: nat)
    requires Shifted(s, r, offset) && Tracks(c, last, offset) && PacedFrom(last, events)
    ensures LegacyRun(s, c, events) == TrueRun(r, events)
    decreases |events|
  {
    hide Step, Shifted, SeenOf, Tracks, Observed, Expanded;
    if events != [] {
      var (e, t) := events[0];
      ObservationExact(c, last, offset, t);
      var now := Expanded(c, Sample(t));
      StepShifts(s, r, offset, e, now, t);
      SeenShifted(Step(s, e, now), Step(r, e, t), offset, now, t);
      RunShifts(Step(s, e, now).0, Step(r, e, t).0, if Observes(e) then Observed(c, Sample(t)) else c, events[1..],
                if Observes(e) then t else last, offset);
    }
  }

  lemma FirstSample(t: u64)
    ensures Expanded(UNOBSERVED, Sample(t)) + (t - Sample(t)) == t && Sample(t) <= t
  {
  }

  lemma UntimedAnswers(s: Net, e: Event, now: u64, t: u64)
    requires Untimed(s) && !Observes(e)
    ensures Step(s, e, now) == Step(s, e, t) && Untimed(Step(s, e, t).0)
    ensures SeenOf(Step(s, e, now), now) == SeenOf(Step(s, e, t), t)
  {
    hide Begin;
    if e.EvBegin? {
      BeginIsUntimed(e.config, e.apEnabled, e.radio, e.connects);
    }
  }

  lemma {:induction false} UntimedRefines(s: Net, events: seq<(Event, u64)>)
    requires Untimed(s) && Paced(events)
    ensures LegacyRun(s, UNOBSERVED, events) == TrueRun(s, events)
    decreases |events|
  {
    hide Step, SeenOf, Shifted, Tracks, Untimed, Observed, Expanded;
    if events != [] {
      var (e, t) := events[0];
      var now := Expanded(UNOBSERVED, Sample(t));
      var offset := t - Sample(t);
      if Observes(e) {
        FirstSample(t);
        FirstObservation(UNOBSERVED, t);
        UntimedShifts(s, offset);
        StepShifts(s, s, offset, e, now, t);
        SeenShifted(Step(s, e, now), Step(s, e, t), offset, now, t);
        RunShifts(Step(s, e, now).0, Step(s, e, t).0, Observed(UNOBSERVED, Sample(t)), events[1..], t, offset);
      } else {
        UntimedAnswers(s, e, now, t);
        UntimedRefines(Step(s, e, t).0, events[1..]);
      }
    }
  }

  /** However often the service is begun again, when every operation comes less than 2^32 ms after the
      last update, on the wrapping counter it times out, reconnects and reports its uptime exactly as
      on a true 64-bit clock. */
  lemma LegacyClockRefines(events: seq<(Event, u64)>)
    requires Paced(events)
    ensures LegacyRun(FRESH, UNOBSERVED, events) == TrueRun(FRESH, events)
  {
    UntimedRefines(FRESH, events);
  }

  // ------------------------------------------------------------ how often it reconnects

  /** The shortest wait the configuration allows before a reconnect. */
  function ShortestWait(config: NetConfig): nat {
    if config.fastRetryEnabled && 0 < config.fastReconnectIntervalMs < config.reconnectIntervalMs
    then config.fastReconnectIntervalMs else config.reconnectIntervalMs
  }

  /** The pending wait began no earlier than `last`, and is one of the configured ones. */
  predicate WaitsSince(s: Net, last: u64) {
    s.hasReconnectAnchor ==> last <= s.reconnectAnchorMs && s.activeReconnectIntervalMs >= ShortestWait(s.config)
  }

  lemma DisconnectWaits(s: Net, sta: BackendState, a: Answers, now: u64, last: u64)
    requires WaitsSince(s, last) && last <= now && (s.hasReconnectAnchor ==> s.reconnectAnchorMs <= now)
    ensures var (t, reconnected) := Disconnect(s, sta, a, now);
            && t.config == s.config
            && WaitsSince(t, if reconnected then now else last)
            && (t.hasReconnectAnchor ==> t.reconnectAnchorMs <= now)
            && (reconnected ==>
                  && s.config.autoReconnect && now >= last + ShortestWait(s.config)
                  && t.reconnectCount == (s.reconnectCount + 1) % WRAP32)
            && (!reconnected ==> t.reconnectCount == s.reconnectCount)
  {
    hide Elapsed;
    if s.hasReconnectAnchor {
      ElapsedForward(now, s.reconnectAnchorMs);
    }
  }

  lemma ElapsedForward(now: u64, since: u64)
    requires since <= now
    ensures Elapsed(now, since) == now - since
  {
  }

  /** A reconnect is tried only by an initialised station with automatic reconnect that is not
      connected, and at least one wait after `last`; then the wait starts anew. */
  lemma ReconnectWaits(s: Net, a: Answers, now: u64, last: u64)
    requires WaitsSince(s, last) && last <= now && (s.hasReconnectAnchor ==> s.reconnectAnchorMs <= now)
    ensures var (t, reconnected) := Updated(s, a, now);
            && t.config == s.config
            && WaitsSince(t, if reconnected then now else last)
            && (t.hasReconnectAnchor ==> t.reconnectAnchorMs <= now)
            && (reconnected ==>
                  && s.initialized && s.config.staEnabled && s.config.autoReconnect && a.sta != BackendConnected
                  && now >= last + ShortestWait(s.config)
                  && t.reconnectCount == (s.reconnectCount + 1) % WRAP32)
            && (!reconnected ==> t.reconnectCount == s.reconnectCount)
  {
    hide Elapsed, Disconnect, ShortestWait;
    DisconnectWaits(s, a.sta, a, now, last);
    DisconnectWaits(ClearStaRuntime(s).(state := Connecting), BackendDisconnected, a, now, last);
  }

  /** The times at which a run tries to reconnect. */
  function ReconnectTimes(s: Net, updates: seq<(Answers, u64)>): seq<u64>
    decreases |updates|
  {
    if updates == [] then []
    else
      var (t, reconnected) := Updated(s, updates[0].0, updates[0].1);
      (if reconnected then [updates[0].1] else []) + ReconnectTimes(t, updates[1..])
  }

  predicate InOrder(updates: seq<(Answers, u64)>) {
    forall i :: 0 < i < |updates| ==> updates[i - 1].1 <= updates[i].1
  }

  /** Each time is at least `wait` behind the one before it, the first behind `last`. */
  predicate Spaced(times: seq<u64>, last: u64, wait: nat) {
    && (times != [] ==> times[0] >= last + wait)
    && (forall i :: 0 < i < |times| ==> times[i] >= times[i - 1] + wait)
  }

  lemma {:induction false} SpacedFrom(s: Net, updates: seq<(Answers, u64)>, last: u64)
    requires InOrder(updates) && WaitsSince(s, last)
    requires updates != [] ==> last <= updates[0].1 && (s.hasReconnectAnchor ==> s.reconnectAnchorMs <= updates[0].1)
    ensures Spaced(ReconnectTimes(s, updates), last, ShortestWait(s.config))
    decreases |updates|
  {
    hide Updated, WaitsSince, ShortestWait, Spaced;
    if updates != [] {
      var (a, now) := updates[0];
      ReconnectWaits(s, a, now, last);
      var (t, reconnected) := Updated(s, a, now);
      var rest := updates[1..];
      InOrderTail(updates);
      SpacedFrom(t, rest, if reconnected then now else last);
      var more := ReconnectTimes(t, rest);
      if reconnected {
        SpacedMore(now, more, last, ShortestWait(s.config));
      }
      assert [] + more == more;
    } else {
      NoneSpaced(last, ShortestWait(s.config));
    }
  }

  lemma NoneSpaced(last: u64, wait: nat)
    ensures Spaced([], last, wait)
  {
  }

  lemma InOrderTail(updates: seq<(Answers, u64)>)
    requires InOrder(updates) && updates != []
    ensures InOrder(updates[1..]) && (|updates| > 1 ==> updates[0].1 <= updates[1].1)
  {
    var rest := updates[1..];
    assert forall i :: 0 <= i < |rest| ==> rest[i] == updates[i + 1];
  }

  lemma SpacedMore(first: u64, more: seq<u64>, last: u64, wait: nat)
    requires Spaced(more, first, wait) && first >= last + wait
    ensures Spaced([first] + more, last, wait)
  {
    var all := [first] + more;
    forall i | 0 < i < |all| ensures all[i] >= all[i - 1] + wait {
      assert all[i] == more[i - 1];
    }
  }

  /** In every run two attempts to reconnect are at least the shortest configured wait apart. */
  lemma ReconnectsAreSpaced(config: NetConfig, apEnabled: bool, radio: bool, connects: bool,
                            updates: seq<(Answers, u64)>)
    requires InOrder(updates)
    ensures var s := Begin(config, apEnabled, radio, connects).0;
            var times := ReconnectTimes(s, updates);
            forall i :: 0 < i < |times| ==> times[i] >= times[i - 1] + ShortestWait(s.config)
  {
    SpacedFrom(Begin(config, apEnabled, radio, connects).0, updates, 0);
  }

  // ------------------------------------------------------------ when it reconnects

  predicate Managed(s: Net) {
    s.initialized && !s.initializationFailed && s.config.staEnabled
  }

  /** The update counts as seeing the station disconnected: the radio says so, or it has been
      connecting for too long. */
  predicate SeesDisconnected(s: Net, sta: BackendState, now: u64) {
    || sta in {BackendDisconnected, BackendError}
    || (sta == BackendConnecting && s.hasConnectingStarted && s.config.connectTimeoutMs > 0
        && Elapsed(now, s.connectingStartedMs) >= s.config.connectTimeoutMs)
  }

  /** Exactly when an update tries to reconnect, and what it leaves behind otherwise. */
  lemma ReconnectExact(s: Net, a: Answers, now: u64)
    ensures var (t, reconnected) := Updated(s, a, now);
            var seen := Managed(s) && SeesDisconnected(s, a.sta, now);
            var wait := if s.config.fastRetryEnabled && a.fastCandidate && s.config.fastReconnectIntervalMs > 0
                        then s.config.fastReconnectIntervalMs else s.config.reconnectIntervalMs;
            && (reconnected <==>
                  && seen && s.config.autoReconnect && s.hasReconnectAnchor
                  && Elapsed(now, s.reconnectAnchorMs) >= s.activeReconnectIntervalMs)
            && t.reconnectCount == (if reconnected then (s.reconnectCount + 1) % WRAP32 else s.reconnectCount)
            && (reconnected ==>
                  && !t.hasReconnectAnchor && t.state == (if a.reconnects then Connecting else NetError)
                  && (a.reconnects ==> t.hasConnectingStarted && t.connectingStartedMs == now))
            && (seen && !s.hasReconnectAnchor ==>
                  t.hasReconnectAnchor && t.reconnectAnchorMs == now && t.activeReconnectIntervalMs == wait)
            && (seen && s.hasReconnectAnchor && !reconnected ==>
                  && t.hasReconnectAnchor && t.reconnectAnchorMs == s.reconnectAnchorMs
                  && t.activeReconnectIntervalMs == s.activeReconnectIntervalMs)
            && (seen && !reconnected ==> t.state == if a.sta == BackendError then NetError else Disconnected)
            && (seen ==> Uptime(t, now) == 0)
  {
    hide Elapsed;
  }

  /** What an update shows of a station that is up or coming up; an unmanaged one is left alone. */
  lemma ConnectedExact(s: Net, a: Answers, now: u64, later: u64)
    ensures var t := Updated(s, a, now).0;
            && (!Managed(s) ==> t == s)
            && (Managed(s) && a.sta == BackendConnected ==>
                  && t.state == Connected && !t.hasReconnectAnchor && !t.hasConnectingStarted
                  && (if s.state != Connected then Uptime(t, later) == Elapsed(later, now)
                      else Uptime(t, later) == Uptime(s, later)))
            && (Managed(s) && a.sta == BackendConnecting && !SeesDisconnected(s, a.sta, now) ==>
                  && t.state == Connecting && Uptime(t, later) == 0 && t.hasConnectingStarted
                  && t.connectingStartedMs == (if s.hasConnectingStarted then s.connectingStartedMs else now))
  {
    hide Elapsed;
  }

  /** A begin starts from nothing: it is accepted exactly on a valid configuration whose radio,
      and, where asked for, access point and station start. */
  lemma BeginExact(config: NetConfig, apEnabled: bool, radio: bool, connects: bool)
    ensures var (t, ok) := Begin(config, apEnabled, radio, connects);
            var idle := !config.staEnabled && !apEnabled;
            && (ok <==> config.valid && (idle || (radio && connects)))
            && (Managed(t) <==> ok && config.staEnabled) && Untimed(t) && t.reconnectCount == 0
            && (ok ==> t.config == config && t.activeReconnectIntervalMs == config.reconnectIntervalMs)
            && t.state ==
               (if !ok then NetError else if config.staEnabled then Connecting else if idle then Disabled else Idle)
  {
  }

  /** A managed station that stays disconnected is reconnected at the first update that comes one
      wait or more after it was first seen so, and not before. */
  lemma {:induction false} ReconnectsInTime(s: Net, updates: seq<(Answers, u64)>)
    requires Managed(s) && s.config.autoReconnect && s.hasReconnectAnchor && InOrder(updates)
    requires updates != [] && s.reconnectAnchorMs <= updates[0].1
    requires forall i :: 0 <= i < |updates| ==> updates[i].0.sta in {BackendDisconnected, BackendError}
    requires forall i :: 0 <= i < |updates| - 1 ==> updates[i].1 - s.reconnectAnchorMs < s.activeReconnectIntervalMs
    requires updates[|updates| - 1].1 - s.reconnectAnchorMs >= s.activeReconnectIntervalMs
    ensures ReconnectTimes(s, updates) == [updates[|updates| - 1].1]
    decreases |updates|
  {
    hide Updated, Elapsed, Uptime;
    var (a, now) := updates[0];
    ElapsedForward(now, s.reconnectAnchorMs);
    ReconnectExact(s, a, now);
    WaitKeeps(s, a, now);
    if |updates| > 1 {
      InOrderTail(updates);
      var rest := updates[1..];
      assert forall i :: 0 <= i < |rest| ==> rest[i] == updates[i + 1];
      ReconnectsInTime(Updated(s, a, now).0, rest);
      assert [] + ReconnectTimes(Updated(s, a, now).0, rest) == [updates[|updates| - 1].1];
    } else {
      assert updates[1..] == [];
      assert ReconnectTimes(s, updates) == [now] + [];
    }
  }

  lemma WaitKeeps(s: Net, a: Answers, now: u64)
    ensures var t := Updated(s, a, now).0;
            t.config == s.config && t.initialized == s.initialized && t.initializationFailed == s.initializationFailed
  {
    hide Elapsed;
  }

  // ------------------------------------------------------------ the uptime

  /** The service after all updates. */
  function After(s: Net, updates: seq<(Answers, u64)>): Net {
    if updates == [] then s
    else
      var most, last := updates[..|updates| - 1], updates[|updates| - 1];
      Updated(After(s, most), last.0, last.1).0
  }

  lemma {:induction false} StaysManaged(s: Net, updates: seq<(Answers, u64)>)
    requires Managed(s)
    ensures Managed(After(s, updates))
    decreases |updates|
  {
    hide Updated;
    if updates != [] {
      var most, last := updates[..|updates| - 1], updates[|updates| - 1];
      StaysManaged(s, most);
      WaitKeeps(After(s, most), last.0, last.1);
    }
  }

  /** The station is up after an update exactly when the radio said so, and its uptime then counts from
      the update that first saw the connection, however many have confirmed it since. */
  lemma {:induction false} UptimeExact(s: Net, updates: seq<(Answers, u64)>, first: nat, later: u64)
    requires Managed(s) && s.state != Connected && first < |updates|
    requires forall i :: first <= i < |updates| ==> updates[i].0.sta == BackendConnected
    requires first > 0 ==> updates[first - 1].0.sta != BackendConnected
    ensures After(s, updates).state == Connected
    ensures Uptime(After(s, updates), later) == Elapsed(later, updates[first].1)
    decreases |updates|
  {
    hide Updated, Uptime, Elapsed;
    var most := updates[..|updates| - 1];
    var (a, now) := updates[|updates| - 1];
    StaysManaged(s, most);
    ConnectedExact(After(s, most), a, now, later);
    if first < |most| {
      UptimeExact(s, most, first, later);
    } else if most != [] {
      StaysManaged(s, most[..|most| - 1]);
      DownUnlessConnected(s, most);
    }
  }

  /** After an update that did not see the connection, the station is not up. */
  lemma DownUnlessConnected(s: Net, updates: seq<(Answers, u64)>)
    requires Managed(s) && updates != [] && updates[|updates| - 1].0.sta != BackendConnected
    ensures After(s, updates).state != Connected
    ensures forall later: u64 :: Uptime(After(s, updates), later) == 0
  {
    hide Elapsed;
    StaysManaged(s, updates[..|updates| - 1]);
  }
}
