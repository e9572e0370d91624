/** Network time synchronisation: attempts with a timeout, periodic attempts, and the two clocks the
    service can run on. */
module NtpService {
  import opened MillisClock
  import opened Octets

  datatype NtpConfig = NtpConfig(serversValid: bool, timeoutMs: u32, syncIntervalMs: u32, rtcSyncEnabled: bool)

  datatype PollResult = Pending | Received(utc: int, valid: bool) | PollFailure

  /** What the service asks of its backend and of the clock chip. */
  datatype Request = StopBackend | StartBackend | PollBackend | SetRtc(utc: int)

  datatype Ntp = Ntp(
    initialized: bool, syncInProgress: bool, hasSyncResult: bool, lastSyncSucceeded: bool, lastFetchSucceeded: bool,
    newUtcPending: bool, hasSuccessfulSync: bool, rtcSyncEnabled: bool, timeoutMs: u32, syncIntervalMs: u32,
    attemptStartedMs: u64, periodicAnchorMs: u64, lastSuccessfulSyncMs: u64, lastReceivedUtc: int)

  const NTP_SYNC_TIMEOUT_MS: u32 := 10_000
  const NTP_SYNC_INTERVAL_MS: u32 := 86_400_000

  const FRESH := Ntp(false, false, false, false, false, false, false, true, NTP_SYNC_TIMEOUT_MS, NTP_SYNC_INTERVAL_MS,
                     0, 0, 0, 0)

  /** A new state, the answer to the caller, and the requests made on the way. */
  datatype Out = Out(state: Ntp, ok: bool, requests: seq<Request>)

  predicate ValidConfig(config: NtpConfig) {
    config.serversValid && config.timeoutMs != 0 && config.syncIntervalMs != 0
  }

  function BeginAt(s: Ntp, config: NtpConfig, now: u64): Out {
    var requests := if s.syncInProgress then [StopBackend] else [];
    var blank := s.(initialized := false, syncInProgress := false, hasSyncResult := false, lastSyncSucceeded := false,
                    lastFetchSucceeded := false, newUtcPending := false, hasSuccessfulSync := false);
    if !ValidConfig(config) then Out(blank, false, requests)
    else Out(blank.(timeoutMs := config.timeoutMs, syncIntervalMs := config.syncIntervalMs,
                    rtcSyncEnabled := config.rtcSyncEnabled, attemptStartedMs := now, periodicAnchorMs := now,
                    lastSuccessfulSyncMs := 0, initialized := true), true, requests)
  }

  function RequestSyncAt(s: Ntp, wifi: bool, starts: bool, now: u64): Out {
    if !s.initialized || s.syncInProgress then Out(s, false, [])
    else
      var t := s.(attemptStartedMs := now);
      var failed := t.(hasSyncResult := true, lastSyncSucceeded := false, lastFetchSucceeded := false,
                       periodicAnchorMs := now);
      if !wifi then Out(failed, false, [])
      else if !starts then Out(failed, false, [StartBackend, StopBackend])
      else Out(t.(syncInProgress := true), true, [StartBackend])
  }

  predicate PeriodicDue(s: Ntp, now: u64) {
    s.initialized && !s.syncInProgress && Elapsed(now, s.periodicAnchorMs) >= s.syncIntervalMs
  }

  function RequestPeriodicAt(s: Ntp, wifi: bool, starts: bool, now: u64): Out {
    if !PeriodicDue(s, now) then Out(s, false, []) else RequestSyncAt(s, wifi, starts, now)
  }

  function FinishAttempt(s: Ntp, fetched: bool, rtcUpdated: bool, now: u64): Ntp {
    var t := s.(syncInProgress := false, hasSyncResult := true, lastFetchSucceeded := fetched,
                lastSyncSucceeded := fetched && rtcUpdated, periodicAnchorMs := now);
    if fetched && rtcUpdated then t.(hasSuccessfulSync := true, lastSuccessfulSyncMs := now) else t
  }

  function UpdateAt(s: Ntp, wifi: bool, poll: PollResult, rtcAccepts: bool, now: u64): Out {
    if !s.syncInProgress then Out(s, true, [])
    else if !wifi || Elapsed(now, s.attemptStartedMs) >= s.timeoutMs then
      Out(FinishAttempt(s, false, false, now), true, [StopBackend])
    else
      match poll
      case Pending => Out(s, true, [PollBackend])
      case PollFailure => Out(FinishAttempt(s, false, false, now), true, [PollBackend, StopBackend])
      case Received(utc, valid) =>
        if !valid then Out(FinishAttempt(s, false, false, now), true, [PollBackend, StopBackend])
        else
          var t := s.(lastReceivedUtc := utc, newUtcPending := true);
          Out(FinishAttempt(t, true, s.rtcSyncEnabled && rtcAccepts, now), true,
              if s.rtcSyncEnabled then [PollBackend, SetRtc(utc), StopBackend] else [PollBackend, StopBackend])
  }

  /** Handing over the received time, once. */
  function TakeUtc(s: Ntp): Out {
    if !s.newUtcPending then Out(s, false, []) else Out(s.(newUtcPending := false), true, [])
  }

  /** The age of the last successful synchronisation, where there is one. */
  function SyncAge(s: Ntp, now: u64): Option<nat> {
    if s.hasSuccessfulSync then Some(Elapsed(now, s.lastSuccessfulSyncMs)) else None
  }

  // ------------------------------------------------------------ the service

  class NtpService {
    const legacyTiming: bool
    const legacyClock: LegacyMillisClock
    var state: Ntp
    /** Every request made to the backend and the clock chip. */
    ghost var requests: seq<Request>

    constructor (legacyTiming: bool)
      ensures this.legacyTiming == legacyTiming && state == FRESH && requests == []
      ensures fresh(legacyClock) && legacyClock.State() == UNOBSERVED
    {
      this.legacyTiming := legacyTiming;
      legacyClock := new LegacyMillisClock();
      state, requests := FRESH, [];
    }

    /** The time a call runs at: the extended counter, or the injected clock. */
    method CurrentTime(nowMs: u32, monotonicMs: u64) returns (now: u64)
      modifies legacyClock
      ensures legacyClock.State() ==
              if legacyTiming then Observed(old(legacyClock.State()), nowMs) else old(legacyClock.State())
      ensures now == if legacyTiming then legacyClock.nowMs else monotonicMs
    {
      if legacyTiming {
        legacyClock.Observe(nowMs);
      }
      now := if legacyTiming then legacyClock.nowMs else monotonicMs;
    }

    twostate predicate Became(out: Out, ok: bool)
      reads this
    {
      state == out.state && ok == out.ok && requests == old(requests) + out.requests
    }

    method Begin(config: NtpConfig, nowMs: u32, monotonicMs: u64) returns (ok: bool, ghost now: u64)
      modifies this, legacyClock
      ensures legacyClock.State() ==
              if legacyTiming then Observed(old(legacyClock.State()), nowMs) else old(legacyClock.State())
      ensures now == (if legacyTiming then legacyClock.nowMs else monotonicMs)
              && Became(BeginAt(old(state), config, now), ok)
    {
      var time := CurrentTime(nowMs, monotonicMs);
      now := time;
      if state.syncInProgress {
        requests := requests + [StopBackend];
      }
      state := state.(initialized := false, syncInProgress := false, hasSyncResult := false, lastSyncSucceeded := false,
                      lastFetchSucceeded := false, newUtcPending := false, hasSuccessfulSync := false);
      if !config.serversValid || config.timeoutMs == 0 || config.syncIntervalMs == 0 {
        return false, now;
      }
      state := state.(timeoutMs := config.timeoutMs, syncIntervalMs := config.syncIntervalMs,
                      rtcSyncEnabled := config.rtcSyncEnabled);
      state := state.(attemptStartedMs := time, periodicAnchorMs := time, lastSuccessfulSyncMs := 0,
                      initialized := true);
      return true, now;
    }

    method RequestSync(wifi: bool, starts: bool, time: u64) returns (ok: bool)
      modifies this
      ensures Became(RequestSyncAt(old(state), wifi, starts, time), ok)
    {
      if !state.initialized || state.syncInProgress {
        return false;
      }
      state := state.(attemptStartedMs := time);
      if wifi {
        requests := requests + [StartBackend];
        if starts {
          state := state.(syncInProgress := true);
          return true;
        }
        requests := requests + [StopBackend];
      }
      state := state.(hasSyncResult := true, lastSyncSucceeded := false, lastFetchSucceeded := false,
                      periodicAnchorMs := time);
      return false;
    }

    method RequestPeriodicSync(wifi: bool, starts: bool, nowMs: u32, monotonicMs: u64)
      returns (ok: bool, ghost now: u64)
      modifies this, legacyClock
      ensures legacyClock.State() ==
              if legacyTiming then Observed(old(legacyClock.State()), nowMs) else old(legacyClock.State())
      ensures now == (if legacyTiming then legacyClock.nowMs else monotonicMs)
      ensures Became(RequestPeriodicAt(old(state), wifi, starts, now), ok)
    {
      var time := CurrentTime(nowMs, monotonicMs);
      now := time;
      if !PeriodicDue(state, time) {
        return false, now;
      }
      ok := RequestSync(wifi, starts, time);
    }

    method Update(wifi: bool, poll: PollResult, rtcAccepts: bool, nowMs: u32, monotonicMs: u64) returns (ghost now: u64)
      modifies this, legacyClock
      ensures legacyClock.State() ==
              if legacyTiming then Observed(old(legacyClock.State()), nowMs) else old(legacyClock.State())
      ensures now == (if legacyTiming then legacyClock.nowMs else monotonicMs)
      ensures Became(UpdateAt(old(state), wifi, poll, rtcAccepts, now), true)
    {
      var time := CurrentTime(nowMs, monotonicMs);
      now := time;
      if !state.syncInProgress {
        return;
      }
      if !wifi || Elapsed(time, state.attemptStartedMs) >= state.timeoutMs {
        Finish(false, false, time);
        return;
      }
      requests := requests + [PollBackend];
      if poll.Pending? {
        return;
      }
      if poll.PollFailure? || !poll.valid {
        Finish(false, false, time);
        return;
      }
      state := state.(lastReceivedUtc := poll.utc, newUtcPending := true);
      var rtcUpdated := false;
      if state.rtcSyncEnabled {
        requests := requests + [SetRtc(poll.utc)];
        rtcUpdated := rtcAccepts;
      }
      Finish(true, rtcUpdated, time);
    }

    method TakeReceivedUtc() returns (ok: bool, utc: int)
      modifies this
      ensures Became(TakeUtc(old(state)), ok) && (ok ==> utc == old(state).lastReceivedUtc)
    {
      if !state.newUtcPending {
        return false, 0;
      }
      utc := state.lastReceivedUtc;
      state := state.(newUtcPending := false);
      return true, utc;
    }

    method Finish(fetched: bool, rtcUpdated: bool, time: u64)
      modifies this
      ensures state == FinishAttempt(old(state), fetched, rtcUpdated, time)
      ensures requests == old(requests) + [StopBackend]
    {
      requests := requests + [StopBackend];
      state := state.(syncInProgress := false, hasSyncResult := true, lastFetchSucceeded := fetched,
                      lastSyncSucceeded := fetched && rtcUpdated, periodicAnchorMs := time);
      if state.lastSyncSucceeded {
        state := state.(hasSuccessfulSync := true, lastSuccessfulSyncMs := time);
      }
    }
  }

  // ------------------------------------------------------------ one clock simulates the other

  datatype Event =
    | EvBegin(config: NtpConfig)
    | EvRequest(wifi: bool, starts: bool)
    | EvPeriodic(wifi: bool, starts: bool)
    | EvUpdate(wifi: bool, poll: PollResult, rtcAccepts: bool)
    | EvTake
    // A question about due time or age; it changes nothing.
    | EvQuery

  /** Whether the operation moves the extended clock on; the others only read it. */
  predicate Observes(e: Event) {
    !e.EvTake? && !e.EvQuery?
  }

  function Step(s: Ntp, e: Event, now: u64): Out {
    match e
    case EvBegin(config) => BeginAt(s, config, now)
    case EvRequest(wifi, starts) => RequestSyncAt(s, wifi, starts, now)
    case EvPeriodic(wifi, starts) => RequestPeriodicAt(s, wifi, starts, now)
    case EvUpdate(wifi, poll, rtcAccepts) => UpdateAt(s, wifi, poll, rtcAccepts, now)
    case EvTake => TakeUtc(s)
    case EvQuery => Out(s, true, [])
  }

  /** The same service at two times that differ by a constant. */
  predicate Shifted(s: Ntp, r: Ntp, offset: nat) {
    && r == s.(attemptStartedMs := r.attemptStartedMs, periodicAnchorMs := r.periodicAnchorMs,
               lastSuccessfulSyncMs := r.lastSuccessfulSyncMs)
    && (s.initialized ==>
        r.attemptStartedMs == s.attemptStartedMs + offset && r.periodicAnchorMs == s.periodicAnchorMs + offset)
    && (s.hasSuccessfulSync ==> r.lastSuccessfulSyncMs == s.lastSuccessfulSyncMs + offset)
    && (s.syncInProgress ==> s.initialized)
  }

  predicate SameBehaviour(a: Out, b: Out, offset: nat) {
    a.ok == b.ok && a.requests == b.requests && Shifted(a.state, b.state, offset)
  }

  lemma BeginShifts(s: Ntp, r: Ntp, offset: nat, config: NtpConfig, now: u64, t: u64)
    requires Shifted(s, r, offset) && now + offset == t
    ensures SameBehaviour(BeginAt(s, config, now), BeginAt(r, config, t), offset)
  {
  }

  lemma RequestShifts(s: Ntp, r: Ntp, offset: nat, wifi: bool, starts: bool, now: u64, t: u64)
    requires Shifted(s, r, offset) && now + offset == t
    ensures SameBehaviour(RequestSyncAt(s, wifi, starts, now), RequestSyncAt(r, wifi, starts, t), offset)
    ensures SameBehaviour(RequestPeriodicAt(s, wifi, starts, now), RequestPeriodicAt(r, wifi, starts, t), offset)
  {
    hide Elapsed;
    ElapsedShift(now, s.periodicAnchorMs, offset);
  }

  lemma FinishShifts(s: Ntp, r: Ntp, offset: nat, fetched: bool, rtcUpdated: bool, now: u64, t: u64)
    requires Shifted(s, r, offset) && s.syncInProgress && now + offset == t
    ensures Shifted(FinishAttempt(s, fetched, rtcUpdated, now), FinishAttempt(r, fetched, rtcUpdated, t), offset)
  {
  }

  lemma UpdateShifts(s: Ntp, r: Ntp, offset: nat, wifi: bool, poll: PollResult, rtcAccepts: bool, now: u64, t: u64)
    requires Shifted(s, r, offset) && now + offset == t
    ensures SameBehaviour(UpdateAt(s, wifi, poll, rtcAccepts, now), UpdateAt(r, wifi, poll, rtcAccepts, t), offset)
  {
    hide Elapsed, FinishAttempt;
    if s.syncInProgress {
      ElapsedShift(now, s.attemptStartedMs, offset);
      FinishShifts(s, r, offset, false, false, now, t);
      if poll.Received? {
        FinishShifts(s.(lastReceivedUtc := poll.utc, newUtcPending := true),
                     r.(lastReceivedUtc := poll.utc, newUtcPending := true), offset, true,
                     s.rtcSyncEnabled && rtcAccepts, now, t);
      }
    }
  }

  lemma StepShifts(s: Ntp, r: Ntp, offset: nat, e: Event, now: u64, t: u64)
    requires Shifted(s, r, offset) && now + offset == t
    ensures SameBehaviour(Step(s, e, now), Step(r, e, t), offset)
  {
    hide BeginAt, RequestSyncAt, RequestPeriodicAt, UpdateAt;
    match e
    case EvBegin(config) => BeginShifts(s, r, offset, config, now, t);
    case EvRequest(wifi, starts) => RequestShifts(s, r, offset, wifi, starts, now, t);
    case EvPeriodic(wifi, starts) => RequestShifts(s, r, offset, wifi, starts, now, t);
    case EvUpdate(wifi, poll, rtcAccepts) => UpdateShifts(s, r, offset, wifi, poll, rtcAccepts, now, t);
    case EvTake =>
    case EvQuery =>
  }

  /** What a caller of the service can see of a step, and what a question at that time answers. */
  datatype Seen = Seen(ok: bool, requests: seq<Request>, due: bool, age: Option<nat>, utc: int)

  function SeenOf(out: Out, now: u64): Seen {
    Seen(out.ok, out.requests, PeriodicDue(out.state, now), SyncAge(out.state, now), out.state.lastReceivedUtc)
  }

  /** A run on the wrapping counter: each operation samples it, and only those that observe it move
      the extended clock on. */
  function LegacyRun(s: Ntp, c: Clock, events: seq<(Event, u64)>): seq<Seen>
    decreases |events|
  {
    if events == [] then []
    else
      var (e, t) := events[0];
      var now := Expanded(c, Sample(t));
      var out := Step(s, e, now);
      [SeenOf(out, now)] + LegacyRun(out.state, if Observes(e) then Observed(c, Sample(t)) else c, events[1..])
  }

  /** The same run on a true 64-bit clock. */
  function TrueRun(r: Ntp, events: seq<(Event, u64)>): seq<Seen>
    decreases |events|
  {
    if events == [] then []
    else
      var out := Step(r, events[0].0, events[0].1);
      [SeenOf(out, events[0].1)] + TrueRun(out.state, events[1..])
  }

  /** Every operation comes less than one counter cycle after the last observation, made at `last`. */
  predicate PacedFrom(last: u64, events: seq<(Event, u64)>)
    decreases |events|
  {
    events != [] ==>
      var (e, t) := events[0];
      last <= t < last + WRAP32 && PacedFrom(if Observes(e) then t else last, events[1..])
  }

  predicate Paced(events: seq<(Event, u64)>)
    decreases |events|
  {
    events != [] ==>
      var (e, t) := events[0];
      if Observes(e) then PacedFrom(t, events[1..]) else Paced(events[1..])
  }

  lemma SeenShifted(a: Out, b: Out, offset: nat, now: u64, t: u64)
    requires SameBehaviour(a, b, offset) && now + offset == t
    ensures SeenOf(a, now) == SeenOf(b, t)
  {
    hide Elapsed;
    ElapsedShift(now, a.state.periodicAnchorMs, offset);
    ElapsedShift(now, a.state.lastSuccessfulSyncMs, offset);
  }

  lemma {:induction false} RunShifts(s: Ntp, r: Ntp, c: Clock, events: seq<(Event, u64)>, last: u64, offset: nat)
    requires Shifted(s, r, offset) && Tracks(c, last, offset) && PacedFrom(last, events)
    ensures LegacyRun(s, c, events) == TrueRun(r, events)
    decreases |events|
  {
    hide Step, Shifted, SeenOf, Tracks, Observed, Expanded;
    if events != [] {
      var (e, t) := events[0];
      ObservationExact(c, last, offset, t);
      var now := Expanded(c, Sample(t));
      StepShifts(s, r, offset, e, now, t);
      var a, b := Step(s, e, now), Step(r, e, t);
      SeenShifted(a, b, offset, now, t);
      RunShifts(a.state, b.state, if Observes(e) then Observed(c, Sample(t)) else c, events[1..],
                if Observes(e) then t else last, offset);
    }
  }

  lemma FirstSample(t: u64)
    ensures Expanded(UNOBSERVED, Sample(t)) + (t - Sample(t)) == t && Sample(t) <= t
  {
  }

  lemma FreshAnswers(e: Event, now: u64, t: u64)
    ensures !Observes(e) ==>
            Step(FRESH, e, now).state == FRESH && SeenOf(Step(FRESH, e, now), now) == SeenOf(Step(FRESH, e, t), t)
    ensures forall offset: nat :: Shifted(FRESH, FRESH, offset)
  {
  }

  /** On any run in which every operation comes less than 2^32 ms after the last observation, the
      service on the wrapping counter answers, requests, times out and falls due exactly as on a true
      64-bit clock, and so do the questions asked in between. */
  lemma {:induction false} LegacyClockRefines(events: seq<(Event, u64)>)
    requires Paced(events)
    ensures LegacyRun(FRESH, UNOBSERVED, events) == TrueRun(FRESH, events)
    decreases |events|
  {
    hide Step, SeenOf, Shifted, Tracks, Observed, Expanded;
    if events != [] {
      var (e, t) := events[0];
      var now := Expanded(UNOBSERVED, Sample(t));
      var offset := t - Sample(t);
      FreshAnswers(e, now, t);
      if Observes(e) {
        FirstSample(t);
        FirstObservation(UNOBSERVED, t);
        StepShifts(FRESH, FRESH, offset, e, now, t);
        var a, b := Step(FRESH, e, now), Step(FRESH, e, t);
        SeenShifted(a, b, offset, now, t);
        RunShifts(a.state, b.state, Observed(UNOBSERVED, Sample(t)), events[1..], t, offset);
      } else {
        FreshAnswers(e, t, t);
        LegacyClockRefines(events[1..]);
      }
    }
  }

  // ------------------------------------------------------------ what every run keeps

  /** Whether the backend runs after these requests: started and not stopped since. A start that
      fails is followed by a stop. */
  predicate Running(before: bool, requests: seq<Request>) {
    if requests == [] then before
    else
      match requests[|requests| - 1]
      case StartBackend => true
      case StopBackend => false
      case _ => Running(before, requests[..|requests| - 1])
  }

  /** Between calls the backend runs exactly while an attempt is in progress; results are only
      reported together; and a success is remembered. */
  predicate Coherent(s: Ntp, running: bool) {
    && (s.syncInProgress <==> running)
    && (s.syncInProgress ==> s.initialized)
    && (s.lastSyncSucceeded ==> s.lastFetchSucceeded && s.hasSuccessfulSync)
    && (s.lastFetchSucceeded ==> s.hasSyncResult)
    && (s.hasSuccessfulSync ==> s.initialized)
  }

  lemma LastRequest(before: bool, requests: seq<Request>, last: Request)
    ensures Running(before, requests + [last]) ==
            (if last.StartBackend? then true else if last.StopBackend? then false else Running(before, requests))
  {
    assert (requests + [last])[..|requests|] == requests;
  }

  lemma FewRequests(before: bool, utc: int)
    ensures Running(before, []) == before
    ensures Running(before, [StartBackend]) && !Running(before, [StopBackend])
            && Running(before, [PollBackend]) == before
    ensures !Running(before, [StartBackend, StopBackend]) && !Running(before, [PollBackend, StopBackend])
    ensures !Running(before, [PollBackend, SetRtc(utc), StopBackend])
  {
    LastRequest(before, [], StartBackend);
    LastRequest(before, [], StopBackend);
    LastRequest(before, [], PollBackend);
    LastRequest(before, [StartBackend], StopBackend);
    LastRequest(before, [PollBackend], StopBackend);
    LastRequest(before, [PollBackend, SetRtc(utc)], StopBackend);
    assert [] + [StartBackend] == [StartBackend] && [] + [StopBackend] == [StopBackend]
           && [] + [PollBackend] == [PollBackend];
    assert [StartBackend] + [StopBackend] == [StartBackend, StopBackend];
    assert [PollBackend] + [StopBackend] == [PollBackend, StopBackend];
    assert [PollBackend, SetRtc(utc)] + [StopBackend] == [PollBackend, SetRtc(utc), StopBackend];
  }

  /** Every operation keeps backend and fields coherent. */
  lemma StepCoherent(s: Ntp, e: Event, now: u64, running: bool)
    requires Coherent(s, running)
    ensures var out := Step(s, e, now);
            Coherent(out.state, Running(running, out.requests))
  {
    hide Running, Elapsed;
    FewRequests(running, if e.EvUpdate? && e.poll.Received? then e.poll.utc else 0);
  }

  function RunStates(s: Ntp, events: seq<(Event, u64)>): Ntp
    decreases |events|
  {
    if events == [] then s else RunStates(Step(s, events[0].0, events[0].1).state, events[1..])
  }

  function RunRequests(s: Ntp, events: seq<(Event, u64)>): seq<Request>
    decreases |events|
  {
    if events == [] then []
    else
      var out := Step(s, events[0].0, events[0].1);
      out.requests + RunRequests(out.state, events[1..])
  }

  lemma {:induction false} RunningConcat(before: bool, a: seq<Request>, b: seq<Request>)
    ensures Running(before, a + b) == Running(Running(before, a), b)
    decreases |b|
  {
    if b == [] {
      assert a + b == a;
    } else {
      var most, last := b[..|b| - 1], b[|b| - 1];
      assert a + b == (a + most) + [last] && b == most + [last];
      RunningConcat(before, a, most);
      LastRequest(before, a + most, last);
      LastRequest(Running(before, a), most, last);
    }
  }

  /** After any run the backend has been left running exactly if an attempt is in progress. */
  lemma {:induction false} RunCoherent(s: Ntp, running: bool, events: seq<(Event, u64)>)
    requires Coherent(s, running)
    ensures Coherent(RunStates(s, events), Running(running, RunRequests(s, events)))
    decreases |events|
  {
    hide Step, Coherent, Running;
    if events == [] {
      FewRequests(running, 0);
    } else {
      var out := Step(s, events[0].0, events[0].1);
      StepCoherent(s, events[0].0, events[0].1, running);
      RunCoherent(out.state, Running(running, out.requests), events[1..]);
      RunningConcat(running, out.requests, RunRequests(out.state, events[1..]));
    }
  }

  /** An attempt that ends at `now` makes the next periodic one due exactly one interval later. */
  lemma DueAfterAttempt(s: Ntp, e: Event, now: u64, later: u64)
    requires s.initialized && e.EvUpdate? && s.syncInProgress && !Step(s, e, now).state.syncInProgress
    ensures PeriodicDue(Step(s, e, now).state, later) <==> Elapsed(later, now) >= s.syncIntervalMs
  {
    hide Elapsed;
  }

  /** An attempt is over at the first update that sees the timeout reached or the network gone, and
      an update before that ends it only on an answer. */
  lemma AttemptEnds(s: Ntp, wifi: bool, poll: PollResult, rtcAccepts: bool, now: u64)
    requires s.syncInProgress
    ensures var out := UpdateAt(s, wifi, poll, rtcAccepts, now);
            var timedOut := !wifi || Elapsed(now, s.attemptStartedMs) >= s.timeoutMs;
            && (out.state.syncInProgress <==> !timedOut && poll == Pending)
            && (out.state.lastFetchSucceeded && !out.state.syncInProgress ==> !timedOut && poll.Received? && poll.valid)
            && (PollBackend in out.requests <==> !timedOut)
  {
    hide Elapsed;
  }

  // ------------------------------------------------------------ what each operation achieves

  /** A valid time arrives in time over a live network. */
  predicate Fetches(s: Ntp, wifi: bool, poll: PollResult, now: u64) {
    wifi && Elapsed(now, s.attemptStartedMs) < s.timeoutMs && poll.Received? && poll.valid
  }

  /** The end of an attempt: it counts as fetched exactly then, and hands that time over; it counts as
      synchronised exactly when the clock chip also took it, and is then of age zero. */
  lemma FetchExact(s: Ntp, wifi: bool, poll: PollResult, rtcAccepts: bool, now: u64, later: u64)
    requires s.syncInProgress
    ensures var t := UpdateAt(s, wifi, poll, rtcAccepts, now).state;
            var fetched := Fetches(s, wifi, poll, now);
            var synced := fetched && s.rtcSyncEnabled && rtcAccepts;
            && (t.syncInProgress ==> !fetched && t == s)
            && (!t.syncInProgress ==>
                  t.hasSyncResult && t.lastFetchSucceeded == fetched && t.lastSyncSucceeded == synced)
            && (if fetched then t.newUtcPending && t.lastReceivedUtc == poll.utc
                else t.newUtcPending == s.newUtcPending && t.lastReceivedUtc == s.lastReceivedUtc)
            && (if synced then SyncAge(t, now) == Some(0) else SyncAge(t, later) == SyncAge(s, later))
  {
    hide Elapsed, FinishAttempt, SyncAge;
    FinishExact(s, false, false, now, later);
    if poll.Received? {
      var t := s.(lastReceivedUtc := poll.utc, newUtcPending := true);
      FinishExact(t, true, s.rtcSyncEnabled && rtcAccepts, now, later);
      SameAge(s, t, later);
    }
  }

  lemma SameAge(s: Ntp, t: Ntp, later: u64)
    requires s.hasSuccessfulSync == t.hasSuccessfulSync && s.lastSuccessfulSyncMs == t.lastSuccessfulSyncMs
    ensures SyncAge(s, later) == SyncAge(t, later)
  {
  }

  lemma FinishExact(s: Ntp, fetched: bool, rtcUpdated: bool, now: u64, later: u64)
    ensures var t := FinishAttempt(s, fetched, rtcUpdated, now);
            && !t.syncInProgress && t.hasSyncResult
            && t.lastFetchSucceeded == fetched && t.lastSyncSucceeded == (fetched && rtcUpdated)
            && t.newUtcPending == s.newUtcPending && t.lastReceivedUtc == s.lastReceivedUtc
            && (if fetched && rtcUpdated then SyncAge(t, now) == Some(0) else SyncAge(t, later) == SyncAge(s, later))
  {
    ElapsedNothing(now);
    hide Elapsed;
  }

  /** The clock chip is set exactly when a time was fetched and it is to be set, and to that time. */
  lemma ChipSetExact(s: Ntp, wifi: bool, poll: PollResult, rtcAccepts: bool, now: u64, utc: int)
    requires s.syncInProgress
    ensures SetRtc(utc) in UpdateAt(s, wifi, poll, rtcAccepts, now).requests <==>
              Fetches(s, wifi, poll, now) && s.rtcSyncEnabled && utc == poll.utc
  {
    hide Elapsed, FinishAttempt;
  }

  lemma ElapsedNothing(now: u64)
    ensures Elapsed(now, now) == 0
  {
  }

  /** A received time is handed over exactly once, and taking it changes nothing else. */
  lemma TakenOnce(s: Ntp)
    ensures var first := TakeUtc(s);
            && first.ok == s.newUtcPending && first.requests == [] && !first.state.newUtcPending
            && first.state == s.(newUtcPending := false) && !TakeUtc(first.state).ok
  {
  }

  /** A request starts an attempt exactly when the service is idle, the network up and the backend
      starts; an attempt that cannot start counts as failed, and the next periodic one is due an
      interval later; any other request changes nothing. */
  lemma RequestExact(s: Ntp, wifi: bool, starts: bool, now: u64, later: u64)
    ensures var out := RequestSyncAt(s, wifi, starts, now);
            var idle := s.initialized && !s.syncInProgress;
            && (out.ok <==> idle && wifi && starts)
            && (StartBackend in out.requests <==> idle && wifi)
            && (!idle ==> out.state == s && out.requests == [])
            && (idle ==> out.state.attemptStartedMs == now && out.state.syncInProgress == out.ok)
            && (idle && !out.ok ==>
                  && out.state.hasSyncResult && !out.state.lastFetchSucceeded && !out.state.lastSyncSucceeded
                  && (PeriodicDue(out.state, later) <==> Elapsed(later, now) >= s.syncIntervalMs))
            && out.state.newUtcPending == s.newUtcPending
            && SyncAge(out.state, later) == SyncAge(s, later)
  {
    hide Elapsed;
  }

  /** A periodic request is a request exactly when one is due. */
  lemma PeriodicExact(s: Ntp, wifi: bool, starts: bool, now: u64)
    ensures var due := s.initialized && !s.syncInProgress && Elapsed(now, s.periodicAnchorMs) >= s.syncIntervalMs;
            RequestPeriodicAt(s, wifi, starts, now) ==
            if due then RequestSyncAt(s, wifi, starts, now) else Out(s, false, [])
  {
  }

  /** A begin stops what is running and forgets every result; it succeeds exactly on a valid
      configuration, and then the first periodic attempt is due one interval later. */
  lemma BeginExact(s: Ntp, config: NtpConfig, now: u64, later: u64)
    ensures var out := BeginAt(s, config, now);
            && (out.ok <==> config.serversValid && config.timeoutMs > 0 && config.syncIntervalMs > 0)
            && out.state.initialized == out.ok && !out.state.syncInProgress && !out.state.hasSyncResult
            && !out.state.lastFetchSucceeded && !out.state.lastSyncSucceeded && !out.state.newUtcPending
            && (StopBackend in out.requests <==> s.syncInProgress) && StartBackend !in out.requests
            && SyncAge(out.state, later) == None
            && (PeriodicDue(out.state, later) <==> out.ok && Elapsed(later, now) >= config.syncIntervalMs)
            && (out.ok ==> out.state.timeoutMs == config.timeoutMs && out.state.rtcSyncEnabled == config.rtcSyncEnabled)
  {
    hide Elapsed;
  }
}
