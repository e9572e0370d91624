/** What a parser sends to its sink, and how the sink answers. */
module MultipartLog {
  import opened Octets
  import opened MultipartSpec

  const MAX_CHUNK: nat := 1024

  datatype Event = Start | Chunk(bytes: seq<octet>) | End


  /** A callback with state: its answer may depend on every call so far. */
  type Policy = (seq<Event>, Event) -> bool

  class Sink {
    var log: seq<Event>
    const accepts: Policy

    constructor (accepts: Policy)
      ensures log == [] && this.accepts == accepts
    {
      this.accepts := accepts;
      log := [];
    }

    method Call(event: Event) returns (ok: bool)
      modifies this
      ensures log == old(log) + [event]
      ensures ok == accepts(old(log), event)
    {
      ok := accepts(log, event);
      log := log + [event];
    }
  }

  /** The data bytes delivered by a log, in order. */
  function Payload(log: seq<Event>): seq<octet> {
    if log == [] then []
    else
      var last := log[|log| - 1];
      Payload(log[..|log| - 1]) + if last.Chunk? then last.bytes else []
  }

  /** Every call from `from` on was accepted. */
  predicate Accepted(accepts: Policy, log: seq<Event>, from: nat) {
    forall i :: from <= i < |log| ==> accepts(log[..i], log[i])
  }

  /** No call followed a refused one. */
  predicate StopsAtRefusal(accepts: Policy, log: seq<Event>, from: nat) {
    forall i :: from <= i < |log| - 1 ==> accepts(log[..i], log[i])
  }

  predicate BoundedChunks(log: seq<Event>, from: nat) {
    forall i :: from <= i < |log| ==> log[i].Chunk? && 1 <= |log[i].bytes| <= MAX_CHUNK
  }

  /** `after` is `before`, then Start if the data started, then bounded chunks that deliver
      the payload of `r` - all of it if the call succeeded, a head of it otherwise. The call
      succeeds exactly when the text was well-formed and no event was refused. */
  ghost predicate Fed(accepts: Policy, before: seq<Event>, after: seq<Event>, r: Progress, ok: bool) {
    var base := before + if r.started then [Start] else [];
    && base <= after
    && BoundedChunks(after, |base|)
    && StopsAtRefusal(accepts, after, |before|)
    && (ok <==> !r.phase.Failed? && Accepted(accepts, after, |before|))
    && Payload(before) <= Payload(after) <= Payload(before) + r.data
    && (ok ==> Payload(after) == Payload(before) + r.data)
  }

  lemma PayloadAppend(log: seq<Event>, event: Event)
    ensures Payload(log + [event]) == Payload(log) + if event.Chunk? then event.bytes else []
  {
    assert (log + [event])[..|log|] == log;
  }

  /** A successful call followed by one that cannot start the data. */
  lemma FedThen(accepts: Policy, before: seq<Event>, mid: seq<Event>, after: seq<Event>, a: Progress, b: Progress,
                ok: bool)
    requires Fed(accepts, before, mid, a, true) && Fed(accepts, mid, after, b, ok) && !b.started
    ensures Fed(accepts, before, after, Then(a, b), ok)
  {
    hide Payload;
    assert mid + [] == mid;
    assert after[..|mid|] == mid;
    forall i | 0 <= i < |mid| ensures after[..i] == mid[..i] && after[i] == mid[i] {
      assert after[..|mid|][..i] == after[..i];
    }
    assert Payload(before) + a.data + b.data == Payload(before) + (a.data + b.data);
    assert Payload(before) <= Payload(mid) <= Payload(after);
  }

  lemma FedNothing(accepts: Policy, log: seq<Event>, phase: Phase)
    requires !phase.Failed?
    ensures Fed(accepts, log, log, Progress(phase, false, []), true)
  {
    assert log + [] == log;
  }

  lemma FedFailure(accepts: Policy, log: seq<Event>, r: Progress)
    requires r.phase.Failed? && !r.started
    ensures Fed(accepts, log, log, r, false)
  {
    assert log + [] == log;
    assert Payload(log) <= Payload(log) + r.data;
  }

  /** One more accepted or refused chunk. */
  lemma FedChunk(accepts: Policy, before: seq<Event>, chunk: seq<octet>, phase: Phase)
    requires 1 <= |chunk| <= MAX_CHUNK && !phase.Failed?
    ensures Fed(accepts, before, before + [Chunk(chunk)], Progress(phase, false, chunk), accepts(before, Chunk(chunk)))
  {
    var after := before + [Chunk(chunk)];
    assert before + [] == before && after[..|before|] == before;
    PayloadAppend(before, Chunk(chunk));
  }

  /** A refusal part of the way through is a refusal of the whole. */
  lemma FedRefused(accepts: Policy, before: seq<Event>, after: seq<Event>, a: Progress, b: Progress)
    requires Fed(accepts, before, after, a, false) && !a.phase.Failed? && !b.started
    ensures Fed(accepts, before, after, Then(a, b), false)
  {
    hide Payload;
    assert Payload(before) + a.data <= Payload(before) + (a.data + b.data);
  }

  /** A call that delivered no data: Start at most. */
  lemma FedHead(accepts: Policy, before: seq<Event>, r: Progress, ok: bool)
    requires ok <==> !r.phase.Failed? && (r.started ==> accepts(before, Start))
    requires ok ==> r.data == []
    ensures Fed(accepts, before, before + if r.started then [Start] else [], r, ok)
  {
    var after := before + if r.started then [Start] else [];
    assert before + [] == before && after[..|before|] == before;
    PayloadAppend(before, Start);
    assert Payload(before) <= Payload(before) + r.data;
  }

  lemma {:induction false} PayloadGrows(log: seq<Event>, from: nat)
    requires from <= |log| && BoundedChunks(log, from)
    ensures |Payload(log)| >= |Payload(log[..from])| + |log| - from
    decreases |log|
  {
    if from < |log| {
      var rest := log[..|log| - 1];
      assert rest[..from] == log[..from];
      PayloadGrows(rest, from);
    } else {
      assert log[..from] == log;
    }
  }

  /** A call that delivered no payload made no call but, possibly, Start. */
  lemma FedSilent(accepts: Policy, before: seq<Event>, after: seq<Event>, r: Progress, ok: bool)
    requires Fed(accepts, before, after, r, ok) && r.data == []
    ensures after == before + if r.started then [Start] else []
  {
    var base := before + if r.started then [Start] else [];
    PayloadGrows(after, |base|);
    assert after[..|base|] == base;
    PayloadAppend(before, Start);
    assert before + [] == before;
  }

  /** Successive calls: the data can only start in a call that no data came before. */
  lemma FedAfter(accepts: Policy, before: seq<Event>, mid: seq<Event>, after: seq<Event>, a: Progress, b: Progress,
                 ok: bool)
    requires Fed(accepts, before, mid, a, true) && Fed(accepts, mid, after, b, ok)
    requires b.started ==> !a.started && a.data == []
    ensures Fed(accepts, before, after, Then(a, b), ok)
  {
    if b.started {
      FedSilent(accepts, before, mid, a, true);
      assert before + [] == before;
    } else {
      FedThen(accepts, before, mid, after, a, b, ok);
    }
  }

  /** What a body cut short by a failing call delivered, seen against the whole body. */
  lemma FedCut(accepts: Policy, log: seq<Event>, a: Progress, b: Progress)
    requires Fed(accepts, [], log, a, false)
    requires a.phase.Failed? ==> b.phase.Failed?
    ensures StopsAtRefusal(accepts, log, 0) && Payload(log) <= Then(a, b).data
    ensures !(Accepted(accepts, log, 0) && !b.phase.Failed?)
  {
    assert Payload([]) == [];
    assert Payload(log) <= a.data <= a.data + b.data;
  }

  /** The log of a whole body after End was sent. */
  lemma FedFinished(accepts: Policy, log: seq<Event>, r: Progress)
    requires Fed(accepts, [], log, r, true) && r.started
    ensures Payload(log + [End]) == Payload(log) == r.data
    ensures StopsAtRefusal(accepts, log + [End], 0)
    ensures Accepted(accepts, log + [End], 0) <==> accepts(log, End)
    ensures log != [] && log[0] == Start && BoundedChunks(log, 1)
  {
    var after := log + [End];
    assert Payload([]) == [];
    PayloadAppend(log, End);
    assert [] + [Start] == [Start];
    assert after[..|log|] == log && forall i :: 0 <= i < |log| ==> after[..i] == log[..i];
  }

  lemma FedUnfinished(accepts: Policy, log: seq<Event>, r: Progress)
    requires Fed(accepts, [], log, r, true)
    ensures Payload(log) == r.data && StopsAtRefusal(accepts, log, 0)
  {
    assert Payload([]) == [];
  }

  lemma {:induction false} PayloadFirst(log: seq<Event>)
    requires log != []
    ensures Payload(log) == (if log[0].Chunk? then log[0].bytes else []) + Payload(log[1..])
    decreases |log|
  {
    hide Payload;
    var most, last := log[..|log| - 1], log[|log| - 1];
    assert log == most + [last];
    PayloadAppend(most, last);
    if |log| > 1 {
      PayloadFirst(most);
      assert log[1..] == most[1..] + [last];
      PayloadAppend(most[1..], last);
    } else {
      PayloadOfNothing();
      assert most == [] && log[1..] == [];
    }
  }

  lemma PayloadOfNothing()
    ensures Payload([]) == []
  {
  }
}
