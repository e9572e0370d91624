/** The receive loop of a streamed request: which events its handler sees, whatever the socket does. */
module HttpStreaming {
  import opened Octets

  const HTTP_STREAM_CHUNK_CAPACITY: nat := 1024

  datatype AbortReason = PeerClosed | ReceiveTimeout | ReceiveError | HandlerStopped | TransportStopping

  datatype Event = BodyStart | BodyData(bytes: seq<octet>) | BodyEnd | BodyAbort(reason: AbortReason)

  datatype ReceiveResult = Complete | StoppedConsumed | StoppedUnread | Aborted | Oversize

  /** A handler with state: whether it continues may depend on every event so far. */
  class Handler {
    var log: seq<Event>
    const continues: (seq<Event>, Event) -> bool

    constructor (continues: (seq<Event>, Event) -> bool)
      ensures log == [] && this.continues == continues
    {
      this.continues := continues;
      log := [];
    }

    method Handle(event: Event) returns (goesOn: bool)
      modifies this
      ensures log == old(log) + [event] && goesOn == continues(old(log), event)
    {
      goesOn := continues(log, event);
      log := log + [event];
    }
  }

  /** The k-th read of the socket: a byte count, an error code or a count that is too large, and the
      bytes it put into the buffer. */
  datatype Read = Read(received: int, bytes: seq<octet>)

  /** Whether the transport still accepts, and what the socket reads, each time they are asked. */
  datatype Socket = Socket(accepting: nat -> bool, answers: nat -> Read, timeoutCode: int)

  /** A read puts as many bytes into the buffer as it reports, up to what was asked for. */
  ghost predicate Delivers(socket: Socket) {
    forall k :: 0 < socket.answers(k).received <= HTTP_STREAM_CHUNK_CAPACITY ==>
      |socket.answers(k).bytes| == socket.answers(k).received
  }

  // ------------------------------------------------------------ what is handed over

  /** The bytes of the first `n` reads. */
  function Handed(socket: Socket, n: nat): seq<octet> {
    if n == 0 then [] else Handed(socket, n - 1) + socket.answers(n - 1).bytes
  }

  /** The start, then one piece for each of the first `n` reads: the bytes that read put into the buffer. */
  function Opening(socket: Socket, n: nat): (log: seq<Event>)
    ensures |log| == n + 1 && log[0] == BodyStart
  {
    [BodyStart] + seq(n, i requires 0 <= i < n => BodyData(socket.answers(i).bytes))
  }

  /** A read of a body of which `remaining` bytes are missing brought some of them. */
  predicate InRange(read: Read, remaining: int) {
    0 < read.received <= remaining && read.received <= HTTP_STREAM_CHUNK_CAPACITY
  }

  /** The reads 0 to n-1 were wanted, were in range, and the transport accepted before and after each. */
  ghost predicate ReadsWent(socket: Socket, length: nat, n: nat) {
    && |Handed(socket, n)| <= length
    && forall k :: 0 <= k < n ==>
         && socket.accepting(2 * k) && socket.accepting(2 * k + 1)
         && InRange(socket.answers(k), length - |Handed(socket, k)|)
  }

  /** The handler accepted the first `n` events. */
  ghost predicate Accepted(continues: (seq<Event>, Event) -> bool, log: seq<Event>, n: nat)
    requires n <= |log|
  {
    forall i :: 0 <= i < n ==> continues(log[..i], log[i])
  }

  predicate ReasonOf(read: Read, timeoutCode: int, reason: AbortReason) {
    && (read.received == 0 <==> reason == PeerClosed)
    && (read.received != 0 && read.received == timeoutCode <==> reason == ReceiveTimeout)
    && (read.received != 0 && read.received != timeoutCode <==> reason == ReceiveError)
  }

  /** The whole request, from what socket, transport and handler did: after `n` reads were handed
      over it was complete, or the transport refused, or the next read failed, or the handler
      refused the start, the last piece or the end. */
  ghost predicate Story(socket: Socket, continues: (seq<Event>, Event) -> bool, length: nat, log: seq<Event>,
                        result: ReceiveResult, n: nat)
  {
    var opening := Opening(socket, n);
    var handed := |Handed(socket, n)|;
    && ReadsWent(socket, length, n)
    && (match result
        case Complete =>
          && handed == length && socket.accepting(2 * n)
          && log == opening + [BodyEnd] && Accepted(continues, log, n + 2)
        case Aborted =>
          && |log| == n + 2 && log[n + 1].BodyAbort? && log == opening + [log[n + 1]] && Accepted(continues, log, n + 1)
          && (if !socket.accepting(2 * n) || (handed < length && !socket.accepting(2 * n + 1)) then
                log[n + 1].reason == TransportStopping
              else
                && handed < length && !InRange(socket.answers(n), length - handed)
                && ReasonOf(socket.answers(n), socket.timeoutCode, log[n + 1].reason))
        case Oversize => false
        case _ =>
          && (result == StoppedConsumed <==> handed == length)
          && |log| >= 2 && Accepted(continues, log, |log| - 2) && !continues(log[..|log| - 2], log[|log| - 2])
          && (|| log == opening + [BodyAbort(HandlerStopped)]
              || (log == opening + [BodyEnd, BodyAbort(HandlerStopped)] && handed == length
                  && socket.accepting(2 * n))))
  }

  lemma {:induction false} OpeningDelivers(socket: Socket, n: nat)
    ensures Received(Opening(socket, n)) == Handed(socket, n)
    decreases n
  {
    if n == 0 {
      assert Received([BodyStart]) == Received([BodyStart][..0]) + [];
    } else {
      OpeningDelivers(socket, n - 1);
      OpeningNext(socket, n - 1);
      ReceivedAppend(Opening(socket, n - 1), BodyData(socket.answers(n - 1).bytes));
    }
  }

  lemma OpeningNext(socket: Socket, n: nat)
    ensures Opening(socket, n + 1) == Opening(socket, n) + [BodyData(socket.answers(n).bytes)]
  {
  }

  /** What the handler got is what the socket read. */
  lemma StoryDelivers(socket: Socket, continues: (seq<Event>, Event) -> bool, length: nat, log: seq<Event>,
                      result: ReceiveResult, n: nat)
    requires Story(socket, continues, length, log, result, n)
    ensures Received(log) == Handed(socket, n)
  {
    hide Received, Handed, ReadsWent, Accepted, InRange;
    OpeningDelivers(socket, n);
    var opening := Opening(socket, n);
    if |log| == n + 2 {
      assert log == opening + [log[n + 1]];
      ReceivedAppend(opening, log[n + 1]);
    } else {
      assert log == opening + [BodyEnd] + [BodyAbort(HandlerStopped)];
      ReceivedAppend(opening, BodyEnd);
      ReceivedAppend(opening + [BodyEnd], BodyAbort(HandlerStopped));
    }
  }

  /** A request in which every wanted read is in range, the transport always accepts and the handler
      always continues is complete. */
  lemma AllWellIsComplete(socket: Socket, continues: (seq<Event>, Event) -> bool, length: nat, log: seq<Event>,
                          result: ReceiveResult, n: nat)
    requires Story(socket, continues, length, log, result, n)
    requires forall k :: socket.accepting(k)
    requires forall before, event :: continues(before, event)
    requires forall k :: |Handed(socket, k)| < length ==> InRange(socket.answers(k), length - |Handed(socket, k)|)
    ensures result == Complete && |Received(log)| == length
  {
    hide Received, Handed, InRange;
    StoryDelivers(socket, continues, length, log, result, n);
  }

  // ------------------------------------------------------------ what the handler sees

  function Received(log: seq<Event>): seq<octet> {
    if log == [] then []
    else
      var last := log[|log| - 1];
      Received(log[..|log| - 1]) + if last.BodyData? then last.bytes else []
  }

  /** A start, then data pieces of 1 to 1024 bytes, each accepted. */
  predicate Body(continues: (seq<Event>, Event) -> bool, log: seq<Event>) {
    && log != [] && log[0] == BodyStart
    && (forall i :: 1 <= i < |log| ==> log[i].BodyData? && 1 <= |log[i].bytes| <= HTTP_STREAM_CHUNK_CAPACITY)
    && (forall i :: 0 <= i < |log| ==> continues(log[..i], log[i]))
  }

  /** The events of one request: a body, then its end, or an abort; an abort also follows directly on
      the event that the handler stopped at, and on nothing else with that reason. */
  predicate Conversation(continues: (seq<Event>, Event) -> bool, log: seq<Event>, result: ReceiveResult, length: nat) {
    match result
    case Complete =>
      && |log| >= 2 && log[|log| - 1] == BodyEnd && Body(continues, log[..|log| - 1])
      && continues(log[..|log| - 1], BodyEnd) && |Received(log)| == length
    case Aborted =>
      && |log| >= 2 && log[|log| - 1].BodyAbort? && log[|log| - 1].reason != HandlerStopped
      && Body(continues, log[..|log| - 1]) && |Received(log)| <= length
    case Oversize => log == []
    case _ =>
      && StoppedAt(continues, log)
      && (result == StoppedConsumed <==> |Received(log)| == length)
      && |Received(log)| <= length
      && (log[|log| - 2] == BodyEnd ==> |Received(log)| == length)
  }

  /** The handler refused the last event but one, and the abort that follows says so. */
  predicate StoppedAt(continues: (seq<Event>, Event) -> bool, log: seq<Event>) {
    && |log| >= 2 && log[|log| - 1] == BodyAbort(HandlerStopped)
    && var before, event := log[..|log| - 2], log[|log| - 2];
       && !continues(before, event)
       && (if before == [] then event == BodyStart else Body(continues, before) && Refusable(event))
  }

  predicate Refusable(event: Event) {
    event == BodyEnd || (event.BodyData? && 1 <= |event.bytes| <= HTTP_STREAM_CHUNK_CAPACITY)
  }

  lemma ReceivedAppend(log: seq<Event>, event: Event)
    ensures Received(log + [event]) == Received(log) + if event.BodyData? then event.bytes else []
  {
    assert (log + [event])[..|log|] == log;
  }

  /** The pieces of in-range reads make a body. */
  lemma OpeningIsBody(socket: Socket, continues: (seq<Event>, Event) -> bool, length: nat, log: seq<Event>, n: nat)
    requires Delivers(socket) && ReadsWent(socket, length, n)
    requires Opening(socket, n) <= log && Accepted(continues, log, n + 1)
    ensures Body(continues, Opening(socket, n))
  {
    hide Handed;
    var opening := Opening(socket, n);
    forall i | 0 <= i < |opening| ensures continues(opening[..i], opening[i]) {
      assert opening[..i] == log[..i] && opening[i] == log[i];
    }
    forall i | 1 <= i < |opening|
      ensures opening[i].BodyData? && 1 <= |opening[i].bytes| <= HTTP_STREAM_CHUNK_CAPACITY
    {
      assert InRange(socket.answers(i - 1), length - |Handed(socket, i - 1)|);
    }
  }

  lemma AcceptedHead(continues: (seq<Event>, Event) -> bool, log: seq<Event>, m: nat, n: nat)
    requires m <= n <= |log| && Accepted(continues, log, n)
    ensures Accepted(continues, log, m)
  {
  }

  /** Every story is a well-formed conversation. */
  lemma StoryIsConversation(socket: Socket, continues: (seq<Event>, Event) -> bool, length: nat, log: seq<Event>,
                            result: ReceiveResult, n: nat)
    requires Delivers(socket) && Story(socket, continues, length, log, result, n)
    ensures Conversation(continues, log, result, length)
  {
    hide Received, Handed, ReadsWent, Delivers, Body;
    StoryDelivers(socket, continues, length, log, result, n);
    ReadsFit(socket, length, n);
    var opening := Opening(socket, n);
    if result == Complete || result == Aborted {
      AcceptedHead(continues, log, n + 1, if result == Complete then n + 2 else n + 1);
      OpeningIsBody(socket, continues, length, log, n);
      assert log[..|log| - 1] == opening;
    } else {
      StopIsConversation(socket, continues, length, log, n);
    }
  }

  lemma ReadsFit(socket: Socket, length: nat, n: nat)
    requires ReadsWent(socket, length, n)
    ensures |Handed(socket, n)| <= length
  {
  }

  lemma StopIsConversation(socket: Socket, continues: (seq<Event>, Event) -> bool, length: nat, log: seq<Event>, n: nat)
    requires Delivers(socket) && ReadsWent(socket, length, n)
    requires var opening := Opening(socket, n);
             log == opening + [BodyAbort(HandlerStopped)] || log == opening + [BodyEnd, BodyAbort(HandlerStopped)]
    requires |log| >= 2 && Accepted(continues, log, |log| - 2) && !continues(log[..|log| - 2], log[|log| - 2])
    ensures StoppedAt(continues, log)
  {
    hide Handed;
    var opening := Opening(socket, n);
    if |log| == n + 3 {
      OpeningIsBody(socket, continues, length, log, n);
      assert log[..|log| - 2] == opening;
    } else if n > 0 {
      ReadsWentBefore(socket, length, n - 1);
      OpeningNext(socket, n - 1);
      OpeningIsBody(socket, continues, length, log, n - 1);
      assert log[..|log| - 2] == Opening(socket, n - 1);
      assert log[|log| - 2] == BodyData(socket.answers(n - 1).bytes);
      assert InRange(socket.answers(n - 1), length - |Handed(socket, n - 1)|);
    } else {
      assert log[..0] == [];
    }
  }

  lemma ReadsWentBefore(socket: Socket, length: nat, n: nat)
    requires ReadsWent(socket, length, n + 1)
    ensures ReadsWent(socket, length, n)
  {
    assert |Handed(socket, n)| <= |Handed(socket, n + 1)|;
  }

  // ------------------------------------------------------------ the loop

  /** One read more was in range and was handed over. */
  lemma ReadsGoOn(socket: Socket, length: nat, n: nat)
    requires Delivers(socket) && ReadsWent(socket, length, n)
    requires socket.accepting(2 * n) && socket.accepting(2 * n + 1)
    requires InRange(socket.answers(n), length - |Handed(socket, n)|)
    ensures ReadsWent(socket, length, n + 1)
    ensures |Handed(socket, n + 1)| == |Handed(socket, n)| + socket.answers(n).received
  {
    hide Handed;
    HandedNext(socket, n);
  }

  lemma HandedNext(socket: Socket, n: nat)
    ensures Handed(socket, n + 1) == Handed(socket, n) + socket.answers(n).bytes
  {
  }

  lemma AcceptedNext(continues: (seq<Event>, Event) -> bool, log: seq<Event>, event: Event, n: nat)
    requires n <= |log| && Accepted(continues, log, n)
    ensures Accepted(continues, log + [event], n)
    ensures n == |log| && continues(log, event) ==> Accepted(continues, log + [event], n + 1)
  {
    var more := log + [event];
    assert forall i :: 0 <= i < n ==> more[..i] == log[..i] && more[i] == log[i];
    assert more[..|log|] == log;
  }

  /** The log of a request that the handler stopped at `event`. */
  lemma StopLog(continues: (seq<Event>, Event) -> bool, log: seq<Event>, event: Event)
    requires Accepted(continues, log, |log|) && !continues(log, event)
    ensures var after := log + [event] + [BodyAbort(HandlerStopped)];
            && |after| >= 2 && Accepted(continues, after, |after| - 2)
            && !continues(after[..|after| - 2], after[|after| - 2])
  {
    AcceptedNext(continues, log, event, |log|);
    AcceptedNext(continues, log + [event], BodyAbort(HandlerStopped), |log|);
    var after := log + [event] + [BodyAbort(HandlerStopped)];
    assert after[..|after| - 2] == log;
  }

  /** Between two reads: `n` pieces handed over and accepted. */
  ghost predicate Underway(socket: Socket, continues: (seq<Event>, Event) -> bool, length: nat, log: seq<Event>,
                           n: nat) {
    log == Opening(socket, n) && ReadsWent(socket, length, n) && Accepted(continues, log, n + 1)
  }

  lemma AbortStory(socket: Socket, continues: (seq<Event>, Event) -> bool, length: nat, log: seq<Event>, n: nat,
                   reason: AbortReason)
    requires Underway(socket, continues, length, log, n)
    requires var handed := |Handed(socket, n)|;
             if !socket.accepting(2 * n) || (handed < length && !socket.accepting(2 * n + 1)) then
               reason == TransportStopping
             else
               && handed < length && !InRange(socket.answers(n), length - handed)
               && ReasonOf(socket.answers(n), socket.timeoutCode, reason)
    ensures Story(socket, continues, length, log + [BodyAbort(reason)], Aborted, n)
  {
    hide Handed, ReadsWent, Accepted, Opening, InRange, ReasonOf;
    AcceptedNext(continues, log, BodyAbort(reason), n + 1);
  }

  /** The handler refuses the piece just read. */
  lemma RefusedPieceStory(socket: Socket, continues: (seq<Event>, Event) -> bool, length: nat, log: seq<Event>, n: nat,
                          result: ReceiveResult)
    requires Underway(socket, continues, length, log, n) && ReadsWent(socket, length, n + 1)
    requires var event := BodyData(socket.answers(n).bytes); !continues(log, event)
    requires result == if |Handed(socket, n + 1)| == length then StoppedConsumed else StoppedUnread
    ensures var event := BodyData(socket.answers(n).bytes);
            Story(socket, continues, length, log + [event] + [BodyAbort(HandlerStopped)], result, n + 1)
  {
    hide Handed, ReadsWent, Accepted, Opening;
    OpeningNext(socket, n);
    StopLog(continues, log, BodyData(socket.answers(n).bytes));
  }

  lemma AcceptedPiece(socket: Socket, continues: (seq<Event>, Event) -> bool, length: nat, log: seq<Event>, n: nat)
    requires Underway(socket, continues, length, log, n) && ReadsWent(socket, length, n + 1)
    requires continues(log, BodyData(socket.answers(n).bytes))
    ensures Underway(socket, continues, length, log + [BodyData(socket.answers(n).bytes)], n + 1)
  {
    hide Handed, ReadsWent, Accepted, Opening;
    OpeningNext(socket, n);
    AcceptedNext(continues, log, BodyData(socket.answers(n).bytes), n + 1);
  }

  lemma EndStory(socket: Socket, continues: (seq<Event>, Event) -> bool, length: nat, log: seq<Event>, n: nat)
    requires Underway(socket, continues, length, log, n) && |Handed(socket, n)| == length && socket.accepting(2 * n)
    ensures continues(log, BodyEnd) ==> Story(socket, continues, length, log + [BodyEnd], Complete, n)
    ensures !continues(log, BodyEnd) ==>
              Story(socket, continues, length, log + [BodyEnd] + [BodyAbort(HandlerStopped)], StoppedConsumed, n)
  {
    hide Handed, ReadsWent, Accepted, Opening;
    AcceptedNext(continues, log, BodyEnd, n + 1);
    if !continues(log, BodyEnd) {
      StopLog(continues, log, BodyEnd);
      assert log + [BodyEnd] + [BodyAbort(HandlerStopped)] == log + [BodyEnd, BodyAbort(HandlerStopped)];
    }
  }

  lemma StartStory(socket: Socket, continues: (seq<Event>, Event) -> bool, length: nat)
    ensures Handed(socket, 0) == []
    ensures continues([], BodyStart) ==> Underway(socket, continues, length, [BodyStart], 0)
    ensures !continues([], BodyStart) ==>
              Story(socket, continues, length, [BodyStart] + [BodyAbort(HandlerStopped)],
                    if length == 0 then StoppedConsumed else StoppedUnread, 0)
  {
    assert [BodyStart][..0] == [] && [] + [BodyStart] == [BodyStart];
    if !continues([], BodyStart) {
      StopLog(continues, [], BodyStart);
    }
  }

  /** The receive loop. `pieces` reads were handed over, and the story says what became of the
      request; a request that is too long is refused unread. */
  method ReceiveStream(contentLength: nat, maxContentLength: nat, handler: Handler, socket: Socket)
    returns (result: ReceiveResult, ghost pieces: nat)
    requires handler.log == [] && Delivers(socket)
    modifies handler
    ensures result == Oversize <==> contentLength > maxContentLength
    ensures result == Oversize ==> handler.log == []
    ensures result != Oversize ==>
              && Story(socket, handler.continues, contentLength, handler.log, result, pieces)
              && Received(handler.log) == Handed(socket, pieces)
    ensures Conversation(handler.continues, handler.log, result, contentLength)
  {
    hide Conversation, Delivers;
    result, pieces := Receive(contentLength, maxContentLength, handler, socket);
    if result == Oversize {
      EmptyConversation(handler.continues, contentLength);
    } else {
      StoryDelivers(socket, handler.continues, contentLength, handler.log, result, pieces);
      StoryIsConversation(socket, handler.continues, contentLength, handler.log, result, pieces);
    }
  }

  method Receive(contentLength: nat, maxContentLength: nat, handler: Handler, socket: Socket)
    returns (result: ReceiveResult, ghost pieces: nat)
    requires handler.log == [] && Delivers(socket)
    modifies handler
    ensures result == Oversize <==> contentLength > maxContentLength
    ensures result == Oversize ==> handler.log == []
    ensures result != Oversize ==> Story(socket, handler.continues, contentLength, handler.log, result, pieces)
  {
    hide Handed, ReadsWent, Accepted, Delivers, Opening, Story, Underway;
    pieces := 0;
    if contentLength > maxContentLength {
      return Oversize, 0;
    }
    var goesOn := handler.Handle(BodyStart);
    assert handler.log == [BodyStart];
    StartStory(socket, handler.continues, contentLength);
    if !goesOn {
      var _ := handler.Handle(BodyAbort(HandlerStopped));
      return if contentLength == 0 then StoppedConsumed else StoppedUnread, 0;
    }
    var remaining, asked, read := contentLength, 0, 0;
    while remaining != 0
      invariant 0 <= remaining == contentLength - |Handed(socket, read)| && asked == 2 * read
      invariant Underway(socket, handler.continues, contentLength, handler.log, read)
      decreases remaining
    {
      ghost var log := handler.log;
      if !socket.accepting(asked) {
        AbortStory(socket, handler.continues, contentLength, log, read, TransportStopping);
        var _ := handler.Handle(BodyAbort(TransportStopping));
        return Aborted, read;
      }
      var requested := if remaining < HTTP_STREAM_CHUNK_CAPACITY then remaining else HTTP_STREAM_CHUNK_CAPACITY;
      var got := socket.answers(read);
      if !socket.accepting(asked + 1) {
        AbortStory(socket, handler.continues, contentLength, log, read, TransportStopping);
        var _ := handler.Handle(BodyAbort(TransportStopping));
        return Aborted, read;
      }
      if got.received <= 0 || got.received > requested {
        var reason := if got.received == 0 then PeerClosed
                      else if got.received == socket.timeoutCode then ReceiveTimeout
                      else ReceiveError;
        AbortStory(socket, handler.continues, contentLength, log, read, reason);
        var _ := handler.Handle(BodyAbort(reason));
        return Aborted, read;
      }
      WentSoFar(socket, handler.continues, contentLength, log, read);
      ReadsGoOn(socket, contentLength, read);
      remaining := remaining - got.received;
      goesOn := handler.Handle(BodyData(got.bytes));
      if !goesOn {
        result := if remaining == 0 then StoppedConsumed else StoppedUnread;
        RefusedPieceStory(socket, handler.continues, contentLength, log, read, result);
        var _ := handler.Handle(BodyAbort(HandlerStopped));
        return result, read + 1;
      }
      AcceptedPiece(socket, handler.continues, contentLength, log, read);
      read, asked := read + 1, asked + 2;
    }
    ghost var body := handler.log;
    if !socket.accepting(asked) {
      AbortStory(socket, handler.continues, contentLength, body, read, TransportStopping);
      var _ := handler.Handle(BodyAbort(TransportStopping));
      return Aborted, read;
    }
    EndStory(socket, handler.continues, contentLength, body, read);
    goesOn := handler.Handle(BodyEnd);
    if !goesOn {
      var _ := handler.Handle(BodyAbort(HandlerStopped));
      return StoppedConsumed, read;
    }
    return Complete, read;
  }

  lemma WentSoFar(socket: Socket, continues: (seq<Event>, Event) -> bool, length: nat, log: seq<Event>, n: nat)
    requires Underway(socket, continues, length, log, n)
    ensures ReadsWent(socket, length, n)
  {
  }

  lemma EmptyConversation(continues: (seq<Event>, Event) -> bool, length: nat)
    ensures Conversation(continues, [], Oversize, length)
  {
  }
}
