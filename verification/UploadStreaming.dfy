/** The receive loop and the upload system: what the loop hands to the route is what the HTTPD task
    of the system does. */
module UploadStreaming {
  import opened Octets
  import opened UploadBridge
  import Stream = HttpStreaming
  import Spec = MultipartSpec
  import Log = MultipartLog
  import opened UploadSystem
  import UploadProgress

  /** The action of the HTTPD task for an event of the receive loop; the start is its Accept, and an
      abort that the route itself caused is the cancel of a stopped request. */
  predicate Mirrors(a: Action, event: Stream.Event) {
    match event
    case BodyStart => a.Accept?
    case BodyData(bytes) => a.Read? && a.chunk == bytes
    case BodyEnd => a.EndBody?
    case BodyAbort(reason) =>
      if reason == Stream.HandlerStopped then a == CancelNow else a == AbortRead(reason == Stream.ReceiveTimeout)
  }

  lemma {:induction false} ReceivedGrows(log: seq<Stream.Event>, i: nat)
    requires i <= |log|
    ensures |Stream.Received(log[..i])| <= |Stream.Received(log)|
    decreases |log|
  {
    if i < |log| {
      var most := log[..|log| - 1];
      assert most[..i] == log[..i];
      ReceivedGrows(most, i);
    } else {
      assert log[..i] == log;
    }
  }

  lemma ReceivedNext(log: seq<Stream.Event>, i: nat)
    requires i < |log|
    ensures Stream.Received(log[..i + 1]) == Stream.Received(log[..i]) + if log[i].BodyData? then log[i].bytes else []
  {
    assert log[..i + 1] == log[..i] + [log[i]];
    Stream.ReceivedAppend(log[..i], log[i]);
  }

  /** The parser always has a log to deliver. */
  lemma SomeFeed(r: Spec.Progress) returns (events: seq<Log.Event>)
    ensures Log.Fed(Always(), [], events, r, !r.phase.Failed?)
  {
    hide Log.Payload, Log.Fed, UploadProgress.Pieces;
    var base := if r.started then [Log.Start] else [];
    var pieces := UploadProgress.Pieces(r.data);
    UploadProgress.PiecesDeliver(r.data);
    UploadProgress.PayloadConcat(base, pieces);
    Log.PayloadOfNothing();
    Log.PayloadAppend([], Log.Start);
    assert [] + [Log.Start] == [Log.Start];
    assert Log.Payload(base) == [];
    events := base + pieces;
    assert forall i :: |base| <= i < |events| ==> events[i] == pieces[i - |base|];
    UploadProgress.WholeLog(events, r);
  }

  /** What a conversation says about its event number `i`. */
  lemma EventShape(continues: (seq<Stream.Event>, Stream.Event) -> bool, log: seq<Stream.Event>,
                   result: Stream.ReceiveResult, length: nat, i: nat)
    requires Stream.Conversation(continues, log, result, length) && 1 <= i < |log|
    ensures !log[i].BodyStart? && |Stream.Received(log)| <= length
    ensures log[i].BodyData? ==> log[i].bytes != []
    ensures log[i] == Stream.BodyEnd ==> |Stream.Received(log[..i])| == length
  {
    hide Stream.Received;
    if log[i] == Stream.BodyEnd {
      ReceivedNext(log, i);
      if i == |log| - 1 {
        assert log[..i + 1] == log;
      } else {
        assert i == |log| - 2;
        ReceivedNext(log, i + 1);
        assert log[..i + 2] == log;
      }
    }
    if result == Stream.Complete || result == Stream.Aborted {
      assert i < |log| - 1 ==> log[..|log| - 1][i] == log[i];
    } else if i < |log| - 2 {
      assert log[..|log| - 2][i] == log[i];
    }
  }

  /** Whenever the HTTPD task of the system has read what the loop has handed over and reads on, the
      loop's next event is an enabled action of it, and after that it has read that event too. */
  lemma EventIsModelled(s: Sys, continues: (seq<Stream.Event>, Stream.Event) -> bool, log: seq<Stream.Event>,
                        result: Stream.ReceiveResult, i: nat)
    returns (a: Action)
    requires Stream.Conversation(continues, log, result, s.http.request.contentLength)
    requires 1 <= i < |log| && log[i] != Stream.BodyAbort(Stream.HandlerStopped)
    requires s.http.pc == Reading && s.http.body == Stream.Received(log[..i])
    ensures Mirrors(a, log[i]) && Enabled(s, a)
    ensures Do(s, a).http.body == Stream.Received(log[..i + 1])
  {
    hide Stream.Conversation, Stream.Received, Spec.Consume, Log.Fed;
    var length := s.http.request.contentLength;
    EventShape(continues, log, result, length, i);
    ReceivedGrows(log, i + 1);
    ReceivedNext(log, i);
    match log[i]
    case BodyData(bytes) =>
      var events := SomeFeed(Spec.Consume(s.http.request.delimiters, s.http.phase, bytes));
      a := Read(bytes, events);
    case BodyEnd => a := EndBody(false);
    case BodyAbort(reason) => a := AbortRead(reason == Stream.ReceiveTimeout);
  }
}
