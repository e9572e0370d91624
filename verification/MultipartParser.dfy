/** The streaming parser itself: fixed buffers, a carry, and a sink that may refuse. */
module MultipartParser {
  import opened Octets
  import opened MultipartHeaders
  import MultipartSpec
  import opened MultipartLog

  type Phase = MultipartSpec.Phase
  type Progress = MultipartSpec.Progress
  type Delimiters = MultipartSpec.Delimiters

  lemma SliceOfTail<T>(head: seq<T>, tail: seq<T>, lo: nat, hi: nat)
    requires lo <= hi <= |tail|
    ensures (head + tail)[|head| + lo..|head| + hi] == tail[lo..hi]
  {
  }

  lemma SlicesJoin<T>(w: seq<T>, i: nat, j: nat, k: nat)
    requires i <= j <= k <= |w|
    ensures w[i..j] + w[j..k] == w[i..k]
  {
  }

  datatype State = Opening | Headers | Data | Closing | Done | Error

  class DoserMultipartFirmwareParser {
    var boundary: seq<octet>
    var filename: seq<octet>
    const headers: array<octet>
    const carry: array<octet>
    var opening: seq<octet>
    var closing: seq<octet>
    var nextPart: seq<octet>
    var position: nat
    var headerLength: nat
    var carryLength: nat
    var closeTail: nat
    var endEmitted: bool
    var state: State

    constructor ()
      ensures Valid() && state == Error
      ensures fresh(headers) && fresh(carry)
    {
      boundary, filename, opening, closing, nextPart := [], [], [], [], [];
      headers := new octet[513](_ => 0);
      carry := new octet[78](_ => 0);
      position, headerLength, carryLength, closeTail := 0, 0, 0, 0;
      endEmitted := false;
      state := Error;
    }

    ghost function D(): Delimiters
      reads this
    {
      MultipartSpec.Delimiters(boundary)
    }

    /** The automaton phase that the fields represent. */
    ghost function Phase(): Phase
      reads this, headers, carry
      requires Shape()
    {
      match state
      case Opening => MultipartSpec.Opening(position)
      case Headers => MultipartSpec.Headers(headers[..headerLength])
      case Data => MultipartSpec.Data(filename, carry[..carryLength])
      case Closing => MultipartSpec.Closing(filename, closeTail)
      case Done => MultipartSpec.Done(filename)
      case Error => MultipartSpec.Failed
    }

    ghost predicate Shape()
      reads this
    {
      && headers != carry && headers.Length == 513 && carry.Length == 78
      && |boundary| <= MultipartSpec.MAX_BOUNDARY
      && headerLength <= MAX_BLOCK && carryLength <= 78
      && (state != Error ==> opening == D().Opening() && closing == D().Closing() && nextPart == D().NextPart())
      && (state.Headers? || state.Opening? ==> closeTail == 0 && carryLength == 0)
      && (state.Data? ==> closeTail == 0)
      && (state.Opening? ==> headerLength == 0)
    }

    ghost predicate Valid()
      reads this, headers, carry
    {
      Shape() && MultipartSpec.Reachable(D(), Phase())
    }

    method Begin(text: seq<octet>) returns (ok: bool)
      requires Valid()
      modifies this
      ensures Valid()
      ensures ok <==> 1 <= |text| <= MultipartSpec.MAX_BOUNDARY
      ensures ok ==> boundary == text && Phase() == MultipartSpec.Opening(0) && !endEmitted
      ensures !ok ==> Phase() == old(Phase()) && boundary == old(boundary)
    {
      if |text| == 0 || |text| > 70 {
        return false;
      }
      boundary := text;
      opening := [45, 45] + boundary + CRLF;
      closing := CRLF + [45, 45] + boundary + [45, 45];
      nextPart := closing[..|boundary| + 4] + CRLF;
      position, headerLength, carryLength, closeTail := 0, 0, 0, 0;
      endEmitted := false;
      filename := [];
      state := Opening;
      assert nextPart == D().NextPart();
      return true;
    }

    // ---------------------------------------------------------- headers

    method ParseFilename(text: seq<octet>) returns (ok: bool)
      modifies this`filename
      ensures ok <==> ValidFilename(text)
      ensures ok ==> filename == text
    {
      if |text| == 0 || |text| > 128 {
        return false;
      }
      filename := [];
      for i := 0 to |text|
        invariant filename == text[..i]
        invariant forall j :: 0 <= j < i ==> ValidFilenameOctet(text[j])
      {
        var c := text[i];
        if c < 32 || c == 127 || c == 47 || c == 92 {
          assert !ValidFilenameOctet(text[i]);
          return false;
        }
        filename := filename + [c];
      }
      assert filename == text;
      return |text| >= 4 && EqualInsensitive(filename[|text| - 4..], BIN);
    }

    method ParseDispositionLine(line: seq<octet>) returns (ok: bool)
      modifies this`filename
      ensures ok <==> ParseDisposition(line).Some?
      ensures ok ==> ParseDisposition(line) == Some(filename)
    {
      hide EqualInsensitive, ValidFilename;
      if |line| < 30 || line[20..30] != FORM_DATA {
        return false;
      }
      var cursor := 30;
      var name, named := false, false;
      while cursor < |line|
        invariant 30 <= cursor <= |line|
        invariant ParseDisposition(line) == ParseParameters(line, cursor, name, if named then Some(filename) else None)
        decreases |line| - cursor
      {
        if line[cursor] != 59 {
          return false;
        }
        var key := SkipSpaces(line, cursor + 1);
        var eq := IndexOf(line, 61, key);
        if eq == |line| || eq + 1 == |line| || line[eq + 1] != 34 {
          return false;
        }
        var value := eq + 2;
        var quote := IndexOf(line, 34, value);
        if quote == |line| {
          return false;
        }
        cursor := quote + 1;
        if EqualInsensitive(line[key..value - 2], NAME) {
          if name || !EqualInsensitive(line[value..quote], FIRMWARE) {
            return false;
          }
          name := true;
        } else if EqualInsensitive(line[key..value - 2], FILENAME) {
          if named {
            return false;
          }
          named := ParseFilename(line[value..quote]);
          if !named {
            return false;
          }
        } else {
          return false;
        }
      }
      return name && named;
    }

    method ParseTypeLine(line: seq<octet>) returns (ok: bool)
      requires |line| >= 14
      ensures ok <==> ValidTypeLine(line)
    {
      hide EqualInsensitive;
      if line[13] != 32 || |line| == 14 || (|line| >= 24 && EqualInsensitive(line[14..24], MULTIPART)) {
        return false;
      }
      for i := 14 to |line|
        invariant forall j :: 14 <= j < i ==> ValidTypeOctet(line[j])
      {
        if line[i] < 33 || line[i] == 59 {
          assert !ValidTypeOctet(line[i]);
          return false;
        }
      }
      return true;
    }

    /** The line that starts at `begin`: it ends before the next CRLF. */
    method FindLineEnd(begin: nat) returns (pos: nat)
      requires begin <= headerLength <= headers.Length
      ensures pos == LineEnd(headers[..headerLength], begin)
    {
      pos := begin;
      while pos + 1 < headerLength && !(headers[pos] == CR && headers[pos + 1] == LF)
        invariant begin <= pos <= headerLength
        invariant LineEnd(headers[..headerLength], begin) == LineEnd(headers[..headerLength], pos)
      {
        pos := pos + 1;
      }
    }

    method ParseHeaders() returns (ok: bool)
      requires headerLength <= headers.Length
      modifies this`filename
      ensures ok <==> ParseBlock(headers[..headerLength]).Some?
      ensures ok ==> ParseBlock(headers[..headerLength]) == Some(filename)
    {
      hide EqualInsensitive, ParseDisposition, ValidTypeLine, LineEnd, ValidFilename;
      ghost var block := headers[..headerLength];
      var disposition, typed := false, false;
      var pos := 0;
      while pos < headerLength
        invariant 0 <= pos <= headerLength
        invariant ParseBlock(block) == ParseLines(block, pos, if disposition then Some(filename) else None, typed)
        decreases headerLength - pos
      {
        var begin := pos;
        pos := FindLineEnd(begin);
        if pos + 1 >= headerLength || pos + 2 - begin > 256 {
          return false;
        }
        if pos == begin {
          return disposition;
        }
        var line := headers[begin..pos];
        assert line == block[begin..pos];
        if |line| >= 21 && EqualInsensitive(line[..20], DISPOSITION) {
          if disposition {
            return false;
          }
          disposition := ParseDispositionLine(line);
          if !disposition {
            return false;
          }
        } else if |line| >= 14 && EqualInsensitive(line[..13], CONTENT_TYPE) {
          if typed {
            return false;
          }
          typed := ParseTypeLine(line);
          if !typed {
            return false;
          }
        } else {
          return false;
        }
        pos := pos + 2;
      }
      return false;
    }

    // ---------------------------------------------------------- data

    /** Delivers one piece; `done` is what this stretch delivered before, `rest` what would follow. */
    method EmitPiece(chunk: seq<octet>, sink: Sink, ghost before: seq<Event>, ghost p: Phase,
                     ghost done: seq<octet>, ghost rest: seq<octet>) returns (ok: bool)
      requires !p.Failed? && 1 <= |chunk| <= MAX_CHUNK
      requires Fed(sink.accepts, before, sink.log, MultipartSpec.Progress(p, false, done), true)
      modifies sink
      ensures ok ==> Fed(sink.accepts, before, sink.log, MultipartSpec.Progress(p, false, done + chunk), true)
      ensures !ok ==> Fed(sink.accepts, before, sink.log, MultipartSpec.Progress(p, false, done + chunk + rest), false)
    {
      hide Fed;
      ghost var mid := sink.log;
      FedChunk(sink.accepts, mid, chunk, p);
      ok := sink.Call(Chunk(chunk));
      FedThen(sink.accepts, before, mid, sink.log, MultipartSpec.Progress(p, false, done),
              MultipartSpec.Progress(p, false, chunk), ok);
      if !ok {
        FedRefused(sink.accepts, before, sink.log, MultipartSpec.Progress(p, false, done + chunk),
                   MultipartSpec.Progress(p, false, rest));
      }
    }

    /** Delivers positions `from` to `to` of carry and bytes, read as one text. */
    method EmitRange(bytes: seq<octet>, from: nat, to: nat, oldCarry: nat, sink: Sink, ghost p: Phase)
      returns (ok: bool)
      requires !p.Failed?
      requires oldCarry <= carry.Length <= MAX_CHUNK && from <= to <= oldCarry + |bytes|
      modifies sink
      ensures Fed(sink.accepts, old(sink.log), sink.log,
                  MultipartSpec.Progress(p, false, (carry[..oldCarry] + bytes)[from..to]), ok)
    {
      hide Fed;
      ghost var w := carry[..oldCarry] + bytes;
      FedNothing(sink.accepts, sink.log, p);
      assert w[from..from] == [];
      var at := from;
      if at < oldCarry && at < to {
        var end := if to < oldCarry then to else oldCarry;
        CarrySlice(bytes, oldCarry, from, end);
        SlicesJoin(w, from, end, to);
        ok := EmitPiece(carry[at..end], sink, sink.log, p, [], w[end..to]);
        assert [] + w[from..end] == w[from..end];
        if !ok {
          return false;
        }
        at := end;
      }
      ok := EmitBytes(bytes, from, at, to, oldCarry, sink, old(sink.log), p);
    }

    lemma CarrySlice(bytes: seq<octet>, held: nat, lo: nat, hi: nat)
      requires lo <= hi <= held <= carry.Length
      ensures (carry[..held] + bytes)[lo..hi] == carry[lo..hi]
    {
    }

    /** The rest of the range lies in the new bytes and goes out in pieces. */
    method EmitBytes(bytes: seq<octet>, from: nat, start: nat, to: nat, oldCarry: nat, sink: Sink,
                     ghost before: seq<Event>, ghost p: Phase) returns (ok: bool)
      requires !p.Failed? && oldCarry <= carry.Length
      requires from <= start <= to <= oldCarry + |bytes| && (start < to ==> oldCarry <= start)
      requires Fed(sink.accepts, before, sink.log,
                   MultipartSpec.Progress(p, false, (carry[..oldCarry] + bytes)[from..start]), true)
      modifies sink
      ensures Fed(sink.accepts, before, sink.log,
                  MultipartSpec.Progress(p, false, (carry[..oldCarry] + bytes)[from..to]), ok)
    {
      hide Fed;
      ghost var head := carry[..oldCarry];
      ghost var w := head + bytes;
      var at := start;
      while at < to
        invariant from <= at <= to && (at < to ==> oldCarry <= at)
        invariant Fed(sink.accepts, before, sink.log, MultipartSpec.Progress(p, false, w[from..at]), true)
      {
        var count := if to - at > 1024 then 1024 else to - at;
        var chunk := bytes[at - oldCarry..at - oldCarry + count];
        SliceOfTail(head, bytes, at - oldCarry, at - oldCarry + count);
        SlicesJoin(w, from, at, at + count);
        SlicesJoin(w, from, at + count, to);
        ok := EmitPiece(chunk, sink, before, p, w[from..at], w[at + count..to]);
        if !ok {
          return false;
        }
        at := at + count;
      }
      return true;
    }

    /** Position `i` of carry and bytes, read as one text. */
    function At(bytes: seq<octet>, held: nat, i: nat): octet
      reads this, carry
      requires held <= carry.Length && i < held + |bytes|
    {
      if i < held then carry[i] else bytes[i - held]
    }

    /** Whether `pattern`, cut to what is left of the text, matches at position `i`. */
    method MatchesAt(bytes: seq<octet>, held: nat, i: nat, pattern: seq<octet>) returns (r: bool)
      requires held <= carry.Length && i < held + |bytes|
      ensures var rest := (carry[..held] + bytes)[i..]; r <==> pattern <= rest || rest <= pattern
    {
      ghost var rest := (carry[..held] + bytes)[i..];
      var remaining := held + |bytes| - i;
      var compare := if remaining < |pattern| then remaining else |pattern|;
      for j := 0 to compare
        invariant forall k :: 0 <= k < j ==> rest[k] == pattern[k]
      {
        assert At(bytes, held, i + j) == rest[j];
        if At(bytes, held, i + j) != pattern[j] {
          return false;
        }
      }
      assert rest[..compare] == pattern[..compare];
      return true;
    }

    /** Moves positions `i` to the end of carry and bytes to the front of the carry. */
    method KeepCarry(bytes: seq<octet>, held: nat, i: nat)
      requires held <= carry.Length && i <= held + |bytes| <= i + carry.Length
      modifies carry, this`carryLength
      ensures carryLength == held + |bytes| - i
      ensures carry[..carryLength] == (old(carry[..held]) + bytes)[i..]
    {
      ghost var w := carry[..held] + bytes;
      var remaining := held + |bytes| - i;
      for j := 0 to remaining
        invariant forall k :: 0 <= k < j ==> carry[k] == w[i + k]
        invariant forall k :: j <= k < carry.Length ==> carry[k] == old(carry[k])
      {
        assert w[i + j] == At(bytes, held, i + j);
        carry[j] := At(bytes, held, i + j);
      }
      carryLength := remaining;
      assert carry[..carryLength] == w[i..];
    }

    /** The first position at which a delimiter, or the start of one, matches. */
    method FindDelimiter(bytes: seq<octet>, held: nat) returns (i: nat, closePrefix: bool, nextPrefix: bool)
      requires held <= carry.Length && closing == D().Closing() && nextPart == D().NextPart()
      ensures var w := carry[..held] + bytes;
              && i <= |w|
              && (forall k :: 0 <= k < i ==> !D().Compatible(w[k..]))
              && (i < |w| ==> closePrefix || nextPrefix)
              && (closePrefix ==> closing <= w[i..] || w[i..] <= closing)
              && (nextPrefix ==> nextPart <= w[i..] || w[i..] <= nextPart)
              && (!closePrefix ==> i == |w| || !(closing <= w[i..]))
              && (!nextPrefix ==> i == |w| || !(nextPart <= w[i..]))
    {
      ghost var w := carry[..held] + bytes;
      var total := held + |bytes|;
      i, closePrefix, nextPrefix := 0, false, false;
      while i < total
        invariant 0 <= i <= total
        invariant !closePrefix && !nextPrefix
        invariant forall k :: 0 <= k < i ==> !D().Compatible(w[k..])
      {
        closePrefix := MatchesAt(bytes, held, i, closing);
        nextPrefix := MatchesAt(bytes, held, i, nextPart);
        if closePrefix || nextPrefix {
          return;
        }
        i := i + 1;
      }
    }

    /** Scans the carry and `bytes` as one text, delivers what cannot belong to a delimiter,
        and keeps the rest as the new carry. */
    method FeedData(bytes: seq<octet>, sink: Sink) returns (ok: bool)
      requires Valid() && state == Data && bytes != []
      modifies this, headers, carry, sink
      ensures Shape() && boundary == old(boundary) && endEmitted == old(endEmitted)
      ensures var r := MultipartSpec.Consume(D(), old(Phase()), bytes);
              Fed(sink.accepts, old(sink.log), sink.log, r, ok) && (ok ==> Phase() == r.phase)
      decreases |bytes|, 1
    {
      hide Fed, MultipartSpec.Consume, MultipartSpec.FirstCompatible, MultipartSpec.Scanned;
      var held := carryLength;
      ghost var d, f := D(), filename;
      ghost var w := carry[..held] + bytes;
      MultipartSpec.ConsumeData(d, f, carry[..held], bytes);
      var i, closePrefix, nextPrefix := FindDelimiter(bytes, held);
      var remaining := held + |bytes| - i;
      if closePrefix && remaining >= |closing| {
        ok := FeedClosing(bytes, i, sink);
      } else if nextPrefix && remaining >= |nextPart| {
        MultipartSpec.ScanNextPart(d, f, w, i);
        FedFailure(sink.accepts, sink.log, MultipartSpec.Scanned(d, f, w));
        ok := false;
      } else {
        // Shorter than a delimiter, so it fits the carry.
        assert remaining <= 75;
        MultipartSpec.ScanCarry(d, f, w, i);
        ok := EmitRange(bytes, 0, i, held, sink, MultipartSpec.Data(f, w[i..]));
        assert w[0..i] == w[..i];
        if ok {
          KeepCarry(bytes, held, i);
        }
      }
    }

    /** The closing delimiter starts at position `i` of carry and bytes. */
    method FeedClosing(bytes: seq<octet>, i: nat, sink: Sink) returns (ok: bool)
      requires Valid() && state == Data && bytes != []
      requires i + |closing| <= carryLength + |bytes|
      requires var w := carry[..carryLength] + bytes;
               closing <= w[i..] && forall k :: 0 <= k < i ==> !D().Compatible(w[k..])
      modifies this, headers, carry, sink
      ensures Shape() && boundary == old(boundary) && endEmitted == old(endEmitted)
      ensures var r := MultipartSpec.Consume(D(), old(Phase()), bytes);
              Fed(sink.accepts, old(sink.log), sink.log, r, ok) && (ok ==> Phase() == r.phase)
      decreases |bytes|, 0
    {
      hide Fed, MultipartSpec.Consume, MultipartSpec.Delimiters.Compatible, MultipartSpec.Step;
      ghost var d, f := D(), filename;
      ghost var w := carry[..carryLength] + bytes;
      ghost var before := sink.log;
      var rest := bytes[i + |closing| - carryLength..];
      ghost var a := MultipartSpec.Progress(MultipartSpec.Closing(f, 0), false, w[..i]);
      ghost var b := MultipartSpec.Consume(d, MultipartSpec.Closing(f, 0), rest);
      MultipartSpec.ConsumeClosing(d, f, carry[..carryLength], bytes, i);
      MultipartSpec.NeverRestarts(d, MultipartSpec.Closing(f, 0), rest);
      ok := EmitRange(bytes, 0, i, carryLength, sink, a.phase);
      assert w[0..i] == w[..i];
      if !ok {
        FedRefused(sink.accepts, before, sink.log, a, b);
        return false;
      }
      ghost var mid := sink.log;
      state := Closing;
      carryLength := 0;
      ok := Feed(rest, sink);
      FedThen(sink.accepts, before, mid, sink.log, a, b, ok);
    }

    // ---------------------------------------------------------- one byte outside the data

    method StepOpening(c: octet) returns (ok: bool)
      requires Valid() && state == Opening
      modifies this`position, this`state
      ensures Shape() && state != Error
      ensures var r := MultipartSpec.Step(D(), old(Phase()), c);
              r == MultipartSpec.Progress(if ok then Phase() else MultipartSpec.Failed, false, []) && (ok ==> Valid())
    {
      position := position + 1;
      if c != opening[position - 1] {
        return false;
      }
      if position == |opening| {
        position := 0;
        state := Headers;
        assert headers[..headerLength] == [];
      }
      return true;
    }

    /** Adds one header byte; the byte that ends the block starts the data. */
    method StepHeaders(c: octet, sink: Sink) returns (ok: bool)
      requires Valid() && state == Headers
      modifies this, headers, sink
      ensures Shape() && state != Error && boundary == old(boundary) && endEmitted == old(endEmitted)
      ensures var r := MultipartSpec.Step(D(), old(Phase()), c);
              && r.data == []
              && sink.log == old(sink.log) + (if r.started then [Start] else [])
              && (ok <==> !r.phase.Failed? && (r.started ==> sink.accepts(old(sink.log), Start)))
              && (ok ==> Phase() == r.phase && Valid())
    {
      hide ParseBlock, PairedLineEnds;
      ghost var d, h := D(), headers[..headerLength];
      if headerLength >= 512 {
        return false;
      }
      if c == LF && (headerLength == 0 || headers[headerLength - 1] != CR) {
        return false;
      }
      if headerLength != 0 && headers[headerLength - 1] == CR && c != LF {
        return false;
      }
      headers[headerLength] := c;
      headerLength := headerLength + 1;
      MultipartSpec.HeaderStepReachable(d, h, c);
      assert headers[..headerLength] == h + [c];
      if headerLength >= 4 && headers[headerLength - 4..headerLength] == END_OF_HEADERS {
        assert EndsHeaders(h + [c]);
        ok := ParseHeaders();
        if ok {
          ok := sink.Call(Start);
        }
        if ok {
          state := Data;
          assert carry[..carryLength] == [];
        }
        return;
      }
      return true;
    }

    method StepClosing(c: octet) returns (ok: bool)
      requires Valid() && state == Closing
      modifies this`closeTail, this`state
      ensures Shape() && state != Error
      ensures var r := MultipartSpec.Step(D(), old(Phase()), c);
              r == MultipartSpec.Progress(if ok then Phase() else MultipartSpec.Failed, false, []) && (ok ==> Valid())
    {
      var expected := if closeTail == 0 then CR else LF;
      if c != expected {
        return false;
      }
      closeTail := closeTail + 1;
      if closeTail == 2 {
        state := Done;
      }
      return true;
    }

    method FeedByte(c: octet, sink: Sink) returns (ok: bool)
      requires Valid() && state != Data && state != Error
      modifies this, headers, sink
      ensures Shape() && state != Error && boundary == old(boundary) && endEmitted == old(endEmitted)
      ensures var r := MultipartSpec.Step(D(), old(Phase()), c);
              && r.data == []
              && sink.log == old(sink.log) + (if r.started then [Start] else [])
              && (ok <==> !r.phase.Failed? && (r.started ==> sink.accepts(old(sink.log), Start)))
              && (r.started ==> old(state) == Headers && r.phase.Data?)
              && (ok ==> Phase() == r.phase && Valid())
              && (ok && (state == Opening || state == Headers) ==>
                  !r.started && (old(state) == Opening || old(state) == Headers))
    {
      hide MultipartSpec.FirstCompatible, ParseBlock;
      assert sink.log + [] == sink.log;
      if state == Opening {
        ok := StepOpening(c);
      } else if state == Headers {
        ok := StepHeaders(c, sink);
      } else if state == Closing {
        ok := StepClosing(c);
      } else {
        ok := false;
      }
    }

    /** Consumes `bytes`; afterwards the fields represent the automaton's phase. */
    method Feed(bytes: seq<octet>, sink: Sink) returns (ok: bool)
      requires Valid()
      modifies this, headers, carry, sink
      ensures Valid() && boundary == old(boundary) && endEmitted == old(endEmitted)
      ensures var r := MultipartSpec.Consume(D(), old(Phase()), bytes);
              && Fed(sink.accepts, old(sink.log), sink.log, r, ok)
              && Phase() == if ok then r.phase else MultipartSpec.Failed
      decreases |bytes|, 2
    {
      hide Fed, MultipartSpec.Consume, MultipartSpec.Step;
      ghost var d, before, p := D(), sink.log, Phase();
      ghost var whole := MultipartSpec.Consume(d, p, bytes);
      ghost var done := MultipartSpec.Progress(p, false, []);
      if state == Error {
        MultipartSpec.ConsumeFailed(d, bytes);
        FedFailure(sink.accepts, before, whole);
        return false;
      }
      var i := 0;
      var valid := true;
      while i < |bytes| && valid
        invariant 0 <= i <= |bytes|
        invariant Shape() && boundary == old(boundary) && endEmitted == old(endEmitted) && state != Error
        invariant valid ==> Valid() && done.phase == Phase() && done.data == []
        invariant valid ==> whole == MultipartSpec.Then(done, MultipartSpec.Consume(d, Phase(), bytes[i..]))
        invariant valid ==> sink.log == before + (if done.started then [Start] else [])
        invariant valid ==> done.started ==> sink.accepts(before, Start) && state != Opening && state != Headers
        invariant !valid ==> Fed(sink.accepts, before, sink.log, whole, false)
      {
        ghost var now := Phase();
        var c := bytes[i];
        MultipartSpec.ConsumeCons(d, now, bytes[i..]);
        ghost var step := MultipartSpec.Step(d, now, c);
        ghost var rest := MultipartSpec.Consume(d, step.phase, bytes[i + 1..]);
        assert bytes[i..][1..] == bytes[i + 1..];
        MultipartSpec.ThenAssociates(done, step, rest);
        MultipartSpec.ConsumeFailed(d, bytes[i + 1..]);
        if state == Data {
          ghost var b := MultipartSpec.Consume(d, now, bytes[i..]);
          ghost var mid := sink.log;
          FedHead(sink.accepts, before, done, true);
          MultipartSpec.NeverRestarts(d, now, bytes[i..]);
          ok := FeedData(bytes[i..], sink);
          FedThen(sink.accepts, before, mid, sink.log, done, b, ok);
          MultipartSpec.ConsumeReachable(d, now, bytes[i..]);
          if !ok {
            state := Error;
          }
          return;
        }
        valid := FeedByte(c, sink);
        i := i + 1;
        done := MultipartSpec.Then(done, step);
        if !valid {
          if step.started {
            MultipartSpec.NeverRestarts(d, step.phase, bytes[i..]);
          }
          assert !rest.started && whole.started == done.started;
          assert sink.log == before + if whole.started then [Start] else [];
          FedHead(sink.accepts, before, whole, false);
        }
      }
      if valid {
        MultipartSpec.ConsumeNothing(d, Phase());
        assert bytes[i..] == [] && whole == done;
        FedHead(sink.accepts, before, done, true);
      } else {
        state := Error;
      }
      return valid;
    }

    /** Ends the body: accepted exactly once, in an acceptable phase, if the sink agrees. */
    method Finish(sink: Sink) returns (ok: bool)
      requires Valid()
      modifies this, sink
      ensures Valid() && boundary == old(boundary)
      ensures var f := if old(endEmitted) then None else MultipartSpec.Finish(old(Phase()));
              && (ok <==> f.Some? && sink.accepts(old(sink.log), End))
              && sink.log == old(sink.log) + (if f.Some? then [End] else [])
              && Phase() == (if ok then MultipartSpec.Done(f.value) else MultipartSpec.Failed)
              && (ok ==> filename == f.value && endEmitted)
    {
      if endEmitted || !(state == Done || (state == Closing && closeTail == 0)) {
        state := Error;
        return false;
      }
      state := Done;
      endEmitted := true;
      ok := sink.Call(End);
      if !ok {
        state := Error;
      }
    }
  }

  lemma StartsOnce(d: Delimiters, p: Phase, a: seq<octet>, b: seq<octet>)
    ensures var r := MultipartSpec.Consume(d, p, a);
            var s := MultipartSpec.Consume(d, r.phase, b);
            s.started ==> !r.started && r.data == []
  {
    hide MultipartSpec.Consume;
    var r := MultipartSpec.Consume(d, p, a);
    if r.phase.Opening? || r.phase.Headers? {
      MultipartSpec.SilentBeforeData(d, p, a);
    } else {
      MultipartSpec.NeverRestarts(d, r.phase, b);
    }
  }

  /** The body as the receive loop delivers it: one Feed per read, then Finish. Whatever the
      pieces are, the verdict, the payload and the file name depend on the body alone. */
  method ReceiveBody(parser: DoserMultipartFirmwareParser, boundary: seq<octet>, pieces: seq<seq<octet>>, sink: Sink)
      returns (ok: bool)
    requires parser.Valid() && sink.log == []
    requires 1 <= |boundary| <= MultipartSpec.MAX_BOUNDARY
    modifies parser, parser.headers, parser.carry, sink
    ensures var r := MultipartSpec.Consume(MultipartSpec.Delimiters(boundary), MultipartSpec.Opening(0),
                                           MultipartSpec.Flatten(pieces));
            var f := MultipartSpec.Finish(r.phase);
            && (ok <==> f.Some? && Accepted(sink.accepts, sink.log, 0))
            && StopsAtRefusal(sink.accepts, sink.log, 0)
            && Payload(sink.log) <= r.data
            && (ok ==> Payload(sink.log) == r.data && parser.filename == f.value)
            && (ok ==> |sink.log| >= 2 && sink.log[0] == Start && sink.log[|sink.log| - 1] == End
                       && BoundedChunks(sink.log[..|sink.log| - 1], 1))
  {
    hide MultipartSpec.Consume, Payload;
    ghost var d := MultipartSpec.Delimiters(boundary);
    ghost var p := MultipartSpec.Opening(0);
    ghost var accepts := sink.accepts;
    var begun := parser.Begin(boundary);
    ghost var done := MultipartSpec.Progress(p, false, []);
    MultipartSpec.ConsumeNothing(d, p);
    FedNothing(accepts, [], p);
    for i := 0 to |pieces|
      invariant parser.Valid() && parser.boundary == boundary && !parser.endEmitted
      invariant done == MultipartSpec.Consume(d, p, MultipartSpec.Flatten(pieces[..i]))
                && done.phase == parser.Phase() && !done.phase.Failed?
      invariant Fed(accepts, [], sink.log, done, true)
    {
      ghost var mid := sink.log;
      ghost var step := MultipartSpec.Consume(d, parser.Phase(), pieces[i]);
      assert pieces[..i + 1][..i] == pieces[..i];
      MultipartSpec.ConsumeConcat(d, p, MultipartSpec.Flatten(pieces[..i]), pieces[i]);
      StartsOnce(d, p, MultipartSpec.Flatten(pieces[..i]), pieces[i]);
      ok := parser.Feed(pieces[i], sink);
      FedAfter(accepts, [], mid, sink.log, done, step, ok);
      done := MultipartSpec.Then(done, step);
      if !ok {
        MultipartSpec.FlattenSplit(pieces, i + 1);
        MultipartSpec.ConsumeConcat(d, p, MultipartSpec.Flatten(pieces[..i + 1]),
                                    MultipartSpec.Flatten(pieces[i + 1..]));
        MultipartSpec.ConsumeFailed(d, MultipartSpec.Flatten(pieces[i + 1..]));
        FedCut(accepts, sink.log, done, MultipartSpec.Consume(d, done.phase, MultipartSpec.Flatten(pieces[i + 1..])));
        return;
      }
    }
    assert pieces[..|pieces|] == pieces;
    ghost var log := sink.log;
    ok := parser.Finish(sink);
    if MultipartSpec.Finish(done.phase).Some? {
      MultipartSpec.FinishStarted(d, MultipartSpec.Flatten(pieces));
      FedFinished(accepts, log, done);
    } else {
      assert sink.log == log;
      FedUnfinished(accepts, log, done);
    }
  }
}
