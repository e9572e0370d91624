/** The one-file multipart body of /update, twice: as a byte-at-a-time automaton, and as
    a closed grammar. The two are proved to accept the same bodies with the same payload. */
module MultipartSpec {
  import opened Octets
  import opened MultipartHeaders

  const MAX_BOUNDARY: nat := 70
  const FRAMING: nat := 664

  datatype Delimiters = Delimiters(boundary: seq<octet>) {
    function Opening(): (r: seq<octet>) ensures |r| == |boundary| + 4 && r[0] == 45 {
      [45, 45] + boundary + CRLF
    }
    function Closing(): (r: seq<octet>) ensures |r| == |boundary| + 6 && r[0] == CR && r[1] == LF {
      CRLF + [45, 45] + boundary + [45, 45]
    }
    function NextPart(): (r: seq<octet>) ensures |r| == |boundary| + 6 && r[0] == CR && r[1] == LF {
      CRLF + [45, 45] + boundary + CRLF
    }
    /** CRLF "--" boundary, the common head of the closing and the next-part delimiter. */
    function Line(): (r: seq<octet>) ensures |r| == |boundary| + 4 && r[0] == CR {
      CRLF + [45, 45] + boundary
    }
    /** A complete delimiter, closing or next-part, starts `text`. */
    predicate Hit(text: seq<octet>) {
      Closing() <= text || NextPart() <= text
    }
    /** `text` starts with a delimiter, or could still grow into one. */
    predicate Compatible(text: seq<octet>) {
      Hit(text) || text <= Closing() || text <= NextPart()
    }
    /** `text` is a proper, possibly empty, head of a delimiter: what the carry may hold. */
    predicate Partial(text: seq<octet>) {
      (text <= Closing() || text <= NextPart()) && |text| < |boundary| + 6
    }
  }

  datatype Phase =
    | Opening(position: nat)
    | Headers(block: seq<octet>)
    | Data(filename: seq<octet>, carry: seq<octet>)
    | Closing(filename: seq<octet>, tail: nat)
    | Done(filename: seq<octet>)
    | Failed

  /** What consuming some bytes did: the phase reached, whether the data started, and the
      payload bytes set free. */
  datatype Progress = Progress(phase: Phase, started: bool, data: seq<octet>)

  /** The phases the automaton can be in. */
  predicate Reachable(d: Delimiters, p: Phase) {
    match p
    case Opening(n) => n < |d.Opening()|
    case Headers(h) => |h| <= MAX_BLOCK && PairedLineEnds(h) && forall k :: 0 <= k <= |h| ==> !EndsHeaders(h[..k])
    case Data(_, carry) => d.Partial(carry)
    case Closing(_, tail) => tail <= 1
    case _ => true
  }

  /** The first index from `from` on at which the rest of `text` is compatible with a delimiter. */
  function FirstCompatible(d: Delimiters, text: seq<octet>, from: nat): (k: nat)
    requires from <= |text|
    ensures from <= k <= |text|
    ensures d.Compatible(text[k..])
    ensures forall i :: from <= i < k ==> !d.Compatible(text[i..])
    decreases |text| - from
  {
    if from == |text| || d.Compatible(text[from..]) then from else FirstCompatible(d, text, from + 1)
  }

  function HeaderStep(h: seq<octet>, c: octet): Progress {
    if |h| >= MAX_BLOCK then Progress(Failed, false, [])
    else if c == LF && (|h| == 0 || h[|h| - 1] != CR) then Progress(Failed, false, [])
    else if |h| != 0 && h[|h| - 1] == CR && c != LF then Progress(Failed, false, [])
    else if EndsHeaders(h + [c]) then
      match ParseBlock(h + [c])
      case Some(f) => Progress(Data(f, []), true, [])
      case None => Progress(Failed, false, [])
    else Progress(Headers(h + [c]), false, [])
  }

  /** What a stretch `text` of data, carry included, means: payload up to the first place
      a delimiter could start, then the delimiter if it is complete. */
  function DataScan(d: Delimiters, filename: seq<octet>, text: seq<octet>): Progress {
    var k := FirstCompatible(d, text, 0);
    if d.Closing() <= text[k..] then Progress(Closing(filename, 0), false, text[..k])
    else if d.NextPart() <= text[k..] then Progress(Failed, false, text[..k])
    else Progress(Data(filename, text[k..]), false, text[..k])
  }

  function Step(d: Delimiters, p: Phase, c: octet): Progress {
    match p
    case Opening(n) =>
      if n >= |d.Opening()| || c != d.Opening()[n] then Progress(Failed, false, [])
      else Progress(if n + 1 == |d.Opening()| then Headers([]) else Opening(n + 1), false, [])
    case Headers(h) => HeaderStep(h, c)
    case Data(f, carry) => DataScan(d, f, carry + [c])
    case Closing(f, tail) =>
      if c != (if tail == 0 then CR else LF) then Progress(Failed, false, [])
      else Progress(if tail == 1 then Done(f) else Closing(f, tail + 1), false, [])
    case Done(_) => Progress(Failed, false, [])
    case Failed => Progress(Failed, false, [])
  }

  function Then(a: Progress, b: Progress): Progress {
    Progress(b.phase, a.started || b.started, a.data + b.data)
  }

  /** The automaton run over `text`. */
  function Consume(d: Delimiters, p: Phase, text: seq<octet>): Progress
    decreases |text|
  {
    if text == [] then Progress(p, false, [])
    else
      var a := Step(d, p, text[0]);
      Then(a, Consume(d, a.phase, text[1..]))
  }

  /** The file name, if the body may end in phase `p`. */
  function Finish(p: Phase): Option<seq<octet>> {
    match p
    case Done(f) => Some(f)
    case Closing(f, tail) => if tail == 0 then Some(f) else None
    case _ => None
  }

  /** `body` is accepted with this file name and payload. */
  predicate Parses(d: Delimiters, body: seq<octet>, filename: seq<octet>, payload: seq<octet>) {
    var r := Consume(d, Opening(0), body);
    Finish(r.phase) == Some(filename) && r.data == payload
  }

  // ------------------------------------------------------------ running the automaton in pieces

  lemma {:induction false} ConsumeConcat(d: Delimiters, p: Phase, a: seq<octet>, b: seq<octet>)
    ensures Consume(d, p, a + b) == Then(Consume(d, p, a), Consume(d, Consume(d, p, a).phase, b))
    decreases |a|
  {
    hide Step;
    if a == [] {
      assert a + b == b;
    } else {
      var s := Step(d, p, a[0]);
      assert (a + b)[0] == a[0] && (a + b)[1..] == a[1..] + b;
      ConsumeConcat(d, s.phase, a[1..], b);
    }
  }

  lemma {:induction false} ConsumeFailed(d: Delimiters, text: seq<octet>)
    ensures Consume(d, Failed, text) == Progress(Failed, false, [])
    decreases |text|
  {
    if text != [] {
      ConsumeFailed(d, text[1..]);
    }
  }

  lemma ConsumeNothing(d: Delimiters, p: Phase)
    ensures Consume(d, p, []) == Progress(p, false, [])
  {
  }

  lemma StepDone(d: Delimiters, p: Phase, c: octet)
    requires p.Done?
    ensures Step(d, p, c) == Progress(Failed, false, [])
  {
  }

  lemma ConsumeCons(d: Delimiters, p: Phase, text: seq<octet>)
    requires text != []
    ensures var a := Step(d, p, text[0]); Consume(d, p, text) == Then(a, Consume(d, a.phase, text[1..]))
  {
  }

  /** The data starts at most once: never again once it has started. */
  lemma {:induction false} NeverRestarts(d: Delimiters, p: Phase, text: seq<octet>)
    requires !p.Opening? && !p.Headers?
    ensures var r := Consume(d, p, text); !r.started && !r.phase.Opening? && !r.phase.Headers?
    decreases |text|
  {
    if text != [] {
      NeverRestarts(d, Step(d, p, text[0]).phase, text[1..]);
    }
  }

  /** Nothing is delivered before the data starts. */
  lemma {:induction false} SilentBeforeData(d: Delimiters, p: Phase, text: seq<octet>)
    requires var q := Consume(d, p, text).phase; q.Opening? || q.Headers?
    ensures var r := Consume(d, p, text); !r.started && r.data == []
    decreases |text|
  {
    if text != [] {
      var a := Step(d, p, text[0]);
      SilentBeforeData(d, a.phase, text[1..]);
      if !a.phase.Opening? && !a.phase.Headers? {
        NeverRestarts(d, a.phase, text[1..]);
      }
    }
  }

  lemma {:induction false} SilentUntilStart(d: Delimiters, p: Phase, text: seq<octet>)
    requires p.Opening? || p.Headers? || p.Failed?
    ensures var r := Consume(d, p, text);
            !r.started ==> r.data == [] && (r.phase.Opening? || r.phase.Headers? || r.phase.Failed?)
    decreases |text|
  {
    if text != [] {
      var a := Step(d, p, text[0]);
      if !a.started {
        SilentUntilStart(d, a.phase, text[1..]);
      }
    }
  }

  // ------------------------------------------------------------ independence of the chunks

  function Flatten(chunks: seq<seq<octet>>): seq<octet> {
    if chunks == [] then [] else Flatten(chunks[..|chunks| - 1]) + chunks[|chunks| - 1]
  }

  lemma {:induction false} FlattenSplit(chunks: seq<seq<octet>>, k: nat)
    requires k <= |chunks|
    ensures Flatten(chunks) == Flatten(chunks[..k]) + Flatten(chunks[k..])
    decreases |chunks|
  {
    if k == |chunks| {
      assert chunks[..k] == chunks && chunks[k..] == [];
    } else {
      var most := chunks[..|chunks| - 1];
      FlattenSplit(most, k);
      assert most[..k] == chunks[..k];
      assert chunks[k..][..|chunks[k..]| - 1] == most[k..];
    }
  }

  /** The automaton run chunk by chunk, each chunk from the phase the previous one left. */
  function ConsumeChunks(d: Delimiters, p: Phase, chunks: seq<seq<octet>>): Progress {
    if chunks == [] then Progress(p, false, [])
    else
      var a := ConsumeChunks(d, p, chunks[..|chunks| - 1]);
      Then(a, Consume(d, a.phase, chunks[|chunks| - 1]))
  }

  lemma {:induction false} ChunksAreBody(d: Delimiters, p: Phase, chunks: seq<seq<octet>>)
    ensures ConsumeChunks(d, p, chunks) == Consume(d, p, Flatten(chunks))
    decreases |chunks|
  {
    hide Step, Consume;
    if chunks == [] {
      ConsumeNothing(d, p);
    } else {
      var most := chunks[..|chunks| - 1];
      ChunksAreBody(d, p, most);
      ConsumeConcat(d, p, Flatten(most), chunks[|chunks| - 1]);
    }
  }

  /** Two ways of cutting the same body give the same phase, start and payload. */
  lemma ChunkIndependence(d: Delimiters, p: Phase, a: seq<seq<octet>>, b: seq<seq<octet>>)
    requires Flatten(a) == Flatten(b)
    ensures ConsumeChunks(d, p, a) == ConsumeChunks(d, p, b)
  {
    ChunksAreBody(d, p, a);
    ChunksAreBody(d, p, b);
  }

  // ------------------------------------------------------------ the opening delimiter

  lemma {:induction false} ConsumeOpening(d: Delimiters, n: nat, text: seq<octet>)
    requires n < |d.Opening()| && |text| <= |d.Opening()| - n
    ensures Consume(d, Opening(n), text) ==
            if text == d.Opening()[n..n + |text|] then
              Progress(if n + |text| == |d.Opening()| then Headers([]) else Opening(n + |text|), false, [])
            else Progress(Failed, false, [])
    decreases |text|
  {
    var o := d.Opening();
    if text != [] {
      if text[0] != o[n] {
        ConsumeFailed(d, text[1..]);
        assert text[0] != o[n..n + |text|][0];
      } else if |text| > 1 {
        ConsumeOpening(d, n + 1, text[1..]);
        assert o[n + 1..n + |text|] == o[n..n + |text|][1..];
        assert text == [text[0]] + text[1..];
        assert o[n..n + |text|] == [o[n]] + o[n + 1..n + |text|];
      } else {
        assert text == [text[0]] && o[n..n + 1] == [o[n]];
      }
    }
  }

  // ------------------------------------------------------------ the header block

  lemma PairedStep(h: seq<octet>, c: octet)
    requires PairedLineEnds(h)
    requires c == LF <==> h != [] && h[|h| - 1] == CR
    ensures PairedLineEnds(h + [c])
  {
  }

  lemma HeaderStepReachable(d: Delimiters, h: seq<octet>, c: octet)
    requires Reachable(d, Headers(h))
    ensures Reachable(d, HeaderStep(h, c).phase)
  {
    if HeaderStep(h, c).phase.Headers? {
      var g := h + [c];
      forall k | 0 <= k <= |g| ensures !EndsHeaders(g[..k]) {
        if k <= |h| {
          assert g[..k] == h[..k];
        } else {
          assert g[..k] == g;
        }
      }
      PairedStep(h, c);
    }
  }

  /** One byte of an accepted block: the last one starts the data, the others only extend it. */
  lemma BlockStep(d: Delimiters, h: seq<octet>, c: octet, more: seq<octet>, filename: seq<octet>)
    requires Reachable(d, Headers(h))
    requires HeaderBlock(h + [c] + more, filename)
    ensures HeaderStep(h, c) == if more == [] then Progress(Data(filename, []), true, [])
                                else Progress(Headers(h + [c]), false, [])
  {
    hide ParseBlock, EndsHeaders;
    var block, g := h + [c] + more, h + [c];
    assert g == block[..|g|] && c == block[|h|];
    assert h != [] ==> h[|h| - 1] == block[|h| - 1];
    if more == [] {
      assert g == block;
    } else {
      assert !EndsHeaders(block[..|g|]);
    }
  }

  /** From a partial block `h`, the bytes `rest` complete an accepted block exactly when
      the automaton reaches the start of the data on them. */
  lemma {:induction false} ConsumeBlock(d: Delimiters, h: seq<octet>, rest: seq<octet>, filename: seq<octet>)
    requires Reachable(d, Headers(h))
    requires HeaderBlock(h + rest, filename)
    ensures Consume(d, Headers(h), rest) == Progress(Data(filename, []), true, [])
    decreases |rest|
  {
    hide HeaderStep, HeaderBlock, Reachable;
    if rest == [] {
      assert h + rest == h;
      BlockIsNotPartial(d, h, filename);
    } else {
      var c, more := rest[0], rest[1..];
      assert h + rest == h + [c] + more;
      BlockStep(d, h, c, more, filename);
      HeaderStepReachable(d, h, c);
      if more != [] {
        ConsumeBlock(d, h + [c], more, filename);
      }
    }
  }

  lemma BlockIsNotPartial(d: Delimiters, h: seq<octet>, filename: seq<octet>)
    requires Reachable(d, Headers(h))
    ensures !HeaderBlock(h, filename)
  {
    assert h[..|h|] == h;
  }

  /** The only way out of the headers without failing is an accepted block. */
  lemma LeaveStep(d: Delimiters, h: seq<octet>, c: octet)
    requires Reachable(d, Headers(h))
    requires var p := HeaderStep(h, c).phase; !p.Headers? && !p.Failed?
    ensures var s := HeaderStep(h, c);
            && s.phase.Data? && s == Progress(Data(s.phase.filename, []), true, [])
            && HeaderBlock(h + [c], s.phase.filename)
  {
    hide ParseBlock, PairedLineEnds, EndsHeaders;
    var g := h + [c];
    forall i | 0 <= i < |g| ensures !EndsHeaders(g[..i]) {
      assert g[..i] == h[..i];
    }
    PairedStep(h, c);
  }

  /** If the automaton leaves the headers without failing, it did so on an accepted block. */
  lemma {:induction false} LeaveBlock(d: Delimiters, h: seq<octet>, text: seq<octet>)
    returns (k: nat, filename: seq<octet>)
    requires Reachable(d, Headers(h))
    requires var p := Consume(d, Headers(h), text).phase; !p.Headers? && !p.Failed?
    ensures k <= |text| && HeaderBlock(h + text[..k], filename)
    ensures Consume(d, Headers(h), text) ==
            Then(Progress(Data(filename, []), true, []), Consume(d, Data(filename, []), text[k..]))
    decreases |text|
  {
    hide HeaderStep, HeaderBlock, Reachable, Consume;
    ConsumeHeader(d, h, text);
    var c := text[0];
    var s := HeaderStep(h, c);
    ConsumeFailed(d, text[1..]);
    HeaderStepSilent(h, c);
    if s.phase.Headers? {
      HeaderStepReachable(d, h, c);
      var j, f := LeaveBlock(d, h + [c], text[1..]);
      k, filename := j + 1, f;
      TakeOneMore(h, text, j);
      var rest := Consume(d, Headers(h + [c]), text[1..]);
      assert [] + rest.data == rest.data;
    } else {
      LeaveStep(d, h, c);
      k, filename := 1, s.phase.filename;
      assert text[..1] == [c];
    }
  }

  lemma ConsumeHeader(d: Delimiters, h: seq<octet>, text: seq<octet>)
    ensures text == [] ==> Consume(d, Headers(h), text).phase == Headers(h)
    ensures text != [] ==>
              Consume(d, Headers(h), text) ==
              Then(HeaderStep(h, text[0]), Consume(d, HeaderStep(h, text[0]).phase, text[1..]))
  {
    hide HeaderStep;
  }

  lemma TakeOneMore<T>(h: seq<T>, text: seq<T>, j: nat)
    requires text != [] && j < |text|
    ensures h + [text[0]] + text[1..][..j] == h + text[..j + 1] && text[1..][j..] == text[j + 1..]
  {
  }

  lemma HeaderStepSilent(h: seq<octet>, c: octet)
    ensures var s := HeaderStep(h, c);
            s.phase.Headers? ==> s == Progress(Headers(h + [c]), false, [])
  {
    hide ParseBlock, EndsHeaders;
  }

  // ------------------------------------------------------------ the data

  lemma IncompatibleExtends(d: Delimiters, text: seq<octet>, more: seq<octet>)
    requires !d.Compatible(text)
    ensures !d.Compatible(text + more)
  {
    PrefixesOfOne(d.Closing(), text, more);
    PrefixesOfOne(d.NextPart(), text, more);
  }

  lemma PrefixesOfOne(pattern: seq<octet>, text: seq<octet>, more: seq<octet>)
    ensures pattern <= text + more || text + more <= pattern ==> pattern <= text || text <= pattern
  {
    assert (text + more)[..|text|] == text;
  }

  lemma FirstCompatibleUnique(d: Delimiters, text: seq<octet>, from: nat, k: nat)
    requires from <= k <= |text| && d.Compatible(text[k..])
    requires forall i :: from <= i < k ==> !d.Compatible(text[i..])
    ensures FirstCompatible(d, text, from) == k
  {
  }

  /** Scanning `text + more` first passes every place that scanning `text` rules out. */
  lemma FirstCompatibleExtends(d: Delimiters, text: seq<octet>, more: seq<octet>)
    ensures var k := FirstCompatible(d, text, 0);
            FirstCompatible(d, text + more, 0) == k + FirstCompatible(d, text[k..] + more, 0)
  {
    hide Delimiters.Compatible;
    var k := FirstCompatible(d, text, 0);
    var rest := text[k..] + more;
    var j := FirstCompatible(d, rest, 0);
    var w := text + more;
    forall i | 0 <= i < k + j ensures !d.Compatible(w[i..]) {
      if i < k {
        IncompatibleExtends(d, text[i..], more);
        assert w[i..] == text[i..] + more;
      } else {
        SplitAt(text, more, k, i - k);
      }
    }
    SplitAt(text, more, k, j);
    FirstCompatibleUnique(d, w, 0, k + j);
  }

  lemma HitExtends(d: Delimiters, text: seq<octet>, more: seq<octet>)
    requires d.Hit(text)
    ensures d.Compatible(text + more) && FirstCompatible(d, text + more, 0) == 0
    ensures d.Closing() <= text <==> d.Closing() <= text + more
    ensures d.NextPart() <= text <==> d.NextPart() <= text + more
  {
    var w := text + more;
    assert w[..|text|] == text;
    assert w[0..] == w;
    if d.Closing() <= text { assert d.Closing() <= w; }
    if d.NextPart() <= text { assert d.NextPart() <= w; }
    FirstCompatibleUnique(d, w, 0, 0);
  }

  /** The closing and the next-part delimiter differ after their common head. */
  lemma DelimitersDiffer(d: Delimiters, text: seq<octet>)
    ensures !(d.Closing() <= text && d.NextPart() <= text)
  {
    assert d.Closing()[|d.boundary| + 4] == 45;
    assert d.NextPart()[|d.boundary| + 4] == CR;
  }

  lemma PartialIsFirst(d: Delimiters, carry: seq<octet>)
    requires d.Partial(carry)
    ensures FirstCompatible(d, carry, 0) == 0 && !d.Hit(carry)
  {
    assert carry[0..] == carry;
    FirstCompatibleUnique(d, carry, 0, 0);
  }

  lemma DataScanReachable(d: Delimiters, filename: seq<octet>, text: seq<octet>)
    ensures Reachable(d, DataScan(d, filename, text).phase)
  {
    var k := FirstCompatible(d, text, 0);
    if !d.Hit(text[k..]) && |text[k..]| >= |d.boundary| + 6 {
      CompatibleIsHit(d, text[k..]);
    }
  }

  /** What scanning `w` as one stretch means, when `tail` is what its closing delimiter leaves. */
  function Scanned(d: Delimiters, filename: seq<octet>, w: seq<octet>): Progress {
    var k := FirstCompatible(d, w, 0);
    if d.Closing() <= w[k..] then
      Then(Progress(Closing(filename, 0), false, w[..k]), Consume(d, Closing(filename, 0), w[k + |d.Closing()|..]))
    else DataScan(d, filename, w)
  }

  /** Scanning a longer text whose first part `pre` is ruled out is scanning the rest. */
  lemma ScanRest(d: Delimiters, filename: seq<octet>, w: seq<octet>, rest: seq<octet>, pre: seq<octet>,
                 carry: seq<octet>)
    requires FirstCompatible(d, w, 0) == |pre| + FirstCompatible(d, rest, 0)
    requires var i := FirstCompatible(d, rest, 0);
             w[|pre| + i..] == rest[i..] && w[..|pre| + i] == pre + rest[..i]
    requires var i := FirstCompatible(d, rest, 0);
             d.Closing() <= rest[i..] ==> w[|pre| + i + |d.Closing()|..] == rest[i + |d.Closing()|..]
    ensures Scanned(d, filename, w) == Then(Progress(Data(filename, carry), false, pre), Scanned(d, filename, rest))
  {
    hide Delimiters.Compatible, Delimiters.Closing, Delimiters.NextPart, Consume, FirstCompatible;
    var i := FirstCompatible(d, rest, 0);
    if d.Closing() <= rest[i..] {
      ThenAssociates(Progress(Data(filename, carry), false, pre), Progress(Closing(filename, 0), false, rest[..i]),
                     Consume(d, Closing(filename, 0), rest[i + |d.Closing()|..]));
    }
  }

  /** A stretch without a complete delimiter can be replaced by its payload and its carry. */
  lemma AppendScan(d: Delimiters, filename: seq<octet>, v: seq<octet>, more: seq<octet>)
    ensures var j := FirstCompatible(d, v, 0);
            Scanned(d, filename, v + more) ==
            Then(Progress(Data(filename, v[j..]), false, v[..j]), Scanned(d, filename, v[j..] + more))
  {
    hide Delimiters.Compatible, Delimiters.Closing, Delimiters.NextPart, Consume, FirstCompatible, Scanned;
    var j := FirstCompatible(d, v, 0);
    var rest := v[j..] + more;
    FirstCompatibleExtends(d, v, more);
    var i := FirstCompatible(d, rest, 0);
    SplitAt(v, more, j, i);
    if d.Closing() <= rest[i..] {
      SplitAt(v, more, j, i + |d.Closing()|);
    }
    ScanRest(d, filename, v + more, rest, v[..j], v[j..]);
  }

  lemma ThenAssociates(a: Progress, b: Progress, c: Progress)
    ensures Then(Then(a, b), c) == Then(a, Then(b, c))
  {
  }

  lemma SplitAt<T>(v: seq<T>, more: seq<T>, j: nat, i: nat)
    requires j <= |v| && i <= |v| - j + |more|
    ensures (v + more)[j + i..] == (v[j..] + more)[i..]
    ensures (v + more)[..j + i] == v[..j] + (v[j..] + more)[..i]
  {
    assert v + more == v[..j] + (v[j..] + more);
  }

  /** The byte that completes a delimiter completes it at the start of the carry. */
  lemma ConsumeHit(d: Delimiters, filename: seq<octet>, carry: seq<octet>, text: seq<octet>)
    requires d.Partial(carry) && text != []
    requires var v := carry + [text[0]]; d.Hit(v[FirstCompatible(d, v, 0)..])
    ensures Consume(d, Data(filename, carry), text) == Scanned(d, filename, carry + text)
  {
    hide Step, Delimiters.Compatible, Delimiters.Closing, Delimiters.NextPart;
    var v := carry + [text[0]];
    var more := text[1..];
    var w := carry + text;
    assert w == v + more;
    var j := FirstCompatible(d, v, 0);
    assert |v[j..]| >= |d.boundary| + 6 && |carry| < |d.boundary| + 6;
    assert j == 0 && |v| == |d.boundary| + 6;
    assert v[0..] == v && w[0..] == w && w[..0] == v[..0] == [];
    HitExtends(d, v, more);
    DelimitersDiffer(d, v);
    StepData(d, filename, carry, text[0]);
    assert w[|d.Closing()|..] == more;
    if !(d.Closing() <= v) {
      ConsumeFailed(d, more);
    }
  }

  /** Whole-chunk scanning refines the byte-at-a-time automaton: from carry `carry`, the
      chunk `text` is scanned as `carry + text` in one go, and what follows a closing
      delimiter is the tail. */
  lemma {:induction false} ConsumeData(d: Delimiters, filename: seq<octet>, carry: seq<octet>, text: seq<octet>)
    requires d.Partial(carry)
    ensures Consume(d, Data(filename, carry), text) == Scanned(d, filename, carry + text)
    decreases |text|
  {
    var w := carry + text;
    hide Step, Delimiters.Compatible, Delimiters.Closing, Delimiters.NextPart;
    if text == [] {
      assert w == carry;
      PartialIsFirst(d, carry);
      assert w[0..] == carry && w[..0] == [];
    } else {
      var v := carry + [text[0]];
      var more := text[1..];
      var j := FirstCompatible(d, v, 0);
      assert w == v + more;
      StepData(d, filename, carry, text[0]);
      FirstCompatibleExtends(d, v, more);
      DataScanReachable(d, filename, v);
      if d.Hit(v[j..]) {
        ConsumeHit(d, filename, carry, text);
      } else {
        ConsumeData(d, filename, v[j..], more);
        AppendScan(d, filename, v, more);
      }
    }
  }

  lemma StepData(d: Delimiters, filename: seq<octet>, carry: seq<octet>, c: octet)
    ensures Step(d, Data(filename, carry), c) == DataScan(d, filename, carry + [c])
  {
  }

  /** The data ends where the first compatible place is a complete closing delimiter. */
  lemma ConsumeClosing(d: Delimiters, filename: seq<octet>, carry: seq<octet>, text: seq<octet>, i: nat)
    requires d.Partial(carry) && i + |d.Closing()| <= |carry + text|
    requires d.Closing() <= (carry + text)[i..]
    requires forall k :: 0 <= k < i ==> !d.Compatible((carry + text)[k..])
    ensures i + |d.Closing()| >= |carry|
    ensures Consume(d, Data(filename, carry), text) ==
            Then(Progress(Closing(filename, 0), false, (carry + text)[..i]),
                 Consume(d, Closing(filename, 0), text[i + |d.Closing()| - |carry|..]))
  {
    hide Step, Consume;
    var w := carry + text;
    ConsumeData(d, filename, carry, text);
    FirstCompatibleUnique(d, w, 0, i);
    assert w[i + |d.Closing()|..] == text[i + |d.Closing()| - |carry|..];
  }

  /** Without a complete delimiter the scan keeps, as carry, what starts at the first
      compatible place. */
  lemma ScanCarry(d: Delimiters, filename: seq<octet>, w: seq<octet>, i: nat)
    requires i <= |w| && d.Compatible(w[i..]) && !d.Hit(w[i..])
    requires forall k :: 0 <= k < i ==> !d.Compatible(w[k..])
    ensures Scanned(d, filename, w) == Progress(Data(filename, w[i..]), false, w[..i])
  {
    FirstCompatibleUnique(d, w, 0, i);
  }

  lemma ScanNextPart(d: Delimiters, filename: seq<octet>, w: seq<octet>, i: nat)
    requires i <= |w| && d.NextPart() <= w[i..]
    requires forall k :: 0 <= k < i ==> !d.Compatible(w[k..])
    ensures Scanned(d, filename, w) == Progress(Failed, false, w[..i])
  {
    FirstCompatibleUnique(d, w, 0, i);
    DelimitersDiffer(d, w[i..]);
  }

  /** The automaton only ever reaches reachable phases. */
  lemma {:induction false} ConsumeReachable(d: Delimiters, p: Phase, text: seq<octet>)
    requires Reachable(d, p)
    ensures Reachable(d, Consume(d, p, text).phase)
    decreases |text|
  {
    hide Reachable;
    if text != [] {
      StepReachable(d, p, text[0]);
      ConsumeReachable(d, Step(d, p, text[0]).phase, text[1..]);
    }
  }

  lemma StepReachable(d: Delimiters, p: Phase, c: octet)
    requires Reachable(d, p)
    ensures Reachable(d, Step(d, p, c).phase)
  {
    hide ParseBlock, Delimiters.Partial, FirstCompatible, PairedLineEnds, EndsHeaders;
    match p
    case Headers(h) => HeaderStepReachable(d, h, c);
    case Data(f, carry) => DataScanReachable(d, f, carry + [c]);
    case Opening(n) => EmptyHeaders(d);
    case _ =>
  }

  lemma EmptyHeaders(d: Delimiters)
    ensures Reachable(d, Headers([]))
  {
  }

  // ------------------------------------------------------------ the end of the body

  lemma TailStep(d: Delimiters, filename: seq<octet>, tail: nat, c: octet)
    requires tail <= 1
    ensures Step(d, Closing(filename, tail), c) ==
            Progress(if c != CRLF[tail] then Failed else if tail == 1 then Done(filename)
                     else Closing(filename, 1), false, [])
  {
  }

  lemma ConsumeTail(d: Delimiters, filename: seq<octet>, text: seq<octet>)
    ensures var r := Consume(d, Closing(filename, 0), text);
            && r.data == [] && !r.started
            && (Finish(r.phase).Some? <==> text == [] || text == CRLF)
            && (Finish(r.phase).Some? ==> Finish(r.phase) == Some(filename))
  {
    hide Step, Consume;
    if text == [] {
      ConsumeNothing(d, Closing(filename, 0));
    } else {
      TailStep(d, filename, 0, text[0]);
      ConsumeCons(d, Closing(filename, 0), text);
      ConsumeFailed(d, text[1..]);
      if text[0] == CR {
        AfterCr(d, filename, text[1..]);
        assert text == [CR] + text[1..];
        assert text[1..] == [LF] <==> text == CRLF;
      }
    }
  }

  lemma AfterCr(d: Delimiters, filename: seq<octet>, text: seq<octet>)
    ensures var r := Consume(d, Closing(filename, 1), text);
            && r.data == [] && !r.started
            && (Finish(r.phase).Some? <==> text == [LF])
            && (Finish(r.phase).Some? ==> Finish(r.phase) == Some(filename))
  {
    hide Step, Consume;
    if text == [] {
      ConsumeNothing(d, Closing(filename, 1));
    } else {
      var rest := text[1..];
      TailStep(d, filename, 1, text[0]);
      ConsumeCons(d, Closing(filename, 1), text);
      ConsumeFailed(d, rest);
      assert text == [text[0]] + rest;
      if rest == [] {
        ConsumeNothing(d, Done(filename));
      } else {
        StepDone(d, Done(filename), rest[0]);
        ConsumeCons(d, Done(filename), rest);
        ConsumeFailed(d, rest[1..]);
      }
    }
  }

  /** A body that may end has started its data. */
  lemma FinishStarted(d: Delimiters, body: seq<octet>)
    requires Finish(Consume(d, Opening(0), body).phase).Some?
    ensures Consume(d, Opening(0), body).started
  {
    hide Step, Consume;
    StartsWithOpening(d, body);
    var k, f := LeaveBlock(d, [], body[|d.Opening()|..]);
  }

  // ------------------------------------------------------------ the grammar of accepted bodies

  /** No delimiter, closing or next-part, starts before the end of `payload` when the
      closing delimiter follows it. */
  predicate NoEarlierDelimiter(d: Delimiters, payload: seq<octet>) {
    forall k :: 0 <= k < |payload| ==> !d.Hit((payload + d.Closing())[k..])
  }

  /** Opening delimiter, accepted header block, payload, closing delimiter, optional CRLF. */
  ghost predicate Framed(d: Delimiters, body: seq<octet>, block: seq<octet>, filename: seq<octet>,
                         payload: seq<octet>, tail: seq<octet>) {
    && body == d.Opening() + block + payload + d.Closing() + tail
    && (tail == [] || tail == CRLF)
    && HeaderBlock(block, filename)
    && NoEarlierDelimiter(d, payload)
  }

  lemma HitWithin(d: Delimiters, text: seq<octet>, more: seq<octet>)
    requires |text| >= |d.boundary| + 6
    ensures d.Hit(text + more) <==> d.Hit(text)
  {
    var w := text + more;
    assert w[..|text|] == text;
    if d.Closing() <= w { assert d.Closing() <= text; }
    if d.NextPart() <= w { assert d.NextPart() <= text; }
    if d.Closing() <= text { assert d.Closing() <= w; }
    if d.NextPart() <= text { assert d.NextPart() <= w; }
  }

  /** Within text at least as long as a delimiter, compatible means hit. */
  lemma CompatibleIsHit(d: Delimiters, text: seq<octet>)
    requires |text| >= |d.boundary| + 6
    ensures d.Compatible(text) <==> d.Hit(text)
  {
    if text <= d.Closing() { assert text == d.Closing(); }
    if text <= d.NextPart() { assert text == d.NextPart(); }
  }

  /** The scan of payload, closing delimiter and tail stops after exactly the payload
      if and only if no delimiter starts earlier. */
  lemma ScanFindsPayload(d: Delimiters, payload: seq<octet>, tail: seq<octet>)
    ensures var w := payload + d.Closing() + tail;
            NoEarlierDelimiter(d, payload) <==> FirstCompatible(d, w, 0) == |payload|
  {
    var w := payload + d.Closing() + tail;
    var v := payload + d.Closing();
    forall k | 0 <= k < |payload| ensures d.Compatible(w[k..]) <==> d.Hit(v[k..]) {
      assert w[k..] == v[k..] + tail;
      HitWithin(d, v[k..], tail);
      CompatibleIsHit(d, w[k..]);
    }
    assert w[|payload|..] == d.Closing() + tail;
    assert d.Closing() <= w[|payload|..];
    if NoEarlierDelimiter(d, payload) {
      FirstCompatibleUnique(d, w, 0, |payload|);
    }
  }

  /** From the start of the data: payload, closing delimiter and tail are consumed as such. */
  lemma ConsumeFromData(d: Delimiters, filename: seq<octet>, payload: seq<octet>, tail: seq<octet>)
    requires NoEarlierDelimiter(d, payload)
    ensures Consume(d, Data(filename, []), payload + d.Closing() + tail) ==
            Then(Progress(Closing(filename, 0), false, payload), Consume(d, Closing(filename, 0), tail))
  {
    hide Step, FirstCompatible, Consume, Delimiters.Compatible, NoEarlierDelimiter, Delimiters.Closing;
    var w := payload + d.Closing() + tail;
    ConsumeData(d, filename, [], w);
    assert [] + w == w;
    ScanFindsPayload(d, payload, tail);
    ThreePieces(payload, d.Closing(), tail);
  }

  lemma ThreePieces<T>(a: seq<T>, b: seq<T>, c: seq<T>)
    ensures var w := a + b + c;
            w[..|a|] == a && b <= w[|a|..] && w[|a| + |b|..] == c
  {
    assert (a + b + c)[|a|..] == b + c;
  }

  /** An opening delimiter and an accepted block lead to the start of the data. */
  lemma ConsumeToData(d: Delimiters, block: seq<octet>, filename: seq<octet>, rest: seq<octet>)
    requires HeaderBlock(block, filename)
    ensures Consume(d, Opening(0), d.Opening() + block + rest) ==
            Then(Progress(Data(filename, []), true, []), Consume(d, Data(filename, []), rest))
  {
    hide Step, HeaderBlock, Consume;
    var o := d.Opening();
    assert o + block + rest == o + (block + rest);
    ConsumeConcat(d, Opening(0), o, block + rest);
    ConsumeOpening(d, 0, o);
    assert o == o[0..0 + |o|];
    ConsumeConcat(d, Headers([]), block, rest);
    assert [] + block == block;
    ConsumeBlock(d, [], block, filename);
  }

  lemma FramedParses(d: Delimiters, body: seq<octet>, block: seq<octet>, filename: seq<octet>,
                     payload: seq<octet>, tail: seq<octet>)
    requires Framed(d, body, block, filename, payload, tail)
    ensures Parses(d, body, filename, payload)
  {
    hide HeaderBlock, Consume, NoEarlierDelimiter, Delimiters.Closing, Delimiters.Opening;
    var w := payload + d.Closing() + tail;
    assert body == d.Opening() + block + w;
    ConsumeToData(d, block, filename, w);
    ConsumeFromData(d, filename, payload, tail);
    ConsumeTail(d, filename, tail);
  }

  /** A body that gets past the opening delimiter starts with it. */
  lemma StartsWithOpening(d: Delimiters, body: seq<octet>)
    requires var p := Consume(d, Opening(0), body).phase; !p.Opening? && !p.Failed?
    ensures d.Opening() <= body
    ensures Consume(d, Opening(0), body) == Consume(d, Headers([]), body[|d.Opening()|..])
  {
    hide Step, Consume;
    var o := d.Opening();
    if |body| < |o| {
      ConsumeOpening(d, 0, body);
    } else {
      assert body == body[..|o|] + body[|o|..];
      ConsumeConcat(d, Opening(0), body[..|o|], body[|o|..]);
      ConsumeOpening(d, 0, body[..|o|]);
      ConsumeFailed(d, body[|o|..]);
      assert o[0..0 + |o|] == o;
    }
  }

  lemma CutAround<T>(w: seq<T>, i: nat, piece: seq<T>)
    requires i <= |w| && piece <= w[i..]
    ensures w == w[..i] + piece + w[i + |piece|..]
  {
    assert w[i..] == piece + w[i..][|piece|..];
  }

  /** Data that ends in an acceptable phase is payload, closing delimiter and tail. */
  lemma DataSplits(d: Delimiters, filename: seq<octet>, w: seq<octet>) returns (payload: seq<octet>, tail: seq<octet>)
    requires Finish(Consume(d, Data(filename, []), w).phase).Some?
    ensures w == payload + d.Closing() + tail && NoEarlierDelimiter(d, payload)
    ensures Consume(d, Data(filename, []), w) ==
            Then(Progress(Closing(filename, 0), false, payload), Consume(d, Closing(filename, 0), tail))
  {
    hide Step, FirstCompatible, Consume, Delimiters.Compatible, NoEarlierDelimiter, Delimiters.Closing;
    ConsumeData(d, filename, [], w);
    assert [] + w == w;
    var i := FirstCompatible(d, w, 0);
    assert d.Closing() <= w[i..];
    payload, tail := w[..i], w[i + |d.Closing()|..];
    CutAround(w, i, d.Closing());
    ScanFindsPayload(d, payload, tail);
  }

  lemma ParsesFramed(d: Delimiters, body: seq<octet>, filename: seq<octet>, payload: seq<octet>)
      returns (block: seq<octet>, tail: seq<octet>)
    requires Parses(d, body, filename, payload)
    ensures Framed(d, body, block, filename, payload, tail)
  {
    hide Step, HeaderBlock, Consume, NoEarlierDelimiter, Delimiters.Closing, Delimiters.Opening;
    StartsWithOpening(d, body);
    var rest := body[|d.Opening()|..];
    var k, f := LeaveBlock(d, [], rest);
    block := rest[..k];
    assert [] + block == block;
    var p, t := DataSplits(d, f, rest[k..]);
    ConsumeTail(d, f, t);
    tail := t;
    ThenSilent(Progress(Data(f, []), true, []), Progress(Closing(f, 0), false, p), Consume(d, Closing(f, 0), t));
    JoinFrame(body, d.Opening(), k, p, d.Closing(), t);
  }

  lemma ThenSilent(a: Progress, b: Progress, c: Progress)
    requires a.data == [] && c.data == []
    ensures Then(a, Then(b, c)).data == b.data && Then(a, Then(b, c)).phase == c.phase
  {
  }

  lemma JoinFrame<T>(body: seq<T>, opening: seq<T>, k: nat, payload: seq<T>, closing: seq<T>, tail: seq<T>)
    requires opening <= body && k <= |body| - |opening|
    requires body[|opening|..][k..] == payload + closing + tail
    ensures body == opening + body[|opening|..][..k] + payload + closing + tail
  {
    var rest := body[|opening|..];
    assert body == opening + (rest[..k] + rest[k..]);
  }

  /** Exactness: the automaton accepts exactly the framed bodies, with their payload. */
  lemma ParserExact(d: Delimiters, body: seq<octet>, filename: seq<octet>, payload: seq<octet>)
    ensures Parses(d, body, filename, payload) <==>
            exists block, tail :: Framed(d, body, block, filename, payload, tail)
  {
    if Parses(d, body, filename, payload) {
      var block, tail := ParsesFramed(d, body, filename, payload);
    }
    if block, tail :| Framed(d, body, block, filename, payload, tail) {
      FramedParses(d, body, block, filename, payload, tail);
    }
  }

  /** The framing of an accepted body never costs more than the 664 bytes that the
      Content-Length check allows on top of the firmware size. */
  lemma FramingOverhead(d: Delimiters, body: seq<octet>, filename: seq<octet>, payload: seq<octet>)
    requires |d.boundary| <= MAX_BOUNDARY
    requires Parses(d, body, filename, payload)
    ensures |payload| < |body| <= |payload| + FRAMING
    ensures payload != [] ==> ValidContentLength(|body|, |payload|)
  {
    var block, tail := ParsesFramed(d, body, filename, payload);
  }

  function ValidContentLength(body: nat, firmwareSize: nat): bool {
    firmwareSize != 0 && body > firmwareSize && body <= firmwareSize + FRAMING
  }
}
