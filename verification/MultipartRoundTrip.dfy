/** Printing a payload as a form body and parsing it back. */
module MultipartRoundTrip {
  import opened Octets
  import opened MultipartHeaders
  import opened MultipartHeaderGrammar
  import opened MultipartSpec

  function Encode(d: Delimiters, block: seq<octet>, payload: seq<octet>, tail: seq<octet>): seq<octet> {
    d.Opening() + block + payload + d.Closing() + tail
  }

  /** With any accepted header block, parsing returns the printed payload exactly when no
      complete delimiter starts inside it. */
  lemma RoundTrip(d: Delimiters, block: seq<octet>, filename: seq<octet>, payload: seq<octet>, tail: seq<octet>)
    requires HeaderBlock(block, filename)
    requires tail == [] || tail == CRLF
    ensures Parses(d, Encode(d, block, payload, tail), filename, payload) <==> NoEarlierDelimiter(d, payload)
  {
    hide HeaderBlock, Consume, NoEarlierDelimiter, Delimiters.Closing, Delimiters.Opening;
    var body := Encode(d, block, payload, tail);
    var w := payload + d.Closing() + tail;
    assert body == d.Opening() + block + w;
    if NoEarlierDelimiter(d, payload) {
      FramedParses(d, body, block, filename, payload, tail);
    }
    if Parses(d, body, filename, payload) {
      ConsumeToData(d, block, filename, w);
      var p, t := DataSplits(d, filename, w);
      ConsumeTail(d, filename, t);
      assert payload == [] + (p + []) == p;
    }
  }

  /** The boundary characters that a Content-Type can carry include no CR. */
  predicate CrFree(boundary: seq<octet>) {
    forall i :: 0 <= i < |boundary| ==> boundary[i] != CR
  }

  lemma LineHead(d: Delimiters, text: seq<octet>)
    requires d.Hit(text)
    ensures d.Line() <= text
  {
    assert d.Closing() == d.Line() + [45, 45];
    assert d.NextPart() == d.Line() + CRLF;
  }

  /** A CR-free boundary line cannot straddle the end of the payload. */
  lemma NoStraddle(d: Delimiters, payload: seq<octet>, k: nat)
    requires CrFree(d.boundary) && k < |payload|
    requires d.Hit((payload + d.Closing())[k..])
    ensures k + |d.Line()| <= |payload| && d.Line() <= payload[k..]
  {
    hide Delimiters.Hit;
    var w := payload + d.Closing();
    LineHead(d, w[k..]);
    var n := |payload| - k;
    assert w[k..][n] == w[|payload|] == CR;
    assert forall i :: 0 <= i < |d.Line()| ==> d.Line()[i] == w[k..][i];
    if n >= |d.Line()| {
      assert payload[k..][..|d.Line()|] == w[k..][..|d.Line()|];
    }
  }

  /** For a CR-free boundary, the condition a sender can check on the payload alone: it
      contains no closing delimiter, and with CRLF appended no next-part delimiter. */
  lemma DelimiterFreePayload(d: Delimiters, payload: seq<octet>)
    requires CrFree(d.boundary)
    ensures NoEarlierDelimiter(d, payload) <==>
            !Contains(payload, d.Closing()) && !Contains(payload + CRLF, d.NextPart())
  {
    var w := payload + d.Closing();
    var v := payload + CRLF;
    if k :| 0 <= k <= |payload| && d.Closing() <= payload[k..] {
      assert w[k..] == payload[k..] + d.Closing();
      assert d.Closing() <= w[k..];
      assert d.Hit(w[k..]);
    }
    if k :| 0 <= k <= |v| && d.NextPart() <= v[k..] {
      NextPartInFront(d, payload, k);
    }
    forall k | 0 <= k < |payload| && d.Hit(w[k..])
      ensures Contains(payload, d.Closing()) || Contains(v, d.NextPart())
    {
      NoStraddle(d, payload, k);
      FoundInPayload(d, payload, k);
    }
  }

  lemma NextPartInFront(d: Delimiters, payload: seq<octet>, k: nat)
    requires k <= |payload| + 2 && d.NextPart() <= (payload + CRLF)[k..]
    ensures k < |payload| && d.Hit((payload + d.Closing())[k..])
  {
    var w := payload + d.Closing();
    var v := payload + CRLF;
    assert w[..|v|] == v;
    assert w[k..] == v[k..] + w[|v|..];
    assert d.NextPart() <= w[k..];
  }

  lemma FoundInPayload(d: Delimiters, payload: seq<octet>, k: nat)
    requires k < |payload| && k + |d.Line()| <= |payload| && d.Line() <= payload[k..]
    requires d.Hit((payload + d.Closing())[k..])
    ensures Contains(payload, d.Closing()) || Contains(payload + CRLF, d.NextPart())
  {
    var w := payload + d.Closing();
    var v := payload + CRLF;
    assert w[..|v|] == v;
    var e := k + |d.boundary| + 6;
    if d.NextPart() <= w[k..] {
      assert e <= |v|;
      assert v[k..][..|d.NextPart()|] == w[k..][..|d.NextPart()|];
      assert d.NextPart() <= v[k..];
    } else {
      assert d.Closing()[|d.boundary| + 4] == 45 && d.Closing()[|d.boundary| + 5] == 45;
      assert w[k..][|d.boundary| + 4] == w[e - 2] && w[k..][|d.boundary| + 5] == w[e - 1];
      assert w[|payload|] == CR && w[|payload| + 1] == LF;
      assert e <= |payload|;
      assert payload[k..][..|d.Closing()|] == w[k..][..|d.Closing()|];
      assert d.Closing() <= payload[k..];
    }
  }

  /** The rule of section 5.1.1 of RFC 2046 suffices: a payload without CRLF "--" boundary
      comes back unchanged. */
  lemma Rfc2046RoundTrip(d: Delimiters, block: seq<octet>, filename: seq<octet>, payload: seq<octet>, tail: seq<octet>)
    requires CrFree(d.boundary) && HeaderBlock(block, filename)
    requires tail == [] || tail == CRLF
    requires !Contains(payload, d.Line())
    ensures Parses(d, Encode(d, block, payload, tail), filename, payload)
  {
    hide HeaderBlock, Parses;
    forall k | 0 <= k < |payload| ensures !d.Hit((payload + d.Closing())[k..]) {
      if d.Hit((payload + d.Closing())[k..]) {
        NoStraddle(d, payload, k);
      }
    }
    RoundTrip(d, block, filename, payload, tail);
  }

  // ------------------------------------------------------------ the block browsers send

  // Content-Disposition: form-data; name="firmware"; filename="
  const PREFIX: seq<octet> :=
    DISPOSITION + FORM_DATA + [59, 32] + NAME + [61, 34] + FIRMWARE + [34, 59, 32] + FILENAME + [61, 34]
  const TYPE_LINE: seq<octet> := CONTENT_TYPE + [32] + OCTET_STREAM
  const OCTET_STREAM: seq<octet> := Ascii("application/octet-stream")

  /** A disposition line naming `filename`, a type line, an empty line. */
  function BrowserBlock(filename: seq<octet>): seq<octet> {
    PREFIX + filename + [34] + CRLF + TYPE_LINE + CRLF + CRLF
  }

  /** The only facts about the literals' characters that the proofs need. */
  lemma DispositionLiteral()
    ensures |DISPOSITION| == 20 && forall i :: 0 <= i < 20 ==> DISPOSITION[i] >= 33
  {
  }

  lemma FormDataLiteral()
    ensures |FORM_DATA| == 10 && forall i :: 0 <= i < 10 ==> FORM_DATA[i] >= 32
  {
  }

  lemma ContentTypeLiteral()
    ensures |CONTENT_TYPE| == 13 && forall i :: 0 <= i < 13 ==> CONTENT_TYPE[i] >= 33
  {
  }

  lemma OctetStreamLiteral()
    ensures |OCTET_STREAM| == 24 && forall i :: 0 <= i < 24 ==>
            OCTET_STREAM[i] > 59 || OCTET_STREAM[i] == 47 || OCTET_STREAM[i] == 45
  {
  }

  lemma NameLiterals()
    ensures NAME == [110, 97, 109, 101]
    ensures FILENAME == [102, 105, 108, 101, 110, 97, 109, 101]
    ensures FIRMWARE == [102, 105, 114, 109, 119, 97, 114, 101]
  {
  }

  lemma DifferentLiterals()
    ensures |OCTET_STREAM| == 24 && |MULTIPART| > 0 && Lower(OCTET_STREAM[0]) != Lower(MULTIPART[0])
  {
  }

  lemma Literals()
    ensures |DISPOSITION| == 20 && forall i :: 0 <= i < 20 ==> DISPOSITION[i] >= 33
    ensures |FORM_DATA| == 10 && forall i :: 0 <= i < 10 ==> FORM_DATA[i] >= 32
    ensures |CONTENT_TYPE| == 13 && forall i :: 0 <= i < 13 ==> CONTENT_TYPE[i] >= 33
    ensures |OCTET_STREAM| == 24 && forall i :: 0 <= i < 24 ==>
            OCTET_STREAM[i] > 59 || OCTET_STREAM[i] == 47 || OCTET_STREAM[i] == 45
    ensures NAME == [110, 97, 109, 101]
    ensures FILENAME == [102, 105, 108, 101, 110, 97, 109, 101]
    ensures FIRMWARE == [102, 105, 114, 109, 119, 97, 114, 101]
    ensures |MULTIPART| > 0 && Lower(OCTET_STREAM[0]) != Lower(MULTIPART[0])
  {
    hide DISPOSITION, FORM_DATA, CONTENT_TYPE, OCTET_STREAM, NAME, FILENAME, FIRMWARE, MULTIPART;
    DispositionLiteral();
    FormDataLiteral();
    ContentTypeLiteral();
    OctetStreamLiteral();
    NameLiterals();
    DifferentLiterals();
  }

  lemma LiteralsAreLines()
    ensures |PREFIX| == 59 && |TYPE_LINE| == 38
    ensures OneLine(PREFIX) && OneLine(TYPE_LINE)
  {
    hide DISPOSITION, FORM_DATA, CONTENT_TYPE, OCTET_STREAM, NAME, FILENAME, FIRMWARE;
    Literals();
  }

  lemma TypeLineValid()
    ensures EqualInsensitive(TYPE_LINE[..13], CONTENT_TYPE) && ValidTypeLine(TYPE_LINE)
  {
    hide DISPOSITION, CONTENT_TYPE, OCTET_STREAM, MULTIPART;
    Literals();
    assert TYPE_LINE[..13] == CONTENT_TYPE;
    assert TYPE_LINE[14..24][0] == OCTET_STREAM[0];
    forall i | 14 <= i < 38 ensures ValidTypeOctet(TYPE_LINE[i]) {
      assert TYPE_LINE[i] == OCTET_STREAM[i - 14];
    }
  }

  lemma TwoLinesPaired(a: seq<octet>, b: seq<octet>)
    requires OneLine(a) && OneLine(b)
    ensures PairedLineEnds(a + CRLF + (b + CRLF + CRLF))
  {
    var block := a + CRLF + (b + CRLF + CRLF);
    assert forall i :: 0 <= i < |block| && block[i] == CR ==> i == |a| || i == |a| + 2 + |b| || i == |a| + 4 + |b|;
  }

  lemma PrefixHead()
    ensures |PREFIX| == 59 && PREFIX[..20] == DISPOSITION && PREFIX[20..30] == FORM_DATA
    ensures PREFIX[30..] == [59, 32] + NAME + [61, 34] + FIRMWARE + [34, 59, 32] + FILENAME + [61, 34]
  {
    hide DISPOSITION, FORM_DATA, NAME, FILENAME, FIRMWARE;
    Literals();
  }

  lemma BrowserParameters(filename: seq<octet>)
    requires ValidFilename(filename) && 34 !in filename
    ensures BothParameters([59, 32] + NAME + [61, 34] + FIRMWARE + [34, 59, 32] + FILENAME + [61, 34] + filename
                           + [34], filename)
  {
    hide ValidFilename, EqualInsensitive, NAME, FILENAME, FIRMWARE;
    assert EqualInsensitive(NAME, NAME) && EqualInsensitive(FIRMWARE, FIRMWARE)
           && EqualInsensitive(FILENAME, FILENAME) by {
      SameText(NAME);
      SameText(FIRMWARE);
      SameText(FILENAME);
    }
    var text := [59, 32] + NAME + [61, 34] + FIRMWARE + [34, 59, 32] + FILENAME + [61, 34] + filename + [34];
    assert Spaces(1) == [32];
    assert text == Parameter(1, NAME, FIRMWARE) + Parameter(1, FILENAME, filename);
  }

  lemma SameText(text: seq<octet>)
    ensures EqualInsensitive(text, text)
  {
  }

  /** The browser's disposition line is the two parameters of the grammar. */
  lemma BrowserDisposition(filename: seq<octet>)
    requires ValidFilename(filename) && 34 !in filename
    ensures DispositionLine(PREFIX + filename + [34], filename)
  {
    hide ValidFilename, BothParameters, EqualInsensitive, PREFIX, DISPOSITION, FORM_DATA, NAME, FILENAME, FIRMWARE;
    var line := PREFIX + filename + [34];
    PrefixHead();
    LiteralsAreLines();
    ValidNameIsOneLine(filename);
    assert line[..20] == PREFIX[..20] && line[20..30] == PREFIX[20..30];
    SameText(DISPOSITION);
    assert line[30..] == PREFIX[30..] + filename + [34];
    BrowserParameters(filename);
  }

  lemma ValidNameIsOneLine(filename: seq<octet>)
    requires ValidFilename(filename)
    ensures OneLine(filename) && |filename| <= 128
  {
  }

  /** Every valid file name without a quote can be sent: the browser's block is accepted
      and carries exactly that name. */
  lemma BrowserBlockAccepted(filename: seq<octet>)
    requires ValidFilename(filename) && 34 !in filename
    ensures HeaderBlock(BrowserBlock(filename), filename)
  {
    hide ParseDisposition, ValidFilename, HeaderBlock, PairedLineEnds, BothParameters,
         DISPOSITION, FORM_DATA, CONTENT_TYPE, OCTET_STREAM, PREFIX, TYPE_LINE;
    var line := PREFIX + filename + [34];
    LiteralsAreLines();
    TypeLineValid();
    ValidNameIsOneLine(filename);
    BrowserDisposition(filename);
    TwoLinesPaired(line, TYPE_LINE);
    assert BrowserBlock(filename) == line + CRLF + (TYPE_LINE + CRLF + CRLF);
    LinesTwo(line, TYPE_LINE, filename);
    HeaderBlockExact(BrowserBlock(filename), filename);
  }
}
