/** The header block of the single part of an /update form: which blocks are accepted,
    and the file name an accepted block carries. */
module MultipartHeaders {
  import opened Octets

  const MAX_BLOCK: nat := 512
  const MAX_LINE: nat := 256
  const MAX_FILENAME: nat := 128

  const DISPOSITION: seq<octet> := Ascii("Content-Disposition:")
  const FORM_DATA: seq<octet> := Ascii(" form-data")
  const CONTENT_TYPE: seq<octet> := Ascii("Content-Type:")
  const MULTIPART: seq<octet> := Ascii("multipart/")
  const NAME: seq<octet> := Ascii("name")
  const FILENAME: seq<octet> := Ascii("filename")
  const FIRMWARE: seq<octet> := Ascii("firmware")
  const BIN: seq<octet> := Ascii(".bin")

  // Text of a part that both ends a line and starts the data.
  const END_OF_HEADERS: seq<octet> := [13, 10, 13, 10]

  predicate ValidFilename(text: seq<octet>) {
    && 4 <= |text| <= MAX_FILENAME
    && (forall i :: 0 <= i < |text| ==> ValidFilenameOctet(text[i]))
    && EqualInsensitive(text[|text| - 4..], BIN)
  }

  predicate ValidFilenameOctet(c: octet) {
    32 <= c && c != 127 && c != 47 && c != 92
  }

  predicate ValidTypeOctet(c: octet) {
    33 <= c && c != 59
  }

  /** A Content-Type line: one space, then a non-empty, parameterless, non-multipart value. */
  predicate ValidTypeLine(line: seq<octet>)
    requires |line| >= 14
  {
    && line[13] == 32
    && |line| > 14
    && !(|line| >= 24 && EqualInsensitive(line[14..24], MULTIPART))
    && forall i :: 14 <= i < |line| ==> ValidTypeOctet(line[i])
  }

  /** The first index at or after `from` that is not a space, or the length. */
  function SkipSpaces(line: seq<octet>, from: nat): (k: nat)
    requires from <= |line|
    ensures from <= k <= |line|
    decreases |line| - from
  {
    if from < |line| && line[from] == 32 then SkipSpaces(line, from + 1) else from
  }

  /** Reads `; key="value"` parameters from `cursor` to the end of the line: exactly one
      `name` with value firmware and exactly one `filename`, in either order. */
  function ParseParameters(line: seq<octet>, cursor: nat, name: bool, filename: Option<seq<octet>>):
      (r: Option<seq<octet>>)
    requires cursor <= |line|
    ensures (filename.Some? ==> ValidFilename(filename.value)) && r.Some? ==> ValidFilename(r.value)
    decreases |line| - cursor
  {
    if cursor == |line| then
      if name then filename else None
    else if line[cursor] != 59 then None
    else
      var key := SkipSpaces(line, cursor + 1);
      var eq := IndexOf(line, 61, key);
      if eq + 1 >= |line| || line[eq + 1] != 34 then None
      else
        var quote := IndexOf(line, 34, eq + 2);
        if quote == |line| then None
        else
          var text := line[eq + 2..quote];
          if EqualInsensitive(line[key..eq], NAME) then
            if name || !EqualInsensitive(text, FIRMWARE) then None
            else ParseParameters(line, quote + 1, true, filename)
          else if EqualInsensitive(line[key..eq], FILENAME) then
            if filename.Some? || !ValidFilename(text) then None
            else ParseParameters(line, quote + 1, name, Some(text))
          else None
  }

  function ParseDisposition(line: seq<octet>): (r: Option<seq<octet>>)
    ensures r.Some? ==> ValidFilename(r.value)
  {
    if |line| < 30 || line[20..30] != FORM_DATA then None
    else ParseParameters(line, 30, false, None)
  }

  /** The index of the CR of the first CRLF at or after `from`, or the first index too
      close to the end to start one. */
  function LineEnd(block: seq<octet>, from: nat): (k: nat)
    requires from <= |block|
    ensures from <= k <= |block|
    ensures k + 1 < |block| ==> block[k] == CR && block[k + 1] == LF
    ensures forall i :: from <= i < k && i + 1 < |block| ==> !(block[i] == CR && block[i + 1] == LF)
    decreases |block| - from
  {
    if from + 1 < |block| && !(block[from] == CR && block[from + 1] == LF) then LineEnd(block, from + 1)
    else from
  }

  function ParseLines(block: seq<octet>, pos: nat, filename: Option<seq<octet>>, typed: bool):
      (r: Option<seq<octet>>)
    requires pos <= |block|
    ensures (filename.Some? ==> ValidFilename(filename.value)) && r.Some? ==> ValidFilename(r.value)
    decreases |block| - pos
  {
    var end := LineEnd(block, pos);
    if end + 1 >= |block| || end + 2 - pos > MAX_LINE then None
    else if end == pos then filename
    else
      var line := block[pos..end];
      if |line| >= 21 && EqualInsensitive(line[..20], DISPOSITION) then
        if filename.Some? then None
        else
          var parsed := ParseDisposition(line);
          if parsed.None? then None else ParseLines(block, end + 2, parsed, typed)
      else if |line| >= 14 && EqualInsensitive(line[..13], CONTENT_TYPE) then
        if typed || !ValidTypeLine(line) then None else ParseLines(block, end + 2, filename, true)
      else None
  }

  /** The file name of an accepted block: a printable, path-free .bin name of at most 128 bytes. */
  function ParseBlock(block: seq<octet>): (r: Option<seq<octet>>)
    ensures r.Some? ==> ValidFilename(r.value)
  {
    ParseLines(block, 0, None, false)
  }

  // ------------------------------------------------------------ the byte-level shape of a block

  /** CR and LF only ever occur as the pair CR LF; a trailing CR may still wait for its LF. */
  predicate PairedLineEnds(block: seq<octet>) {
    && (forall i :: 0 <= i < |block| && block[i] == LF ==> i > 0 && block[i - 1] == CR)
    && (forall i :: 0 <= i < |block| - 1 && block[i] == CR ==> block[i + 1] == LF)
  }

  predicate EndsHeaders(block: seq<octet>) {
    |block| >= 4 && block[|block| - 4..] == END_OF_HEADERS
  }

  /** A complete block: paired line ends, an empty line at its end and nowhere before,
      at most 512 bytes, and content the parser accepts with file name `filename`. */
  ghost predicate HeaderBlock(block: seq<octet>, filename: seq<octet>) {
    && |block| <= MAX_BLOCK
    && PairedLineEnds(block)
    && EndsHeaders(block)
    && (forall k :: 0 <= k < |block| ==> !EndsHeaders(block[..k]))
    && ParseBlock(block) == Some(filename)
  }
}
