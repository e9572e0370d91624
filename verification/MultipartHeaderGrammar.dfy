/** The accepted header blocks as a grammar: which lines, and which parameters in them. */
module MultipartHeaderGrammar {
  import opened MultipartHeaders
  import opened Octets

  // ------------------------------------------------------------ parameters

  function Spaces(n: nat): (s: seq<octet>)
    ensures |s| == n && forall i :: 0 <= i < n ==> s[i] == 32
  {
    seq(n, _ => 32)
  }

  /** `;`, any number of spaces, `key="text"`. */
  function Parameter(n: nat, key: seq<octet>, text: seq<octet>): seq<octet> {
    [59] + Spaces(n) + key + [61, 34] + text + [34]
  }

  predicate IsName(key: seq<octet>, text: seq<octet>) {
    EqualInsensitive(key, NAME) && EqualInsensitive(text, FIRMWARE)
  }

  predicate IsFilename(key: seq<octet>, text: seq<octet>) {
    EqualInsensitive(key, FILENAME) && ValidFilename(text) && 34 !in text
  }

  /** One `name="firmware"` and one `filename="..."`, in either order, and nothing else. */
  ghost predicate BothParameters(text: seq<octet>, filename: seq<octet>) {
    exists m, n, k1, t1, k2, t2 ::
      && text == Parameter(m, k1, t1) + Parameter(n, k2, t2)
      && ((IsName(k1, t1) && IsFilename(k2, t2) && t2 == filename)
          || (IsFilename(k1, t1) && t1 == filename && IsName(k2, t2)))
  }

  lemma KeyBytes(key: seq<octet>, literal: seq<octet>)
    requires EqualInsensitive(key, literal) && literal in {NAME, FILENAME}
    ensures key != [] && key[0] != 32 && 61 !in key
  {
    KeyLiterals();
    forall i | 0 <= i < |key| ensures key[i] != 61 && key[i] != 32 {
      assert Lower(key[i]) == Lower(literal[i]);
    }
  }

  lemma KeyLiterals()
    ensures |NAME| == 4 && forall i :: 0 <= i < 4 ==> NAME[i] >= 97
    ensures |FILENAME| == 8 && forall i :: 0 <= i < 8 ==> FILENAME[i] >= 97
  {
  }

  lemma FirmwareHasNoQuote(text: seq<octet>)
    requires EqualInsensitive(text, FIRMWARE)
    ensures 34 !in text
  {
    FirmwareLiteral();
    forall i | 0 <= i < |text| ensures text[i] != 34 {
      assert Lower(text[i]) == Lower(FIRMWARE[i]);
    }
  }

  lemma FirmwareLiteral()
    ensures |FIRMWARE| == 8 && forall i :: 0 <= i < 8 ==> FIRMWARE[i] >= 97
  {
  }

  lemma KeysDiffer(key: seq<octet>)
    ensures !(EqualInsensitive(key, NAME) && EqualInsensitive(key, FILENAME))
  {
    KeyLiterals();
  }

  lemma SpacesSkipped(line: seq<octet>, from: nat, n: nat)
    requires from + n < |line| && line[from + n] != 32
    requires forall i :: from <= i < from + n ==> line[i] == 32
    ensures SkipSpaces(line, from) == from + n
    decreases n
  {
    if n > 0 {
      SpacesSkipped(line, from + 1, n - 1);
    }
  }

  lemma SkippedAreSpaces(line: seq<octet>, from: nat)
    requires from <= |line|
    ensures var k := SkipSpaces(line, from);
            && (forall i :: from <= i < k ==> line[i] == 32)
            && (k < |line| ==> line[k] != 32)
    decreases |line| - from
  {
    if from < |line| && line[from] == 32 {
      SkippedAreSpaces(line, from + 1);
    }
  }

  /** Where the pieces of a parameter lie. */
  lemma ParameterShape(n: nat, key: seq<octet>, text: seq<octet>, rest: seq<octet>)
    ensures var p := Parameter(n, key, text) + rest;
            && |Parameter(n, key, text)| == n + |key| + |text| + 4
            && p[0] == 59
            && (forall i :: 1 <= i < 1 + n ==> p[i] == 32)
            && p[1 + n..1 + n + |key|] == key
            && p[1 + n + |key|] == 61 && p[2 + n + |key|] == 34
            && p[3 + n + |key|..3 + n + |key| + |text|] == text
            && p[3 + n + |key| + |text|] == 34
  {
  }

  /** The pieces of the parameter at `cursor`, found where the parser looks for them. */
  lemma ParameterFound(line: seq<octet>, cursor: nat, n: nat, key: seq<octet>, text: seq<octet>, rest: seq<octet>)
    requires cursor <= |line| && line[cursor..] == Parameter(n, key, text) + rest
    requires key != [] && key[0] != 32 && 61 !in key && 34 !in text
    ensures var k := cursor + 1 + n;
            var eq, quote := k + |key|, k + |key| + 2 + |text|;
            && quote < |line| && line[cursor] == 59 && line[eq + 1] == 34
            && SkipSpaces(line, cursor + 1) == k && IndexOf(line, 61, k) == eq && IndexOf(line, 34, eq + 2) == quote
            && line[k..eq] == key && line[eq + 2..quote] == text && line[quote + 1..] == rest
            && quote + 1 == |line| - |rest|
  {
    hide IndexOf, SkipSpaces, Parameter;
    var p := Parameter(n, key, text) + rest;
    ParameterShape(n, key, text, rest);
    var k := cursor + 1 + n;
    var eq, quote := k + |key|, k + |key| + 2 + |text|;
    assert |line| == cursor + |p|;
    assert forall i :: 0 <= i < |p| ==> line[cursor + i] == p[i];
    SliceBehind(line, cursor, p, 1 + n, 1 + n + |key|);
    SliceBehind(line, cursor, p, 3 + n + |key|, 3 + n + |key| + |text|);
    assert line[k] == line[k..eq][0] == key[0];
    assert forall i :: cursor + 1 <= i < cursor + 1 + n ==> line[i] == p[i - cursor];
    SpacesSkipped(line, cursor + 1, n);
    assert line[eq] == p[1 + n + |key|];
    FoundInSlice(line, 61, k, eq);
    assert line[quote] == p[3 + n + |key| + |text|];
    FoundInSlice(line, 34, eq + 2, quote);
    assert line[quote + 1..] == line[cursor..][quote + 1 - cursor..] == rest;
  }

  lemma SliceBehind(line: seq<octet>, cursor: nat, p: seq<octet>, from: nat, until: nat)
    requires cursor <= |line| && line[cursor..] == p && from <= until <= |p|
    ensures line[cursor + from..cursor + until] == p[from..until]
  {
    forall i | 0 <= i < until - from ensures line[cursor + from..cursor + until][i] == p[from..until][i] {
      assert p[from + i] == line[cursor + (from + i)];
    }
  }

  /** The parser reads one parameter and goes on behind it. */
  lemma ReadsParameter(line: seq<octet>, cursor: nat, n: nat, key: seq<octet>, text: seq<octet>, rest: seq<octet>,
                       name: bool, filename: Option<seq<octet>>)
    requires cursor <= |line| && line[cursor..] == Parameter(n, key, text) + rest
    requires key != [] && key[0] != 32 && 61 !in key && 34 !in text
    ensures var next := |line| - |rest|;
            && 0 <= next <= |line| && line[next..] == rest
            && ParseParameters(line, cursor, name, filename) ==
               (if EqualInsensitive(key, NAME) then
                  if name || !EqualInsensitive(text, FIRMWARE) then None
                  else ParseParameters(line, next, true, filename)
                else if EqualInsensitive(key, FILENAME) then
                  if filename.Some? || !ValidFilename(text) then None else ParseParameters(line, next, name, Some(text))
                else None)
  {
    hide ParseParameters, EqualInsensitive, ValidFilename, IndexOf, SkipSpaces, NAME, FILENAME, FIRMWARE, Parameter;
    ParameterFound(line, cursor, n, key, text, rest);
    ReadsAt(line, cursor, cursor + 1 + n, cursor + 1 + n + |key|, cursor + 3 + n + |key| + |text|, name, filename);
  }

  lemma ReadsAt(line: seq<octet>, cursor: nat, k: nat, eq: nat, quote: nat, name: bool, filename: Option<seq<octet>>)
    requires cursor < k <= eq && eq + 2 <= quote < |line| && line[cursor] == 59 && line[eq + 1] == 34
    requires SkipSpaces(line, cursor + 1) == k && IndexOf(line, 61, k) == eq && IndexOf(line, 34, eq + 2) == quote
    ensures ParseParameters(line, cursor, name, filename) ==
            if EqualInsensitive(line[k..eq], NAME) then
              if name || !EqualInsensitive(line[eq + 2..quote], FIRMWARE) then None
              else ParseParameters(line, quote + 1, true, filename)
            else if EqualInsensitive(line[k..eq], FILENAME) then
              if filename.Some? || !ValidFilename(line[eq + 2..quote]) then None
              else ParseParameters(line, quote + 1, name, Some(line[eq + 2..quote]))
            else None
  {
    hide EqualInsensitive, ValidFilename, IndexOf, SkipSpaces, NAME, FILENAME, FIRMWARE;
  }

  lemma FoundInSlice(line: seq<octet>, c: octet, from: nat, k: nat)
    requires from <= k < |line| && line[k] == c && c !in line[from..k]
    ensures IndexOf(line, c, from) == k
  {
    assert forall i :: from <= i < k ==> line[i] in line[from..k];
    IndexOfUnique(line, c, from, k);
  }

  /** What the parser accepts begins with a parameter. */
  lemma BeginsWithParameter(line: seq<octet>, cursor: nat, name: bool, filename: Option<seq<octet>>)
    returns (n: nat, key: seq<octet>, text: seq<octet>, rest: seq<octet>)
    requires cursor < |line| && ParseParameters(line, cursor, name, filename).Some?
    ensures line[cursor..] == Parameter(n, key, text) + rest
    ensures 34 !in text && (EqualInsensitive(key, NAME) || EqualInsensitive(key, FILENAME))
  {
    hide EqualInsensitive, ValidFilename, NAME, FILENAME, FIRMWARE;
    var k := SkipSpaces(line, cursor + 1);
    SkippedAreSpaces(line, cursor + 1);
    var eq := IndexOf(line, 61, k);
    var quote := IndexOf(line, 34, eq + 2);
    n, key, text, rest := k - cursor - 1, line[k..eq], line[eq + 2..quote], line[quote + 1..];
    assert line[cursor + 1..k] == Spaces(n);
    PiecesJoin(line, cursor, k, eq, quote);
  }

  lemma PiecesJoin(line: seq<octet>, cursor: nat, k: nat, eq: nat, quote: nat)
    requires cursor < k <= eq && eq + 2 <= quote < |line|
    requires line[cursor] == 59 && line[eq] == 61 && line[eq + 1] == 34 && line[quote] == 34
    ensures line[cursor..] ==
            [59] + line[cursor + 1..k] + line[k..eq] + [61, 34] + line[eq + 2..quote] + [34] + line[quote + 1..]
  {
  }

  lemma NoParameters(line: seq<octet>, name: bool, filename: Option<seq<octet>>)
    ensures ParseParameters(line, |line|, name, filename) == if name then filename else None
  {
  }

  /** The parameter loop accepts exactly one of each parameter, in either order. */
  lemma ParametersExact(line: seq<octet>, cursor: nat, filename: seq<octet>)
    requires cursor <= |line|
    ensures ParseParameters(line, cursor, false, None) == Some(filename) <==> BothParameters(line[cursor..], filename)
  {
    hide ParseParameters, EqualInsensitive, ValidFilename, Parameter, NAME, FILENAME, FIRMWARE;
    if ParseParameters(line, cursor, false, None) == Some(filename) {
      AcceptedIsBoth(line, cursor, filename);
    }
    if m, n, k1, t1, k2, t2 :|
        && line[cursor..] == Parameter(m, k1, t1) + Parameter(n, k2, t2)
        && ((IsName(k1, t1) && IsFilename(k2, t2) && t2 == filename)
            || (IsFilename(k1, t1) && t1 == filename && IsName(k2, t2)))
    {
      KeysDiffer(k1);
      BothAreAccepted(line, cursor, m, n, k1, t1, k2, t2);
    }
  }

  lemma BothAreAccepted(line: seq<octet>, cursor: nat, m: nat, n: nat, k1: seq<octet>, t1: seq<octet>,
                        k2: seq<octet>, t2: seq<octet>)
    requires cursor <= |line| && line[cursor..] == Parameter(m, k1, t1) + Parameter(n, k2, t2)
    requires (IsName(k1, t1) && IsFilename(k2, t2)) || (IsFilename(k1, t1) && IsName(k2, t2))
    ensures ParseParameters(line, cursor, false, None) == Some(if IsName(k1, t1) then t2 else t1)
  {
    hide ParseParameters, EqualInsensitive, ValidFilename, Parameter, NAME, FILENAME, FIRMWARE;
    KeysDiffer(k1);
    if IsName(k1, t1) {
      KeyBytes(k1, NAME);
      KeyBytes(k2, FILENAME);
      FirmwareHasNoQuote(t1);
    } else {
      KeyBytes(k1, FILENAME);
      KeyBytes(k2, NAME);
      FirmwareHasNoQuote(t2);
    }
    KeysDiffer(k2);
    var second := Parameter(n, k2, t2);
    var first: Option<seq<octet>> := if IsName(k1, t1) then None else Some(t1);
    ReadsParameter(line, cursor, m, k1, t1, second, false, None);
    assert second == second + [];
    ReadsParameter(line, |line| - |second|, n, k2, t2, [], IsName(k1, t1), first);
    NoParameters(line, true, Some(if IsName(k1, t1) then t2 else t1));
  }

  lemma AcceptedIsBoth(line: seq<octet>, cursor: nat, filename: seq<octet>)
    requires cursor <= |line| && ParseParameters(line, cursor, false, None) == Some(filename)
    ensures BothParameters(line[cursor..], filename)
  {
    hide ParseParameters, EqualInsensitive, ValidFilename, Parameter, NAME, FILENAME, FIRMWARE;
    NoParameters(line, false, None);
    var m, k1, t1, rest := BeginsWithParameter(line, cursor, false, None);
    KeyBytes(k1, if EqualInsensitive(k1, NAME) then NAME else FILENAME);
    KeysDiffer(k1);
    ReadsParameter(line, cursor, m, k1, t1, rest, false, None);
    var next := |line| - |rest|;
    var name := EqualInsensitive(k1, NAME);
    var first: Option<seq<octet>> := if name then None else Some(t1);
    NoParameters(line, name, first);
    var n, k2, t2, tail := BeginsWithParameter(line, next, name, first);
    KeyBytes(k2, if EqualInsensitive(k2, NAME) then NAME else FILENAME);
    KeysDiffer(k2);
    ReadsParameter(line, next, n, k2, t2, tail, name, first);
    NothingThird(line, |line| - |tail|, filename, if name then t2 else t1);
    assert tail == [];
    assert rest == Parameter(n, k2, t2) + [] == Parameter(n, k2, t2);
  }

  /** With both parameters read, only the end of the line is accepted. */
  lemma NothingThird(line: seq<octet>, cursor: nat, filename: seq<octet>, known: seq<octet>)
    requires cursor <= |line| && ParseParameters(line, cursor, true, Some(known)) == Some(filename)
    ensures cursor == |line| && filename == known
  {
    hide EqualInsensitive, ValidFilename, IndexOf, SkipSpaces;
  }

  /** A disposition line is accepted, with this file name, exactly when it says form-data
      and carries both parameters. */
  lemma DispositionExact(line: seq<octet>, filename: seq<octet>)
    ensures ParseDisposition(line) == Some(filename) <==>
            |line| >= 30 && line[20..30] == FORM_DATA && BothParameters(line[30..], filename)
  {
    hide ParseParameters, BothParameters, FORM_DATA;
    if |line| >= 30 {
      ParametersExact(line, 30, filename);
    }
  }

  // ------------------------------------------------------------ lines

  /** A line that the line scan ends where it stops. */
  predicate NoLineEndIn(line: seq<octet>) {
    && (forall i :: 0 <= i < |line| - 1 ==> !(line[i] == CR && line[i + 1] == LF))
    && line != []
    && |line| + 2 <= MAX_LINE
  }

  ghost predicate DispositionLine(line: seq<octet>, filename: seq<octet>) {
    && NoLineEndIn(line)
    && |line| >= 30
    && EqualInsensitive(line[..20], DISPOSITION)
    && line[20..30] == FORM_DATA
    && BothParameters(line[30..], filename)
  }

  predicate TypeLine(line: seq<octet>) {
    && NoLineEndIn(line)
    && |line| >= 14
    && EqualInsensitive(line[..13], CONTENT_TYPE)
    && ValidTypeLine(line)
  }

  /** One disposition line, at most one type line before or behind it, and an empty line. */
  ghost predicate Lines(text: seq<octet>, filename: seq<octet>) {
    || (exists a :: DispositionLine(a, filename) && text == a + CRLF + CRLF)
    || (exists a, b :: DispositionLine(a, filename) && TypeLine(b) && text == a + CRLF + (b + CRLF + CRLF))
    || (exists a, b :: DispositionLine(a, filename) && TypeLine(b) && text == b + CRLF + (a + CRLF + CRLF))
  }

  lemma KindsDiffer(line: seq<octet>)
    requires |line| >= 20
    ensures !(EqualInsensitive(line[..20], DISPOSITION) && EqualInsensitive(line[..13], CONTENT_TYPE))
  {
    assert line[..20][8] == line[..13][8];
    HeadLiterals();
  }

  lemma HeadLiterals()
    ensures |DISPOSITION| == 20 && |CONTENT_TYPE| == 13 && Lower(DISPOSITION[8]) != Lower(CONTENT_TYPE[8])
  {
  }

  lemma LineFound(block: seq<octet>, pos: nat, line: seq<octet>)
    requires pos <= |block| && NoLineEndIn(line) && line + CRLF <= block[pos..]
    ensures LineEnd(block, pos) == pos + |line| && block[pos..pos + |line|] == line
    ensures pos + |line| + 2 <= |block|
  {
    var rest := block[pos..];
    assert forall i :: 0 <= i < |line| + 2 ==> rest[i] == (line + CRLF)[i] == block[pos + i];
    forall i | pos <= i < pos + |line| ensures !(block[i] == CR && block[i + 1] == LF) {
      assert block[i] == line[i - pos];
      assert block[i + 1] == (line + CRLF)[i + 1 - pos];
    }
    assert block[pos + |line|] == rest[|line|] && block[pos + |line| + 1] == rest[|line| + 1];
    LineEndUnique(block, pos, pos + |line|);
  }

  lemma LineEndUnique(block: seq<octet>, from: nat, k: nat)
    requires from <= k && k + 1 < |block| && block[k] == CR && block[k + 1] == LF
    requires forall i :: from <= i < k ==> !(block[i] == CR && block[i + 1] == LF)
    ensures LineEnd(block, from) == k
  {
  }

  /** Reading one line: it is a new disposition line or a new type line, and the rest is
      read with what it says. */
  lemma ReadsLine(block: seq<octet>, pos: nat, line: seq<octet>, filename: Option<seq<octet>>, typed: bool,
                  result: seq<octet>)
    requires pos <= |block| && NoLineEndIn(line) && line + CRLF <= block[pos..]
    ensures var next := pos + |line| + 2;
            && next <= |block|
            && (ParseLines(block, pos, filename, typed) == Some(result) <==>
                || (filename.None? && exists f :: DispositionLine(line, f)
                                                  && ParseLines(block, next, Some(f), typed) == Some(result))
                || (!typed && TypeLine(line) && ParseLines(block, next, filename, true) == Some(result)))
  {
    hide LineEnd, EqualInsensitive, ParseDisposition, BothParameters, ValidTypeLine, DISPOSITION, CONTENT_TYPE,
         FORM_DATA;
    LineFound(block, pos, line);
    if |line| >= 20 {
      KindsDiffer(line);
    }
    forall f ensures ParseDisposition(line) == Some(f) <==>
                     |line| >= 30 && line[20..30] == FORM_DATA && BothParameters(line[30..], f)
    {
      DispositionExact(line, f);
    }
  }

  lemma ReadsEmptyLine(block: seq<octet>, pos: nat, filename: Option<seq<octet>>, typed: bool)
    requires pos <= |block| && CRLF <= block[pos..]
    ensures ParseLines(block, pos, filename, typed) == filename
  {
    assert block[pos] == block[pos..][0] && block[pos + 1] == block[pos..][1];
  }

  /** An accepted rest starts with a line, empty or not. */
  lemma StartsWithLine(block: seq<octet>, pos: nat, filename: Option<seq<octet>>, typed: bool)
    returns (line: seq<octet>)
    requires pos <= |block| && ParseLines(block, pos, filename, typed).Some?
    ensures CRLF <= block[pos..] || (NoLineEndIn(line) && line + CRLF <= block[pos..])
  {
    hide EqualInsensitive, ParseDisposition, ValidTypeLine, DISPOSITION, CONTENT_TYPE;
    var end := LineEnd(block, pos);
    line := block[pos..end];
    assert block[pos..] == line + [block[end], block[end + 1]] + block[end + 2..];
    assert [block[end], block[end + 1]] == CRLF;
  }

  // ------------------------------------------------------------ blocks

  predicate Begins(block: seq<octet>, pos: nat, text: seq<octet>) {
    pos <= |block| && text <= block[pos..]
  }

  lemma BeginsTwice(block: seq<octet>, pos: nat, line: seq<octet>, text: seq<octet>)
    ensures Begins(block, pos, line + CRLF + text) <==>
            Begins(block, pos, line + CRLF) && Begins(block, pos + |line| + 2, text)
  {
    var head := line + CRLF;
    if Begins(block, pos, head) && |head + text| <= |block| - pos {
      assert block[pos..][..|head|] == head;
      assert block[pos..][..|head + text|] == head + block[pos..][|head|..|head + text|];
      assert block[pos + |head|..][..|text|] == block[pos..][|head|..|head + text|];
      if head + text <= block[pos..] {
        assert block[pos..][..|head + text|] == head + text;
        assert (head + text)[|head|..] == text;
      }
    }
    if pos <= |block| && head + text <= block[pos..] {
      assert block[pos..][..|head|] == (head + text)[..|head|] == head;
    }
  }

  /** Behind both lines: only the empty line is accepted. */
  lemma EmptyTail(block: seq<octet>, pos: nat, known: seq<octet>, filename: seq<octet>)
    requires pos <= |block|
    ensures ParseLines(block, pos, Some(known), true) == Some(filename) <==>
            filename == known && Begins(block, pos, CRLF)
  {
    hide ParseLines, DispositionLine, TypeLine;
    if CRLF <= block[pos..] {
      ReadsEmptyLine(block, pos, Some(known), true);
    } else if ParseLines(block, pos, Some(known), true) == Some(filename) {
      var line := StartsWithLine(block, pos, Some(known), true);
      ReadsLine(block, pos, line, Some(known), true, filename);
      assert false;
    }
  }

  /** Behind the disposition line: the end, or a type line and the end. */
  lemma TypeTail(block: seq<octet>, pos: nat, known: seq<octet>, filename: seq<octet>)
    requires pos <= |block|
    ensures ParseLines(block, pos, Some(known), false) == Some(filename) <==>
            && filename == known
            && (Begins(block, pos, CRLF) || exists b :: TypeLine(b) && Begins(block, pos, b + CRLF + CRLF))
  {
    hide ParseLines, DispositionLine, EqualInsensitive, ValidTypeLine, CONTENT_TYPE;
    if CRLF <= block[pos..] {
      ReadsEmptyLine(block, pos, Some(known), false);
      forall b | TypeLine(b) ensures !Begins(block, pos, b + CRLF + CRLF) {
        NotEmptyLine(block, pos, b);
      }
    } else {
      if ParseLines(block, pos, Some(known), false) == Some(filename) {
        var b := StartsWithLine(block, pos, Some(known), false);
        ReadsLine(block, pos, b, Some(known), false, filename);
        EmptyTail(block, pos + |b| + 2, known, filename);
        BeginsTwice(block, pos, b, CRLF);
      }
      forall b | TypeLine(b) && Begins(block, pos, b + CRLF + CRLF)
        ensures ParseLines(block, pos, Some(known), false) == Some(known)
      {
        BeginsTwice(block, pos, b, CRLF);
        ReadsLine(block, pos, b, Some(known), false, known);
        EmptyTail(block, pos + |b| + 2, known, known);
      }
    }
  }

  lemma NotEmptyLine(block: seq<octet>, pos: nat, line: seq<octet>)
    requires NoLineEndIn(line) && Begins(block, pos, CRLF)
    ensures !Begins(block, pos, line + CRLF + CRLF)
  {
    var text := line + CRLF + CRLF;
    assert text[0] == line[0] && text[1] == if |line| > 1 then line[1] else CR;
  }

  /** Behind a type line: the disposition line and the end. */
  lemma DispositionTail(block: seq<octet>, pos: nat, filename: seq<octet>)
    requires pos <= |block|
    ensures ParseLines(block, pos, None, true) == Some(filename) <==>
            exists a :: DispositionLine(a, filename) && Begins(block, pos, a + CRLF + CRLF)
  {
    hide ParseLines, EqualInsensitive, BothParameters, DISPOSITION, FORM_DATA, TypeLine;
    if ParseLines(block, pos, None, true) == Some(filename) {
      var a := StartsWithLine(block, pos, None, true);
      if CRLF <= block[pos..] {
        ReadsEmptyLine(block, pos, None, true);
      }
      ReadsLine(block, pos, a, None, true, filename);
      var f :| DispositionLine(a, f) && ParseLines(block, pos + |a| + 2, Some(f), true) == Some(filename);
      EmptyTail(block, pos + |a| + 2, f, filename);
      BeginsTwice(block, pos, a, CRLF);
    }
    forall a | DispositionLine(a, filename) && Begins(block, pos, a + CRLF + CRLF)
      ensures ParseLines(block, pos, None, true) == Some(filename)
    {
      BeginsTwice(block, pos, a, CRLF);
      ReadsLine(block, pos, a, None, true, filename);
      EmptyTail(block, pos + |a| + 2, filename, filename);
    }
  }

  /** The block parser accepts, with this file name, exactly the blocks that begin with one
      disposition line and at most one type line, in either order, and an empty line. */
  lemma BlockExact(block: seq<octet>, filename: seq<octet>)
    ensures ParseBlock(block) == Some(filename) <==>
            exists k :: 0 <= k <= |block| && Lines(block[..k], filename)
  {
    hide ParseLines, DispositionLine, TypeLine, Begins;
    if ParseBlock(block) == Some(filename) {
      AcceptedBlock(block, filename);
    }
    forall k | 0 <= k <= |block| && Lines(block[..k], filename) ensures ParseBlock(block) == Some(filename) {
      LinesAccepted(block, block[..k], filename);
    }
  }

  lemma LinesAccepted(block: seq<octet>, text: seq<octet>, filename: seq<octet>)
    requires text <= block && Lines(text, filename)
    ensures ParseBlock(block) == Some(filename)
  {
    hide ParseBlock, DispositionLine, TypeLine, Begins;
    BeginsAtStart(block, text);
    if a :| DispositionLine(a, filename) && text == a + CRLF + CRLF {
      DispositionFirst(block, a, CRLF, filename);
    } else if a, b :| DispositionLine(a, filename) && TypeLine(b) && text == a + CRLF + (b + CRLF + CRLF) {
      DispositionFirst(block, a, b + CRLF + CRLF, filename);
    } else {
      var a, b :| DispositionLine(a, filename) && TypeLine(b) && text == b + CRLF + (a + CRLF + CRLF);
      TypeFirst(block, b, a, filename);
    }
  }

  lemma BeginsAtStart(block: seq<octet>, text: seq<octet>)
    ensures Begins(block, 0, text) <==> text <= block
  {
    assert block[0..] == block;
  }

  lemma DispositionFirst(block: seq<octet>, a: seq<octet>, text: seq<octet>, filename: seq<octet>)
    requires DispositionLine(a, filename) && Begins(block, 0, a + CRLF + text)
    requires text == CRLF || exists b :: TypeLine(b) && text == b + CRLF + CRLF
    ensures ParseBlock(block) == Some(filename)
  {
    hide ParseLines, EqualInsensitive, BothParameters, TypeLine, DISPOSITION, FORM_DATA;
    BeginsTwice(block, 0, a, text);
    ReadsLine(block, 0, a, None, false, filename);
    TypeTail(block, |a| + 2, filename, filename);
  }

  lemma TypeFirst(block: seq<octet>, b: seq<octet>, a: seq<octet>, filename: seq<octet>)
    requires TypeLine(b) && DispositionLine(a, filename) && Begins(block, 0, b + CRLF + (a + CRLF + CRLF))
    ensures ParseBlock(block) == Some(filename)
  {
    hide ParseLines, EqualInsensitive, DispositionLine, ValidTypeLine, CONTENT_TYPE;
    BeginsTwice(block, 0, b, a + CRLF + CRLF);
    ReadsLine(block, 0, b, None, false, filename);
    DispositionTail(block, |b| + 2, filename);
  }

  lemma AcceptedBlock(block: seq<octet>, filename: seq<octet>)
    requires ParseBlock(block) == Some(filename)
    ensures exists k :: 0 <= k <= |block| && Lines(block[..k], filename)
  {
    hide ParseLines, DispositionLine, TypeLine, Begins, Lines;
    var line := StartsWithLine(block, 0, None, false);
    FirstLine(block, line);
    ReadsLine(block, 0, line, None, false, filename);
    var next := |line| + 2;
    if f :| DispositionLine(line, f) && ParseLines(block, next, Some(f), false) == Some(filename) {
      TypeTail(block, next, f, filename);
      if Begins(block, next, CRLF) {
        Whole(block, line, CRLF);
        LinesOne(line, filename);
      } else {
        var b :| TypeLine(b) && Begins(block, next, b + CRLF + CRLF);
        Whole(block, line, b + CRLF + CRLF);
        LinesTwo(line, b, filename);
      }
    } else {
      DispositionTail(block, next, filename);
      var a :| DispositionLine(a, filename) && Begins(block, next, a + CRLF + CRLF);
      Whole(block, line, a + CRLF + CRLF);
      LinesTwo(a, line, filename);
    }
  }

  lemma FirstLine(block: seq<octet>, line: seq<octet>)
    requires ParseBlock(block).Some?
    requires CRLF <= block[0..] || (NoLineEndIn(line) && line + CRLF <= block[0..])
    ensures NoLineEndIn(line) && line + CRLF <= block[0..] && Begins(block, 0, line + CRLF)
  {
    hide ParseLines;
    if CRLF <= block[0..] {
      ReadsEmptyLine(block, 0, None, false);
    }
  }

  lemma Whole(block: seq<octet>, line: seq<octet>, text: seq<octet>)
    requires Begins(block, 0, line + CRLF) && Begins(block, |line| + 2, text)
    ensures var whole := line + CRLF + text;
            |whole| <= |block| && block[..|whole|] == whole
  {
    hide Begins;
    BeginsTwice(block, 0, line, text);
    BeginsAtStart(block, line + CRLF + text);
  }

  lemma LinesOne(a: seq<octet>, filename: seq<octet>)
    requires DispositionLine(a, filename)
    ensures Lines(a + CRLF + CRLF, filename)
  {
    hide DispositionLine;
  }

  lemma LinesTwo(a: seq<octet>, b: seq<octet>, filename: seq<octet>)
    requires DispositionLine(a, filename) && TypeLine(b)
    ensures Lines(a + CRLF + (b + CRLF + CRLF), filename) && Lines(b + CRLF + (a + CRLF + CRLF), filename)
  {
    hide DispositionLine, TypeLine;
  }

  // ------------------------------------------------------------ complete blocks

  predicate OneLine(line: seq<octet>) {
    forall i :: 0 <= i < |line| ==> line[i] != CR && line[i] != LF
  }

  /** In a block with paired line ends a line between two line ends has none inside it. */
  lemma PairedIsOneLine(block: seq<octet>, pos: nat, line: seq<octet>)
    requires PairedLineEnds(block) && NoLineEndIn(line) && Begins(block, pos, line + CRLF)
    requires pos > 0 ==> block[pos - 1] == LF
    ensures OneLine(line)
  {
    var rest := block[pos..];
    assert forall i :: 0 <= i < |line| + 2 ==> rest[i] == (line + CRLF)[i] == block[pos + i];
    forall i | 0 <= i < |line| ensures line[i] != CR {
      assert block[pos + i] == line[i] && block[pos + i + 1] == (line + CRLF)[i + 1];
    }
    forall i | 0 <= i < |line| ensures line[i] != LF {
      assert block[pos + i] == line[i];
      if i > 0 {
        assert block[pos + i - 1] == line[i - 1];
      }
    }
  }

  lemma OneLineShape(a: seq<octet>)
    requires OneLine(a) && a != []
    ensures var block := a + CRLF + CRLF;
            EndsHeaders(block) && forall k :: 0 <= k < |block| ==> !EndsHeaders(block[..k])
  {
    var block := a + CRLF + CRLF;
    forall k | 4 <= k < |block| ensures !EndsHeaders(block[..k]) {
      assert block[..k][k - 4..][0] == block[k - 4];
    }
  }

  lemma TwoLinesShape(a: seq<octet>, b: seq<octet>)
    requires OneLine(a) && OneLine(b) && a != [] && b != []
    ensures var block := a + CRLF + (b + CRLF + CRLF);
            EndsHeaders(block) && forall k :: 0 <= k < |block| ==> !EndsHeaders(block[..k])
  {
    var block := a + CRLF + (b + CRLF + CRLF);
    assert forall i :: 0 <= i < |block| && block[i] == CR ==> i == |a| || i == |a| + 2 + |b| || i == |a| + 4 + |b|;
    forall k | 4 <= k < |block| ensures !EndsHeaders(block[..k]) {
      assert block[..k][k - 4..][0] == block[k - 4] && block[..k][k - 4..][2] == block[k - 2];
    }
  }

  /** The two lines of a paired block, as single lines. */
  lemma PairedTwoLines(block: seq<octet>, a: seq<octet>, b: seq<octet>)
    requires PairedLineEnds(block) && NoLineEndIn(a) && NoLineEndIn(b) && block == a + CRLF + (b + CRLF + CRLF)
    ensures EndsHeaders(block) && forall k :: 0 <= k < |block| ==> !EndsHeaders(block[..k])
  {
    hide PairedLineEnds, NoLineEndIn, Begins;
    BeginsAtStart(block, block);
    BeginsTwice(block, 0, a, b + CRLF + CRLF);
    BeginsTwice(block, |a| + 2, b, CRLF);
    PairedIsOneLine(block, 0, a);
    assert block[|a| + 1] == LF;
    PairedIsOneLine(block, |a| + 2, b);
    LinesNotEmpty(a);
    LinesNotEmpty(b);
    TwoLinesShape(a, b);
  }

  lemma LinesNotEmpty(line: seq<octet>)
    requires NoLineEndIn(line)
    ensures line != []
  {
  }

  lemma LinesShape(block: seq<octet>, filename: seq<octet>)
    requires PairedLineEnds(block) && Lines(block, filename)
    ensures EndsHeaders(block) && forall k :: 0 <= k < |block| ==> !EndsHeaders(block[..k])
  {
    hide PairedLineEnds, NoLineEndIn, EndsHeaders, Begins, EqualInsensitive, BothParameters, ValidTypeLine,
         DISPOSITION, FORM_DATA, CONTENT_TYPE;
    if a :| DispositionLine(a, filename) && block == a + CRLF + CRLF {
      BeginsAtStart(block, block);
      BeginsTwice(block, 0, a, CRLF);
      PairedIsOneLine(block, 0, a);
      LinesNotEmpty(a);
      OneLineShape(a);
    } else if a, b :| DispositionLine(a, filename) && TypeLine(b) && block == a + CRLF + (b + CRLF + CRLF) {
      PairedTwoLines(block, a, b);
    } else {
      var a, b :| DispositionLine(a, filename) && TypeLine(b) && block == b + CRLF + (a + CRLF + CRLF);
      PairedTwoLines(block, b, a);
    }
  }

  lemma LinesEnd(text: seq<octet>, filename: seq<octet>)
    requires Lines(text, filename)
    ensures EndsHeaders(text)
  {
    hide DispositionLine, TypeLine;
  }

  /** The header blocks the form parser accepts, without the parser: at most 512 bytes of
      CRLF-terminated lines, one disposition line that carries the file name and at most one
      type line, in either order, then the empty line. */
  lemma HeaderBlockExact(block: seq<octet>, filename: seq<octet>)
    ensures HeaderBlock(block, filename) <==>
            |block| <= MAX_BLOCK && PairedLineEnds(block) && Lines(block, filename)
  {
    hide PairedLineEnds, EndsHeaders, ParseBlock, Lines;
    BlockExact(block, filename);
    if HeaderBlock(block, filename) {
      var k :| 0 <= k <= |block| && Lines(block[..k], filename);
      LinesEnd(block[..k], filename);
      assert k == |block| && block[..k] == block;
    }
    if PairedLineEnds(block) && Lines(block, filename) {
      LinesShape(block, filename);
      assert block[..|block|] == block;
    }
  }
}
