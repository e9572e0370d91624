/** The request headers of an upload: the multipart boundary and the announced size. */
module MultipartRequest {
  import opened Octets

  const MAX_CONTENT_TYPE: nat := 127
  const MAX_BOUNDARY: nat := 70
  const UINT32_MAX: nat := 0xFFFF_FFFF

  const FORM_DATA_TYPE: seq<octet> := Ascii("multipart/form-data")
  const BOUNDARY: seq<octet> := Ascii("boundary")

  /** The characters a boundary may use (section 5.1.1 of RFC 2046). */
  predicate BoundaryOctet(c: octet) {
    || 48 <= c <= 57 || 65 <= c <= 90 || 97 <= c <= 122
    || c in [39, 40, 41, 43, 95, 44, 45, 46, 47, 58, 61, 63, 32]
  }

  predicate ValidBoundary(b: seq<octet>) {
    && 1 <= |b| <= MAX_BOUNDARY
    && (forall i :: 0 <= i < |b| ==> BoundaryOctet(b[i]))
    && b[|b| - 1] != 32
  }

  /** The first index at or after `from` that is neither a space nor a tab. */
  function SkipBlanks(text: seq<octet>, from: nat): (k: nat)
    requires from <= |text|
    ensures from <= k <= |text|
    decreases |text| - from
  {
    if from < |text| && (text[from] == 32 || text[from] == 9) then SkipBlanks(text, from + 1) else from
  }

  /** Where the value of the boundary parameter starts, opening quote included. */
  function BoundaryStart(value: seq<octet>): (r: Option<nat>)
    ensures r.Some? ==> r.value <= |value|
  {
    var semi := IndexOf(value, 59, 0);
    if |value| > MAX_CONTENT_TYPE || semi == |value| || !EqualInsensitive(value[..semi], FORM_DATA_TYPE) then None
    else
      var p := SkipBlanks(value, semi + 1);
      var eq := IndexOf(value, 61, p);
      if eq == |value| || !EqualInsensitive(value[p..eq], BOUNDARY) then None else Some(eq + 1)
  }

  /** A parameter value without its double quotes, if it has any. */
  function Unquoted(text: seq<octet>): Option<seq<octet>> {
    if text == [] || text[0] != 34 then Some(text)
    else if |text| >= 2 && text[|text| - 1] == 34 then Some(text[1..|text| - 1])
    else None
  }

  /** The boundary a Content-Type declares: the parameter's value, bare or quoted, if it is
      a valid boundary and nothing follows it. */
  function DeclaredBoundary(value: seq<octet>): (r: Option<seq<octet>>)
    ensures r.Some? ==> ValidBoundary(r.value)
  {
    var start := BoundaryStart(value);
    if start.None? then None
    else
      var b := Unquoted(value[start.value..]);
      if b.Some? && ValidBoundary(b.value) then b else None
  }

  // ------------------------------------------------------------ the same as a grammar

  predicate Blanks(text: seq<octet>) {
    forall i :: 0 <= i < |text| ==> text[i] in {32, 9}
  }

  /** A boundary parameter, bare or in double quotes. */
  predicate Parameter(text: seq<octet>, b: seq<octet>) {
    text == b || text == [34] + b + [34]
  }

  /** multipart/form-data; blanks boundary= value, the two names in any case, and nothing else. */
  ghost predicate Declares(value: seq<octet>, b: seq<octet>) {
    && |value| <= 127 && ValidBoundary(b)
    && exists kind, blanks, key, text ::
         && EqualInsensitive(kind, FORM_DATA_TYPE) && Blanks(blanks) && EqualInsensitive(key, BOUNDARY)
         && Parameter(text, b) && value == kind + [59] + blanks + key + [61] + text
  }

  lemma NameLetters(text: seq<octet>, name: seq<octet>)
    requires name in {FORM_DATA_TYPE, BOUNDARY} && EqualInsensitive(text, name)
    ensures text != [] && text[0] !in {32, 9}
    ensures 59 !in text && 61 !in text
  {
    LiteralLetters();
    forall i | 0 <= i < |text| ensures text[i] !in {59, 61, 32, 9} {
      assert Lower(text[i]) == Lower(name[i]);
    }
  }

  lemma LiteralLetters()
    ensures |FORM_DATA_TYPE| == 19 && forall i :: 0 <= i < 19 ==>
            FORM_DATA_TYPE[i] >= 97 || FORM_DATA_TYPE[i] in {45, 47}
    ensures |BOUNDARY| == 8 && forall i :: 0 <= i < 8 ==> BOUNDARY[i] >= 97
  {
  }

  lemma BlanksSkipped(text: seq<octet>, from: nat, n: nat)
    requires from + n < |text| && text[from + n] !in {32, 9}
    requires forall i :: from <= i < from + n ==> text[i] in {32, 9}
    ensures SkipBlanks(text, from) == from + n
    decreases n
  {
    if n > 0 {
      BlanksSkipped(text, from + 1, n - 1);
    }
  }

  lemma SkippedAreBlanks(text: seq<octet>, from: nat)
    requires from <= |text|
    ensures forall i :: from <= i < SkipBlanks(text, from) ==> text[i] in {32, 9}
    decreases |text| - from
  {
    if from < |text| && text[from] in {32, 9} {
      SkippedAreBlanks(text, from + 1);
    }
  }

  lemma UnquotedExact(text: seq<octet>, b: seq<octet>)
    requires ValidBoundary(b)
    ensures Unquoted(text) == Some(b) <==> Parameter(text, b)
  {
    assert BoundaryOctet(b[0]);
    if text != [] && text[0] == 34 && |text| >= 2 {
      assert text == [34] + text[1..|text| - 1] + [text[|text| - 1]];
    }
    if text == [34] + b + [34] {
      assert text[1..|text| - 1] == b;
    }
  }

  /** Where the pieces of a declaration lie. */
  lemma StartExact(kind: seq<octet>, blanks: seq<octet>, key: seq<octet>, text: seq<octet>)
    requires EqualInsensitive(kind, FORM_DATA_TYPE) && Blanks(blanks) && EqualInsensitive(key, BOUNDARY)
    requires |kind + [59] + blanks + key + [61] + text| <= 127
    ensures var value := kind + [59] + blanks + key + [61] + text;
            var start := |kind| + |blanks| + |key| + 2;
            BoundaryStart(value) == Some(start) && value[start..] == text
  {
    hide EqualInsensitive, FORM_DATA_TYPE, BOUNDARY, SkipBlanks, IndexOf;
    var value := kind + [59] + blanks + key + [61] + text;
    NameLetters(kind, FORM_DATA_TYPE);
    NameLetters(key, BOUNDARY);
    var p := |kind| + 1 + |blanks|;
    assert forall i :: 0 <= i < |kind| ==> value[i] == kind[i];
    IndexOfUnique(value, 59, 0, |kind|);
    assert value[..|kind|] == kind;
    assert forall i :: 0 <= i < |blanks| ==> value[|kind| + 1 + i] == blanks[i];
    assert value[p] == key[0];
    BlanksSkipped(value, |kind| + 1, |blanks|);
    assert forall i :: 0 <= i < |key| ==> value[p + i] == key[i];
    IndexOfUnique(value, 61, p, p + |key|);
    assert value[p..p + |key|] == key;
  }

  lemma StartPieces(value: seq<octet>)
    requires BoundaryStart(value).Some?
    ensures var start := BoundaryStart(value).value;
            exists kind, blanks, key ::
              && EqualInsensitive(kind, FORM_DATA_TYPE) && Blanks(blanks) && EqualInsensitive(key, BOUNDARY)
              && value == kind + [59] + blanks + key + [61] + value[start..]
  {
    hide EqualInsensitive, FORM_DATA_TYPE, BOUNDARY, SkipBlanks, IndexOf;
    var semi := IndexOf(value, 59, 0);
    var p := SkipBlanks(value, semi + 1);
    var eq := IndexOf(value, 61, p);
    SkippedAreBlanks(value, semi + 1);
    var kind, blanks, key := value[..semi], value[semi + 1..p], value[p..eq];
    assert Blanks(blanks);
    PiecesJoin(value, semi, p, eq);
  }

  lemma PiecesJoin(value: seq<octet>, semi: nat, p: nat, eq: nat)
    requires semi < p <= eq < |value| && value[semi] == 59 && value[eq] == 61
    ensures value == value[..semi] + [59] + value[semi + 1..p] + value[p..eq] + [61] + value[eq + 1..]
  {
  }

  /** The boundary that the parser finds is the one that the value declares. */
  lemma DeclaredExact(value: seq<octet>, b: seq<octet>)
    ensures DeclaredBoundary(value) == Some(b) <==> Declares(value, b)
  {
    hide EqualInsensitive, FORM_DATA_TYPE, BOUNDARY, BoundaryStart, Unquoted, ValidBoundary, Blanks, Parameter;
    if DeclaredBoundary(value) == Some(b) {
      StartLength(value);
      StartPieces(value);
      UnquotedExact(value[BoundaryStart(value).value..], b);
    }
    if Declares(value, b) {
      var kind, blanks, key, text :|
        && EqualInsensitive(kind, FORM_DATA_TYPE) && Blanks(blanks) && EqualInsensitive(key, BOUNDARY)
        && Parameter(text, b) && value == kind + [59] + blanks + key + [61] + text;
      StartExact(kind, blanks, key, text);
      UnquotedExact(text, b);
    }
  }

  lemma StartLength(value: seq<octet>)
    requires BoundaryStart(value).Some?
    ensures |value| <= 127
  {
    hide EqualInsensitive, FORM_DATA_TYPE, BOUNDARY;
  }

  // ------------------------------------------------------------ the loop

  /** Copies the boundary character by character. `value` has no NUL bytes. */
  method ParseContentType(value: seq<octet>) returns (r: Option<seq<octet>>)
    ensures r == DeclaredBoundary(value)
  {
    hide BoundaryStart;
    var start := BoundaryStart(value);
    if start.None? {
      return None;
    }
    r := CopyBoundary(value[start.value..]);
  }

  lemma BoundaryParts(b: seq<octet>)
    ensures ValidBoundary(b) <==> 1 <= |b| <= 70 && b[|b| - 1] != 32 && forall i :: 0 <= i < |b| ==> BoundaryOctet(b[i])
  {
  }

  /** The declared value holds a character that ends it, or is too long: it is not a boundary. */
  lemma RejectedAt(text: seq<octet>, first: nat, p: nat)
    requires first == (if text != [] && text[0] == 34 then 1 else 0) <= p < |text|
    requires first == 1 ==> text[p] != 34
    requires p - first == 70 || !BoundaryOctet(text[p])
    ensures var b := Unquoted(text); b.None? || !ValidBoundary(b.value)
  {
    hide BoundaryOctet;
    var b := Unquoted(text);
    assert b.Some? ==> |b.value| > p - first && b.value[p - first] == text[p];
  }

  lemma QuoteInside(text: seq<octet>, p: nat)
    requires text != [] && text[0] == 34 && 1 <= p && p + 1 < |text| && text[p] == 34
    ensures var b := Unquoted(text); b.None? || !ValidBoundary(b.value)
  {
    var b := Unquoted(text);
    assert b.Some? ==> b.value[p - 1] == 34;
  }

  method CopyBoundary(text: seq<octet>) returns (r: Option<seq<octet>>)
    ensures var b := Unquoted(text); r == if b.Some? && ValidBoundary(b.value) then b else None
  {
    hide ValidBoundary, BoundaryOctet;
    ghost var b := Unquoted(text);
    var quoted := text != [] && text[0] == 34;
    var p := if quoted then 1 else 0;
    ghost var first := p;
    var boundary := [];
    while p < |text| && (!quoted || text[p] != 34)
      invariant first <= p <= |text|
      invariant boundary == text[first..p] && |boundary| <= 70
      invariant forall i :: 0 <= i < |boundary| ==> BoundaryOctet(boundary[i]) && (quoted ==> boundary[i] != 34)
    {
      if |boundary| == 70 || !BoundaryOctet(text[p]) {
        RejectedAt(text, first, p);
        return None;
      }
      boundary := boundary + [text[p]];
      p := p + 1;
    }
    if quoted {
      if p == |text| {
        assert forall i :: 0 <= i < |boundary| ==> boundary[i] == text[i + 1];
        assert |text| >= 2 ==> boundary[|text| - 2] == text[|text| - 1];
        return None;
      }
      if p + 1 < |text| {
        QuoteInside(text, p);
      }
      p := p + 1;
    }
    BoundaryParts(boundary);
    assert !quoted && p == |text| ==> boundary == text;
    assert quoted && p == |text| ==> text[|text| - 1] == 34 && boundary == text[1..|text| - 1];
    assert p == |text| ==> b == Some(boundary);
    if p < |text| || boundary == [] || boundary[|boundary| - 1] == 32 {
      return None;
    }
    return Some(boundary);
  }

  /** A valid boundary contains no CR, so it cannot straddle the end of a payload. */
  lemma ValidBoundaryCrFree(b: seq<octet>)
    requires ValidBoundary(b)
    ensures forall i :: 0 <= i < |b| ==> b[i] != CR && b[i] != LF
  {
    forall i | 0 <= i < |b| ensures b[i] != CR && b[i] != LF {
      assert BoundaryOctet(b[i]);
    }
  }

  // ------------------------------------------------------------ X-Firmware-Size

  predicate Digits(text: seq<octet>) {
    forall i :: 0 <= i < |text| ==> 48 <= text[i] <= 57
  }

  /** The number a digit string denotes. */
  function Decimal(text: seq<octet>): nat
    requires Digits(text)
  {
    if text == [] then 0 else 10 * Decimal(text[..|text| - 1]) + (text[|text| - 1] - 48)
  }

  lemma {:induction false} DecimalGrows(text: seq<octet>, k: nat)
    requires Digits(text) && k <= |text|
    ensures Decimal(text[..k]) <= Decimal(text)
    decreases |text|
  {
    if k < |text| {
      var most := text[..|text| - 1];
      assert most[..k] == text[..k];
      DecimalGrows(most, k);
    } else {
      assert text[..k] == text;
    }
  }

  /** One to ten digits whose value is positive and fits 32 bits; the guard inside the loop
      keeps every intermediate value within 32 bits. */
  method ParseFirmwareSize(text: seq<octet>) returns (r: Option<nat>)
    ensures r.Some? <==> 1 <= |text| <= 10 && Digits(text) && 1 <= Decimal(text) <= UINT32_MAX
    ensures r.Some? ==> r.value == Decimal(text)
  {
    if |text| == 0 || |text| > 10 {
      return None;
    }
    var result := 0;
    for i := 0 to |text|
      invariant Digits(text[..i]) && result == Decimal(text[..i]) <= UINT32_MAX
    {
      if text[i] < 48 || text[i] > 57 {
        return None;
      }
      var digit := text[i] - 48;
      assert text[..i + 1][..i] == text[..i];
      if result > (UINT32_MAX - digit) / 10 {
        if Digits(text) {
          DecimalGrows(text, i + 1);
        }
        return None;
      }
      result := result * 10 + digit;
    }
    assert text[..|text|] == text;
    return if result == 0 then None else Some(result);
  }
}
