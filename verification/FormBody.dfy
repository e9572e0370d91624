/** The form-encoded settings body: its checks, its lookup and its percent decoding. */
module FormBody {
  import opened Octets

  type bytes = seq<octet>

  const AMPERSAND: octet := 38
  const EQUALS: octet := 61
  const PERCENT: octet := 37
  const PLUS: octet := 43
  const SPACE: octet := 32

  // ------------------------------------------------------------ segments

  /** The stretches between ampersands. */
  function Segments(body: bytes): (segments: seq<bytes>)
    ensures |segments| > 0
    decreases |body|
  {
    var end := IndexOf(body, AMPERSAND, 0);
    if end == |body| then [body] else [body[..end]] + Segments(body[end + 1..])
  }

  function EqualsAt(segment: bytes): (k: nat)
    ensures k <= |segment|
  {
    IndexOf(segment, EQUALS, 0)
  }

  function KeyOf(segment: bytes): bytes {
    segment[..EqualsAt(segment)]
  }

  function ValueOf(segment: bytes): bytes {
    if EqualsAt(segment) < |segment| then segment[EqualsAt(segment) + 1..] else []
  }

  /** A key, an equals sign and a value. */
  predicate IsPair(segment: bytes) {
    0 < EqualsAt(segment) < |segment|
  }

  function FieldIndex(key: bytes, fields: seq<bytes>, from: nat): (index: Option<nat>)
    requires from <= |fields|
    ensures index.Some? ==> from <= index.value < |fields| && fields[index.value] == key
    ensures index.None? <==> forall i :: from <= i < |fields| ==> fields[i] != key
    decreases |fields| - from
  {
    if from == |fields| then None
    else if fields[from] == key then Some(from)
    else FieldIndex(key, fields, from + 1)
  }

  /** The indices of the first `n` fields. */
  function FirstIndices(n: nat): (indices: set<nat>)
    ensures forall i: nat :: i in indices <==> i < n
  {
    if n == 0 then {} else FirstIndices(n - 1) + {n - 1}
  }

  function AllFields(fields: seq<bytes>): set<nat> {
    FirstIndices(|fields|)
  }

  // ------------------------------------------------------------ the field set

  /** The loop over the segments, with the fields seen so far. */
  predicate CheckSegments(segments: seq<bytes>, fields: seq<bytes>, optional: set<nat>, seen: set<nat>) {
    if segments == [] then seen + optional == AllFields(fields)
    else
      var segment := segments[0];
      && IsPair(segment)
      && var index := FieldIndex(KeyOf(segment), fields, 0);
         index.Some? && index.value !in seen
         && CheckSegments(segments[1..], fields, optional, seen + {index.value})
  }

  predicate ValidFieldSet(body: bytes, fields: seq<bytes>, optional: set<nat>) {
    body != [] && |fields| <= 32 && CheckSegments(Segments(body), fields, optional, {})
  }

  /** The inner scans: the first `c` at or after `from`, or `end`. */
  method FindByte(body: bytes, c: octet, from: nat, end: nat) returns (k: nat)
    requires from <= end <= |body|
    ensures k == from + IndexOf(body[from..end], c, 0)
  {
    k := from;
    while k < end && body[k] != c
      invariant from <= k <= end
      invariant forall i :: from <= i < k ==> body[i] != c
    {
      k := k + 1;
    }
    ghost var part := body[from..end];
    assert forall i :: 0 <= i < k - from ==> part[i] == body[from + i];
    IndexOfUnique(part, c, 0, k - from);
  }

  lemma FirstSegment(body: bytes, start: nat, end: nat)
    requires start <= end <= |body| && end == start + IndexOf(body[start..], AMPERSAND, 0)
    ensures Segments(body[start..]) ==
            if end == |body| then [body[start..end]] else [body[start..end]] + Segments(body[end + 1..])
  {
    assert body[start..][..end - start] == body[start..end];
    if end < |body| {
      assert body[start..][end - start + 1..] == body[end + 1..];
    } else {
      assert body[start..end] == body[start..];
    }
  }

  lemma CheckFirst(first: bytes, rest: seq<bytes>, fields: seq<bytes>, optional: set<nat>, seen: set<nat>)
    ensures CheckSegments([first] + rest, fields, optional, seen) <==>
            && IsPair(first)
            && var index := FieldIndex(KeyOf(first), fields, 0);
               index.Some? && index.value !in seen && CheckSegments(rest, fields, optional, seen + {index.value})
  {
    assert ([first] + rest)[0] == first && ([first] + rest)[1..] == rest;
  }

  lemma EmptySegmentFails(fields: seq<bytes>, optional: set<nat>, seen: set<nat>)
    ensures Segments([]) == [[]] && !CheckSegments([[]], fields, optional, seen)
  {
  }

  method ValidateFieldSet(body: bytes, fields: seq<bytes>, optional: set<nat>) returns (ok: bool)
    ensures ok == ValidFieldSet(body, fields, optional)
  {
    hide CheckSegments, Segments, IndexOf, AllFields;
    if |body| == 0 || |fields| > 32 {
      return false;
    }
    var seen: set<nat> := {};
    var start := 0;
    assert body[0..] == body;
    while start < |body|
      invariant start < |body|
      invariant ValidFieldSet(body, fields, optional) == CheckSegments(Segments(body[start..]), fields, optional, seen)
      decreases |body| - start
    {
      var end := FindByte(body, AMPERSAND, start, |body|);
      assert body[start..|body|] == body[start..];
      FirstSegment(body, start, end);
      var segment := body[start..end];
      CheckFirst(segment, if end == |body| then [] else Segments(body[end + 1..]), fields, optional, seen);
      assert [segment] + [] == [segment];
      if end == start {
        return false;
      }
      var equals := FindByte(body, EQUALS, start, end);
      if equals == start || equals == end {
        return false;
      }
      assert KeyOf(segment) == body[start..equals];
      var index := FieldIndex(body[start..equals], fields, 0);
      if index.None? || index.value in seen {
        return false;
      }
      seen := seen + {index.value};
      if end == |body| {
        CheckNone(fields, optional, seen);
        break;
      }
      start := end + 1;
      if start == |body| {
        assert body[start..] == [];
        EmptySegmentFails(fields, optional, seen);
        return false;
      }
    }
    return seen + optional == AllFields(fields);
  }

  lemma CheckNone(fields: seq<bytes>, optional: set<nat>, seen: set<nat>)
    ensures CheckSegments([], fields, optional, seen) <==> seen + optional == AllFields(fields)
  {
  }

  // ------------------------------------------------------------ what an accepted body names

  predicate DistinctKeys(segments: seq<bytes>) {
    forall i, j :: 0 <= i < j < |segments| ==> KeyOf(segments[i]) != KeyOf(segments[j])
  }

  /** The fields that the segments name. */
  function Named(segments: seq<bytes>, fields: seq<bytes>): set<nat> {
    if segments == [] then {}
    else
      var index := FieldIndex(KeyOf(segments[0]), fields, 0);
      (if index.None? then {} else {index.value}) + Named(segments[1..], fields)
  }

  predicate AllPairs(segments: seq<bytes>, fields: seq<bytes>) {
    forall i :: 0 <= i < |segments| ==> IsPair(segments[i]) && KeyOf(segments[i]) in fields
  }

  lemma {:induction false} NamedExact(segments: seq<bytes>, fields: seq<bytes>, k: nat)
    ensures k in Named(segments, fields) <==>
            exists i :: 0 <= i < |segments| && FieldIndex(KeyOf(segments[i]), fields, 0) == Some(k)
    decreases |segments|
  {
    hide KeyOf;
    if segments != [] {
      var rest := segments[1..];
      NamedExact(rest, fields, k);
      if k in Named(rest, fields) {
        var i :| 0 <= i < |rest| && FieldIndex(KeyOf(rest[i]), fields, 0) == Some(k);
        assert segments[i + 1] == rest[i];
      }
      forall i | 0 <= i < |segments| && FieldIndex(KeyOf(segments[i]), fields, 0) == Some(k)
        ensures k in Named(segments, fields)
      {
        if i > 0 {
          assert rest[i - 1] == segments[i];
        }
      }
    }
  }

  /** The loop accepts exactly the segment lists whose keys are known, distinct from each other and
      from those seen, and complete with the optional ones. */
  lemma {:induction false} CheckExact(segments: seq<bytes>, fields: seq<bytes>, optional: set<nat>, seen: set<nat>)
    ensures CheckSegments(segments, fields, optional, seen) <==>
            && AllPairs(segments, fields) && DistinctKeys(segments)
            && Named(segments, fields) !! seen
            && seen + Named(segments, fields) + optional == AllFields(fields)
    decreases |segments|
  {
    hide KeyOf, IsPair, AllFields;
    if segments != [] {
      var first, rest := segments[0], segments[1..];
      assert segments == [first] + rest;
      CheckFirst(first, rest, fields, optional, seen);
      var index := FieldIndex(KeyOf(first), fields, 0);
      AllPairsSplit(first, rest, fields);
      if index.Some? {
        CheckExact(rest, fields, optional, seen + {index.value});
        NamedExact(rest, fields, index.value);
        if AllPairs(rest, fields) {
          DistinctSplit(first, rest, fields, index.value);
        }
        assert seen + {index.value} + Named(rest, fields) == seen + Named(segments, fields);
      }
    } else {
      assert seen + {} + optional == seen + optional;
    }
  }

  lemma AllPairsSplit(first: bytes, rest: seq<bytes>, fields: seq<bytes>)
    ensures AllPairs([first] + rest, fields) <==>
            IsPair(first) && FieldIndex(KeyOf(first), fields, 0).Some? && AllPairs(rest, fields)
  {
    hide KeyOf, IsPair;
    var all := [first] + rest;
    assert all[0] == first && forall i :: 0 <= i < |rest| ==> all[i + 1] == rest[i];
    assert forall i :: 0 < i < |all| ==> all[i] == rest[i - 1];
  }

  lemma DistinctSplit(first: bytes, rest: seq<bytes>, fields: seq<bytes>, index: nat)
    requires FieldIndex(KeyOf(first), fields, 0) == Some(index)
    requires AllPairs(rest, fields)
    requires index in Named(rest, fields) <==>
             exists i :: 0 <= i < |rest| && FieldIndex(KeyOf(rest[i]), fields, 0) == Some(index)
    ensures DistinctKeys([first] + rest) <==> DistinctKeys(rest) && index !in Named(rest, fields)
  {
    hide KeyOf, IsPair, Named;
    var all := [first] + rest;
    assert forall i :: 0 <= i < |rest| ==> all[i + 1] == rest[i];
    assert forall i :: 0 < i < |all| ==> all[i] == rest[i - 1];
    assert forall i :: 0 <= i < |rest| ==>
        (FieldIndex(KeyOf(rest[i]), fields, 0) == Some(index) <==> KeyOf(rest[i]) == KeyOf(first));
    if DistinctKeys(all) {
      forall i, j | 0 <= i < j < |rest| ensures KeyOf(rest[i]) != KeyOf(rest[j]) {
        assert all[i + 1] == rest[i] && all[j + 1] == rest[j];
      }
      forall i | 0 <= i < |rest| ensures KeyOf(rest[i]) != KeyOf(first) {
        assert all[i + 1] == rest[i] && all[0] == first;
      }
    }
  }

  /** An accepted body names each required field exactly once, and no field it does not know. */
  lemma AcceptedBody(body: bytes, fields: seq<bytes>, optional: set<nat>)
    ensures ValidFieldSet(body, fields, optional) <==>
            && body != [] && |fields| <= 32
            && AllPairs(Segments(body), fields) && DistinctKeys(Segments(body))
            && Named(Segments(body), fields) + optional == AllFields(fields)
  {
    hide Segments, AllPairs, DistinctKeys, Named, AllFields, CheckSegments;
    var segments := Segments(body);
    CheckExact(segments, fields, optional, {});
    assert {} + Named(segments, fields) + optional == Named(segments, fields) + optional;
  }

  // ------------------------------------------------------------ lookup

  /** The value of the first segment with this key. */
  function Lookup(segments: seq<bytes>, key: bytes): Option<bytes> {
    if segments == [] then None
    else if EqualsAt(segments[0]) < |segments[0]| && KeyOf(segments[0]) == key then Some(ValueOf(segments[0]))
    else Lookup(segments[1..], key)
  }

  method FindValue(body: bytes, key: bytes) returns (value: Option<bytes>)
    ensures value == Lookup(Segments(body), key)
  {
    hide Segments, IndexOf, Lookup;
    var start := 0;
    assert body[0..] == body;
    while start < |body|
      invariant start <= |body| ==> Lookup(Segments(body), key) == Lookup(Segments(body[start..]), key)
      invariant start > |body| ==> Lookup(Segments(body), key) == None
      decreases |body| - start
    {
      var end := FindByte(body, AMPERSAND, start, |body|);
      assert body[start..|body|] == body[start..];
      FirstSegment(body, start, end);
      var segment := body[start..end];
      LookupFirst(segment, if end == |body| then [] else Segments(body[end + 1..]), key);
      assert [segment] + [] == [segment];
      var equals := FindByte(body, EQUALS, start, end);
      assert KeyOf(segment) == body[start..equals];
      if equals < end && equals - start == |key| && body[start..equals] == key {
        assert ValueOf(segment) == body[equals + 1..end];
        return Some(body[equals + 1..end]);
      }
      start := end + 1;
    }
    if start == |body| {
      assert body[start..] == [];
      NothingInEmpty(key);
    }
    return None;
  }

  lemma LookupFirst(first: bytes, rest: seq<bytes>, key: bytes)
    ensures Lookup([first] + rest, key) ==
            if EqualsAt(first) < |first| && KeyOf(first) == key then Some(ValueOf(first)) else Lookup(rest, key)
    ensures Lookup([], key) == None
  {
    assert ([first] + rest)[0] == first && ([first] + rest)[1..] == rest;
  }

  lemma NothingInEmpty(key: bytes)
    ensures Lookup(Segments([]), key) == None
  {
  }

  /** The segment is the key, an equals sign and whatever follows. */
  predicate Sets(segment: bytes, key: bytes, value: bytes) {
    EQUALS !in key && segment == key + [EQUALS] + value
  }

  lemma SetsExact(segment: bytes, key: bytes, value: bytes)
    ensures Sets(segment, key, value) <==>
            EqualsAt(segment) < |segment| && KeyOf(segment) == key && ValueOf(segment) == value
  {
    if Sets(segment, key, value) {
      assert forall i :: 0 <= i < |key| ==> segment[i] == key[i];
      IndexOfUnique(segment, EQUALS, 0, |key|);
    }
  }

  /** Segment `i` is the first that sets the key, and it sets it to this value. */
  ghost predicate FirstSet(segments: seq<bytes>, key: bytes, value: bytes, i: nat) {
    && i < |segments| && Sets(segments[i], key, value)
    && forall j, other :: 0 <= j < i ==> !Sets(segments[j], key, other)
  }

  lemma FirstSetSplit(first: bytes, rest: seq<bytes>, key: bytes, value: bytes)
    ensures (exists i: nat :: FirstSet([first] + rest, key, value, i)) <==>
            || Sets(first, key, value)
            || ((forall other :: !Sets(first, key, other)) && exists i: nat :: FirstSet(rest, key, value, i))
  {
    hide Sets;
    var all := [first] + rest;
    assert all[0] == first && forall i :: 0 <= i < |rest| ==> all[i + 1] == rest[i];
    if Sets(first, key, value) {
      assert FirstSet(all, key, value, 0);
    }
    forall i: nat | FirstSet(rest, key, value, i) && forall other :: !Sets(first, key, other)
      ensures FirstSet(all, key, value, i + 1)
    {
      assert forall j :: 0 < j < i + 1 ==> all[j] == rest[j - 1];
    }
    forall i: nat | FirstSet(all, key, value, i) && i > 0
      ensures FirstSet(rest, key, value, i - 1) && forall other :: !Sets(first, key, other)
    {
      assert all[i] == rest[i - 1];
    }
  }

  lemma NothingFirst(key: bytes, value: bytes)
    ensures forall i: nat :: !FirstSet([], key, value, i)
  {
  }

  /** The first segment that sets the key gives the value; without one there is none. */
  lemma {:induction false} LookupExact(segments: seq<bytes>, key: bytes, value: bytes)
    ensures Lookup(segments, key) == Some(value) <==>
            exists i: nat :: FirstSet(segments, key, value, i)
    decreases |segments|
  {
    hide Sets, KeyOf, ValueOf, EqualsAt, FirstSet;
    if segments != [] {
      var first, rest := segments[0], segments[1..];
      assert segments == [first] + rest;
      SetsExact(first, key, value);
      SetsExact(first, key, ValueOf(first));
      forall other ensures Sets(first, key, other) ==> other == ValueOf(first) {
        SetsExact(first, key, other);
      }
      LookupExact(rest, key, value);
      FirstSetSplit(first, rest, key, value);
    } else {
      NothingFirst(key, value);
    }
  }

  /** Among pairs with distinct keys the lookup finds the only one with its key. */
  lemma {:induction false} LookupOnly(segments: seq<bytes>, i: nat)
    requires i < |segments| && IsPair(segments[i]) && DistinctKeys(segments)
    ensures Lookup(segments, KeyOf(segments[i])) == Some(ValueOf(segments[i]))
    decreases |segments|
  {
    hide KeyOf, ValueOf;
    if i > 0 {
      var rest := segments[1..];
      assert forall k :: 0 <= k < |rest| ==> rest[k] == segments[k + 1];
      LookupOnly(rest, i - 1);
      assert KeyOf(segments[0]) != KeyOf(segments[i]);
    }
  }

  // ------------------------------------------------------------ percent encoding

  function HexValue(c: octet): Option<nat> {
    if 48 <= c <= 57 then Some(c - 48)
    else if 97 <= c <= 102 then Some(c - 97 + 10)
    else if 65 <= c <= 70 then Some(c - 65 + 10)
    else None
  }

  /** The escapes of a body are whole, hexadecimal and not NUL, and no byte is NUL. */
  predicate ValidEscapes(text: bytes) {
    if text == [] then true
    else if text[0] == 0 then false
    else if text[0] != PERCENT then ValidEscapes(text[1..])
    else
      && |text| >= 3
      && HexValue(text[1]).Some? && HexValue(text[2]).Some?
      && HexValue(text[1]).value * 16 + HexValue(text[2]).value != 0
      && ValidEscapes(text[3..])
  }

  method ValidEncoding(body: bytes) returns (ok: bool)
    ensures ok <==> body != [] && ValidEscapes(body)
  {
    hide HexValue;
    if |body| == 0 {
      return false;
    }
    var i := 0;
    assert body[0..] == body;
    while i < |body|
      invariant i <= |body|
      invariant ValidEscapes(body) == ValidEscapes(body[i..])
    {
      ghost var rest := body[i..];
      assert rest[1..] == body[i + 1..];
      if body[i] == 0 {
        return false;
      }
      if body[i] == PERCENT {
        if i + 2 >= |body| {
          return false;
        }
        assert rest[3..] == body[i + 3..];
        var high, low := HexValue(body[i + 1]), HexValue(body[i + 2]);
        if high.None? || low.None? || high.value * 16 + low.value == 0 {
          return false;
        }
        i := i + 2;
      }
      i := i + 1;
    }
    return true;
  }

  /** The decoded bytes, without regard to space. */
  function Decoded(text: bytes): Option<bytes> {
    if text == [] then Some([])
    else if text[0] != PERCENT then
      var rest := Decoded(text[1..]);
      if rest.None? then None else Some([if text[0] == PLUS then SPACE else text[0]] + rest.value)
    else if |text| < 3 || HexValue(text[1]).None? || HexValue(text[2]).None? then None
    else
      var value := HexByte(text[1], text[2]);
      var rest := Decoded(text[3..]);
      if value == 0 || rest.None? then None else Some([value] + rest.value)
  }

  function HexByte(high: octet, low: octet): octet
    requires HexValue(high).Some? && HexValue(low).Some?
  {
    HexValue(high).value * 16 + HexValue(low).value
  }

  /** Decoding into a buffer that also takes a terminator. */
  method Decode(input: bytes, output: array<octet>, capacity: nat) returns (ok: bool, written: nat)
    requires capacity <= output.Length
    modifies output
    ensures ok <==> Decoded(input).Some? && |Decoded(input).value| < capacity
    ensures ok ==> written < capacity && output[..written] == Decoded(input).value && output[written] == 0
  {
    hide HexValue, HexByte;
    if capacity == 0 {
      return false, 0;
    }
    written := 0;
    var i := 0;
    ghost var whole := Decoded(input);
    assert input[0..] == input && (whole.Some? ==> output[..0] + whole.value == whole.value);
    while i < |input|
      invariant i <= |input| && written < capacity
      invariant whole == (var rest := Decoded(input[i..]);
                          if rest.None? then None else Some(output[..written] + rest.value))
    {
      ghost var rest, before := input[i..], output[..written];
      assert rest[1..] == input[i + 1..];
      var value := input[i];
      if value == PLUS {
        value := SPACE;
      } else if value == PERCENT {
        if i + 2 >= |input| {
          return false, written;
        }
        assert rest[3..] == input[i + 3..];
        if HexValue(input[i + 1]).None? || HexValue(input[i + 2]).None? {
          return false, written;
        }
        value := HexByte(input[i + 1], input[i + 2]);
        i := i + 2;
        if value == 0 {
          return false, written;
        }
      }
      assert Decoded(rest) == (var more := Decoded(input[i + 1..]);
                               if more.None? then None else Some([value] + more.value));
      if written + 1 >= capacity {
        return false, written;
      }
      output[written] := value;
      written := written + 1;
      assert output[..written] == before + [value];
      Associates(before, [value], Decoded(input[i + 1..]));
      i := i + 1;
    }
    assert output[..written] + [] == output[..written];
    output[written] := 0;
    assert output[..written] == whole.value;
    return true, written;
  }

  lemma Associates(a: bytes, b: bytes, c: Option<bytes>)
    ensures c.Some? ==> a + (b + c.value) == (a + b) + c.value
  {
  }

  // ------------------------------------------------------------ the printer

  /** Which bytes a printer leaves as they are: never NUL, ampersand, percent or plus. */
  predicate Safe(plain: octet -> bool) {
    !plain(0) && !plain(AMPERSAND) && !plain(PERCENT) && !plain(PLUS)
  }

  function HexDigit(n: nat): octet
    requires n < 16
  {
    if n < 10 then 48 + n else 65 + (n - 10)
  }

  function EscapeByte(plain: octet -> bool, c: octet): bytes {
    if plain(c) then [c] else [PERCENT, HexDigit(c / 16), HexDigit(c % 16)]
  }

  function Escape(plain: octet -> bool, value: bytes): bytes {
    if value == [] then [] else EscapeByte(plain, value[0]) + Escape(plain, value[1..])
  }

  datatype Setting = Setting(index: nat, value: bytes)

  function Join(segments: seq<bytes>): bytes
    requires segments != []
  {
    if |segments| == 1 then segments[0] else segments[0] + [AMPERSAND] + Join(segments[1..])
  }

  function PrintSetting(plain: octet -> bool, fields: seq<bytes>, s: Setting): bytes
    requires s.index < |fields|
  {
    fields[s.index] + [EQUALS] + Escape(plain, s.value)
  }

  predicate Known(fields: seq<bytes>, settings: seq<Setting>) {
    forall i :: 0 <= i < |settings| ==> settings[i].index < |fields|
  }

  function PrintAll(plain: octet -> bool, fields: seq<bytes>, settings: seq<Setting>): (segments: seq<bytes>)
    requires Known(fields, settings)
    ensures |segments| == |settings|
    ensures forall i :: 0 <= i < |settings| ==> segments[i] == PrintSetting(plain, fields, settings[i])
  {
    seq(|settings|, i requires 0 <= i < |settings| => PrintSetting(plain, fields, settings[i]))
  }

  // ------------------------------------------------------------ decoding undoes printing

  lemma HexRoundTrip(n: nat)
    requires n < 16
    ensures HexValue(HexDigit(n)) == Some(n)
    ensures HexDigit(n) !in {0, AMPERSAND, PERCENT, EQUALS}
  {
  }

  lemma EscapeByteDecodes(plain: octet -> bool, c: octet, rest: bytes)
    requires Safe(plain) && c != 0
    ensures var text := EscapeByte(plain, c) + rest;
            && Decoded(text) == (if Decoded(rest).None? then None else Some([c] + Decoded(rest).value))
            && ValidEscapes(text) == ValidEscapes(rest)
  {
    hide HexValue, HexDigit;
    var text := EscapeByte(plain, c) + rest;
    if plain(c) {
      assert text[1..] == rest;
    } else {
      HexRoundTrip(c / 16);
      HexRoundTrip(c % 16);
      assert text[1] == HexDigit(c / 16) && text[2] == HexDigit(c % 16) && text[3..] == rest;
      assert HexByte(text[1], text[2]) == c;
    }
  }

  predicate NulFree(value: bytes) {
    forall i :: 0 <= i < |value| ==> value[i] != 0
  }

  lemma {:induction false} EscapeDecodes(plain: octet -> bool, value: bytes, rest: bytes)
    requires Safe(plain) && NulFree(value)
    ensures Decoded(Escape(plain, value)) == Some(value)
    ensures ValidEscapes(Escape(plain, value) + rest) == ValidEscapes(rest)
    decreases |value|
  {
    hide EscapeByte, Decoded, ValidEscapes;
    if value != [] {
      var more := Escape(plain, value[1..]);
      EscapeDecodes(plain, value[1..], rest);
      EscapeByteDecodes(plain, value[0], more);
      EscapeByteDecodes(plain, value[0], more + rest);
      assert EscapeByte(plain, value[0]) + more + rest == EscapeByte(plain, value[0]) + (more + rest);
      assert [value[0]] + value[1..] == value;
    } else {
      assert Escape(plain, value) + rest == rest;
      assert Decoded([]) == Some([]) by {
        DecodedEmpty();
      }
    }
  }

  lemma DecodedEmpty()
    ensures Decoded([]) == Some([])
  {
  }

  /** A field name that can stand in a body as it is. */
  predicate PlainName(name: bytes) {
    name != [] && forall i :: 0 <= i < |name| ==> name[i] !in {0, AMPERSAND, PERCENT, EQUALS}
  }

  lemma {:induction false} NameEscapes(name: bytes, rest: bytes)
    requires forall i :: 0 <= i < |name| ==> name[i] !in {0, AMPERSAND, PERCENT, EQUALS}
    ensures ValidEscapes(name + [EQUALS] + rest) == ValidEscapes(rest)
    decreases |name|
  {
    var text := name + [EQUALS] + rest;
    if name == [] {
      assert text[1..] == rest;
    } else {
      assert text[1..] == name[1..] + [EQUALS] + rest;
      NameEscapes(name[1..], rest);
    }
  }

  lemma {:induction false} EscapeHasNoSeparator(plain: octet -> bool, value: bytes)
    requires Safe(plain)
    ensures AMPERSAND !in Escape(plain, value)
    decreases |value|
  {
    if value != [] {
      EscapeHasNoSeparator(plain, value[1..]);
      HexRoundTrip(value[0] / 16);
      HexRoundTrip(value[0] % 16);
    }
  }

  lemma PrintedParts(plain: octet -> bool, fields: seq<bytes>, s: Setting)
    requires Safe(plain) && s.index < |fields| && PlainName(fields[s.index])
    ensures var segment := PrintSetting(plain, fields, s);
            && IsPair(segment) && KeyOf(segment) == fields[s.index] && ValueOf(segment) == Escape(plain, s.value)
            && AMPERSAND !in segment
  {
    hide Escape, IndexOf;
    var name, value := fields[s.index], Escape(plain, s.value);
    var segment := PrintSetting(plain, fields, s);
    EscapeHasNoSeparator(plain, s.value);
    assert forall i :: 0 <= i < |name| ==> segment[i] == name[i];
    IndexOfUnique(segment, EQUALS, 0, |name|);
    assert segment[..|name|] == name && segment[|name| + 1..] == value;
  }

  lemma {:induction false} SegmentsOfJoin(segments: seq<bytes>)
    requires segments != [] && forall i :: 0 <= i < |segments| ==> AMPERSAND !in segments[i]
    ensures Segments(Join(segments)) == segments
    decreases |segments|
  {
    hide IndexOf;
    var first, body := segments[0], Join(segments);
    if |segments| == 1 {
      IndexOfUnique(body, AMPERSAND, 0, |body|);
    } else {
      var rest := segments[1..];
      assert forall i :: 0 <= i < |rest| ==> rest[i] == segments[i + 1];
      SegmentsOfJoin(rest);
      assert forall i :: 0 <= i < |first| ==> body[i] == first[i];
      IndexOfUnique(body, AMPERSAND, 0, |first|);
      assert body[..|first|] == first && body[|first| + 1..] == Join(rest);
      assert segments == [first] + rest;
    }
  }

  lemma {:induction false} JoinEscapes(plain: octet -> bool, fields: seq<bytes>, settings: seq<Setting>)
    requires Safe(plain) && settings != [] && Known(fields, settings)
    requires forall i :: 0 <= i < |settings| ==> PlainName(fields[settings[i].index]) && NulFree(settings[i].value)
    ensures ValidEscapes(Join(PrintAll(plain, fields, settings)))
    decreases |settings|
  {
    hide Escape, ValidEscapes, PlainName, NulFree;
    var s, rest := settings[0], settings[1..];
    var segments := PrintAll(plain, fields, settings);
    var name, value := fields[s.index], Escape(plain, s.value);
    assert PlainName(name) && NulFree(s.value);
    PlainNameBytes(name);
    EmptyEscapes();
    if rest == [] {
      EscapeDecodes(plain, s.value, []);
      assert value + [] == value;
      NameEscapes(name, value);
    } else {
      assert forall i :: 0 <= i < |rest| ==> rest[i] == settings[i + 1];
      JoinEscapes(plain, fields, rest);
      assert segments[1..] == PrintAll(plain, fields, rest);
      var more := Join(segments[1..]);
      AmpersandEscapes(more);
      EscapeDecodes(plain, s.value, [AMPERSAND] + more);
      NameEscapes(name, value + ([AMPERSAND] + more));
      assert Join(segments) == name + [EQUALS] + (value + ([AMPERSAND] + more));
    }
  }

  lemma PlainNameBytes(name: bytes)
    requires PlainName(name)
    ensures forall i :: 0 <= i < |name| ==> name[i] !in {0, AMPERSAND, PERCENT, EQUALS}
  {
  }

  lemma EmptyEscapes()
    ensures ValidEscapes([])
  {
  }

  lemma AmpersandEscapes(rest: bytes)
    ensures ValidEscapes([AMPERSAND] + rest) == ValidEscapes(rest)
  {
    assert ([AMPERSAND] + rest)[1..] == rest;
  }

  // ------------------------------------------------------------ the round trip

  predicate DistinctFields(fields: seq<bytes>) {
    forall i, j :: 0 <= i < j < |fields| ==> fields[i] != fields[j]
  }

  predicate DistinctSettings(settings: seq<Setting>) {
    forall i, j :: 0 <= i < j < |settings| ==> settings[i].index != settings[j].index
  }

  function Indices(settings: seq<Setting>): set<nat> {
    set i | 0 <= i < |settings| :: settings[i].index
  }

  lemma IndexOfField(fields: seq<bytes>, k: nat)
    requires k < |fields| && DistinctFields(fields)
    ensures FieldIndex(fields[k], fields, 0) == Some(k)
  {
  }

  lemma NamedByPrinter(plain: octet -> bool, fields: seq<bytes>, settings: seq<Setting>)
    requires Safe(plain) && Known(fields, settings) && DistinctFields(fields)
    requires forall i :: 0 <= i < |fields| ==> PlainName(fields[i])
    ensures Named(PrintAll(plain, fields, settings), fields) == Indices(settings)
  {
    hide PrintSetting, KeyOf, IsPair, Named, FieldIndex, Indices;
    var segments := PrintAll(plain, fields, settings);
    forall i | 0 <= i < |settings| ensures FieldIndex(KeyOf(segments[i]), fields, 0) == Some(settings[i].index) {
      PrintedParts(plain, fields, settings[i]);
      IndexOfField(fields, settings[i].index);
    }
    forall k | k in Named(segments, fields) ensures k in Indices(settings) {
      var i := NamedBy(segments, fields, k);
      IndexIn(settings, i);
    }
    forall k | k in Indices(settings) ensures k in Named(segments, fields) {
      var i := IndexOfSetting(settings, k);
      NamesField(segments, fields, i, k);
    }
  }

  /** A named field, with the segment that names it. */
  lemma NamedBy(segments: seq<bytes>, fields: seq<bytes>, k: nat) returns (i: nat)
    requires k in Named(segments, fields)
    ensures i < |segments| && FieldIndex(KeyOf(segments[i]), fields, 0) == Some(k)
  {
    hide KeyOf, FieldIndex, Named;
    NamedExact(segments, fields, k);
    i :| 0 <= i < |segments| && FieldIndex(KeyOf(segments[i]), fields, 0) == Some(k);
  }

  lemma NamesField(segments: seq<bytes>, fields: seq<bytes>, i: nat, k: nat)
    requires i < |segments| && FieldIndex(KeyOf(segments[i]), fields, 0) == Some(k)
    ensures k in Named(segments, fields)
  {
    hide KeyOf, FieldIndex, Named;
    NamedExact(segments, fields, k);
  }

  lemma IndexIn(settings: seq<Setting>, i: nat)
    requires i < |settings|
    ensures settings[i].index in Indices(settings)
  {
  }

  lemma IndexOfSetting(settings: seq<Setting>, k: nat) returns (i: nat)
    requires k in Indices(settings)
    ensures i < |settings| && settings[i].index == k
  {
    i :| 0 <= i < |settings| && settings[i].index == k;
  }

  /** Printing any NUL-free values, in any order of the fields and with any choice of plain bytes,
      gives a body that is accepted, in which every key finds its own value, and whose values decode
      to the ones printed. */
  lemma PrintedBodyParses(plain: octet -> bool, fields: seq<bytes>, optional: set<nat>, settings: seq<Setting>)
    requires Safe(plain) && settings != [] && Known(fields, settings)
    requires |fields| <= 32 && DistinctFields(fields) && forall i :: 0 <= i < |fields| ==> PlainName(fields[i])
    requires DistinctSettings(settings) && Indices(settings) + optional == AllFields(fields)
    requires forall i :: 0 <= i < |settings| ==> NulFree(settings[i].value)
    ensures var body := Join(PrintAll(plain, fields, settings));
            && ValidEscapes(body) && ValidFieldSet(body, fields, optional)
            && (forall i :: 0 <= i < |settings| ==>
                  var found := Lookup(Segments(body), fields[settings[i].index]);
                  found.Some? && Decoded(found.value) == Some(settings[i].value))
  {
    hide PrintSetting, KeyOf, ValueOf, IsPair, Segments, Join, Named, Indices, AllFields, Decoded, ValidEscapes,
         Lookup, NulFree, PlainName, Escape;
    var segments := PrintAll(plain, fields, settings);
    var body := Join(segments);
    forall i | 0 <= i < |settings|
      ensures AMPERSAND !in segments[i] && IsPair(segments[i]) && KeyOf(segments[i]) == fields[settings[i].index]
      ensures ValueOf(segments[i]) == Escape(plain, settings[i].value)
      ensures Decoded(Escape(plain, settings[i].value)) == Some(settings[i].value)
    {
      PrintedParts(plain, fields, settings[i]);
      EscapeDecodes(plain, settings[i].value, []);
    }
    SegmentsOfJoin(segments);
    JoinEscapes(plain, fields, settings);
    NamedByPrinter(plain, fields, settings);
    JoinNotEmpty(segments);
    AcceptedBody(body, fields, optional);
    forall i | 0 <= i < |settings|
      ensures Lookup(segments, fields[settings[i].index]) == Some(ValueOf(segments[i]))
    {
      LookupOnly(segments, i);
    }
  }

  lemma JoinNotEmpty(segments: seq<bytes>)
    requires segments != [] && IsPair(segments[0])
    ensures Join(segments) != []
  {
  }
}
