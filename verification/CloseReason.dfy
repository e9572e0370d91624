/** Close frames of the realtime channel: the UTF-8 check of the reason (section 4 of RFC 3629) and
    the handling of control frames. */
module CloseReason {
  import opened Octets

  // ------------------------------------------------------------ the encoding, from its definition

  /** A Unicode scalar value: a code point that is not a surrogate. */
  type scalar = c: int | 0 <= c < 0xD800 || 0xE000 <= c < 0x11_0000

  function Encode(c: scalar): (bytes: seq<octet>)
    ensures 1 <= |bytes| <= 4
  {
    if c < 0x80 then [c]
    else if c < 0x800 then [0xC0 + c / 0x40, 0x80 + c % 0x40]
    else if c < 0x1_0000 then [0xE0 + c / 0x1000, 0x80 + c / 0x40 % 0x40, 0x80 + c % 0x40]
    else [0xF0 + c / 0x4_0000, 0x80 + c / 0x1000 % 0x40, 0x80 + c / 0x40 % 0x40, 0x80 + c % 0x40]
  }

  function EncodeAll(text: seq<scalar>): seq<octet> {
    if text == [] then [] else Encode(text[0]) + EncodeAll(text[1..])
  }

  // ------------------------------------------------------------ the check, one character at a time

  /** Bytes to follow a lead byte and the bounds of the first of them; None for a byte that
      cannot lead. */
  function Trailing(lead: octet): Option<(nat, octet, octet)> {
    if lead < 0x80 then Some((0, 0x80, 0xBF))
    else if 0xC2 <= lead <= 0xDF then Some((1, 0x80, 0xBF))
    else if 0xE0 <= lead <= 0xEF then
      Some((2, if lead == 0xE0 then 0xA0 else 0x80, if lead == 0xED then 0x9F else 0xBF))
    else if 0xF0 <= lead <= 0xF4 then
      Some((3, if lead == 0xF0 then 0x90 else 0x80, if lead == 0xF4 then 0x8F else 0xBF))
    else None
  }

  /** The number of bytes of the character that the text begins with, or None. */
  function FirstCharacter(text: seq<octet>): (n: Option<nat>)
    ensures n.Some? ==> 1 <= n.value <= |text|
  {
    if text == [] || Trailing(text[0]).None? then None
    else
      var (trailing, low, high) := Trailing(text[0]).value;
      if |text| < 1 + trailing then None
      else if trailing > 0 && !(low <= text[1] <= high) then None
      else if exists i :: 2 <= i <= trailing && !(0x80 <= text[i] <= 0xBF) then None
      else Some(1 + trailing)
  }

  predicate ValidText(text: seq<octet>)
    decreases |text|
  {
    text == [] || (FirstCharacter(text).Some? && ValidText(text[FirstCharacter(text).value..]))
  }

  /** The scan with its offset accepts exactly the texts that split into characters. */
  method ValidCloseReason(text: seq<octet>) returns (ok: bool)
    ensures ok == ValidText(text)
  {
    hide FirstCharacter;
    var offset := 0;
    while offset < |text|
      invariant offset <= |text|
      invariant ValidText(text) == ValidText(text[offset..])
    {
      ghost var rest := text[offset..];
      var valid, next := ScanCharacter(text, offset);
      if !valid {
        return false;
      }
      assert rest[next - offset..] == text[next..];
      offset := next;
    }
    return true;
  }

  /** The number of trailing bytes and the bounds of the first, found by ranges. */
  method ReadLead(lead: octet) returns (valid: bool, trailing: nat, firstMin: octet, firstMax: octet)
    ensures Trailing(lead) == if valid then Some((trailing, firstMin, firstMax)) else None
  {
    valid, trailing, firstMin, firstMax := true, 0, 0x80, 0xBF;
    if lead < 0x80 {
    } else if 0xC2 <= lead <= 0xDF {
      trailing := 1;
    } else if 0xE0 <= lead <= 0xEF {
      trailing := 2;
      if lead == 0xE0 { firstMin := 0xA0; }
      if lead == 0xED { firstMax := 0x9F; }
    } else if 0xF0 <= lead <= 0xF4 {
      trailing := 3;
      if lead == 0xF0 { firstMin := 0x90; }
      if lead == 0xF4 { firstMax := 0x8F; }
    } else {
      valid := false;
    }
  }

  method ScanCharacter(text: seq<octet>, start: nat) returns (ok: bool, offset: nat)
    requires start < |text|
    ensures var first := FirstCharacter(text[start..]);
            ok == first.Some? && (ok ==> offset == start + first.value)
  {
    hide Trailing;
    ghost var rest := text[start..];
    offset := start + 1;
    var valid, trailing, firstMin, firstMax := ReadLead(text[start]);
    if !valid {
      return false, offset;
    }
    if trailing == 0 {
      return true, offset;
    }
    if |text| - offset < trailing {
      return false, offset;
    }
    assert text[offset] == rest[1];
    if text[offset] < firstMin || text[offset] > firstMax {
      return false, offset;
    }
    offset := offset + 1;
    for i := 1 to trailing
      invariant offset == start + 1 + i
      invariant forall k :: 2 <= k <= i ==> 0x80 <= rest[k] <= 0xBF
    {
      assert text[offset] == rest[i + 1];
      if text[offset] < 0x80 || text[offset] > 0xBF {
        return false, offset;
      }
      offset := offset + 1;
    }
    return true, offset;
  }

  // ------------------------------------------------------------ exactness

  /** An encoded scalar is recognised with its length, whatever follows. */
  lemma EncodedIsFirst(c: scalar, rest: seq<octet>)
    ensures FirstCharacter(Encode(c) + rest) == Some(|Encode(c)|)
  {
    var text := Encode(c) + rest;
    EncodedTrailing(c);
    assert forall i :: 0 <= i < |Encode(c)| ==> text[i] == Encode(c)[i];
  }

  /** The bytes of an encoding: the lead announces the others, and each is in its bounds. */
  lemma EncodedTrailing(c: scalar)
    ensures var e := Encode(c);
            && Trailing(e[0]).Some? && Trailing(e[0]).value.0 == |e| - 1
            && (|e| > 1 ==> Trailing(e[0]).value.1 <= e[1] <= Trailing(e[0]).value.2)
            && (forall i :: 2 <= i < |e| ==> 0x80 <= e[i] <= 0xBF)
  {
    if c >= 0x80 {
      if c < 0x800 {
        TwoBytes(c);
      } else if c < 0x1_0000 {
        ThreeBytes(c);
      } else {
        FourBytes(c);
      }
    }
  }

  lemma TwoBytes(c: scalar)
    requires 0x80 <= c < 0x800
    ensures 0xC2 <= 0xC0 + c / 0x40 <= 0xDF
  {
  }

  lemma ThreeBytes(c: scalar)
    requires 0x800 <= c < 0x1_0000
    ensures var lead, second := 0xE0 + c / 0x1000, 0x80 + c / 0x40 % 0x40;
            && 0xE0 <= lead <= 0xEF && (lead == 0xE0 ==> second >= 0xA0) && (lead == 0xED ==> second <= 0x9F)
            && 0x80 <= second <= 0xBF
  {
    assert c / 0x40 == c / 0x1000 * 0x40 + c / 0x40 % 0x40;
  }

  lemma FourBytes(c: scalar)
    requires 0x1_0000 <= c
    ensures var lead, second := 0xF0 + c / 0x4_0000, 0x80 + c / 0x1000 % 0x40;
            && 0xF0 <= lead <= 0xF4 && (lead == 0xF0 ==> second >= 0x90) && (lead == 0xF4 ==> second <= 0x8F)
            && 0x80 <= second <= 0xBF
  {
    assert c / 0x1000 == c / 0x4_0000 * 0x40 + c / 0x1000 % 0x40;
  }

  /** Number of the six payload bits of a trailing byte. */
  function Tail(b: octet): int {
    b - 0x80
  }

  lemma DecodeTwo(lead: octet, b1: octet) returns (c: scalar)
    requires 0xC2 <= lead <= 0xDF && 0x80 <= b1 <= 0xBF
    ensures Encode(c) == [lead, b1]
  {
    c := (lead as int - 0xC0) * 0x40 + Tail(b1);
    assert c / 0x40 == lead - 0xC0 && c % 0x40 == Tail(b1);
  }

  lemma DecodeThree(lead: octet, b1: octet, b2: octet) returns (c: scalar)
    requires 0xE0 <= lead <= 0xEF && 0x80 <= b1 <= 0xBF && 0x80 <= b2 <= 0xBF
    requires (lead == 0xE0 ==> b1 >= 0xA0) && (lead == 0xED ==> b1 <= 0x9F)
    ensures Encode(c) == [lead, b1, b2]
  {
    var top: int := lead - 0xE0;
    c := (top * 0x40 + Tail(b1)) * 0x40 + Tail(b2);
    assert c / 0x40 == top * 0x40 + Tail(b1) && c % 0x40 == Tail(b2);
    assert c / 0x1000 == top;
  }

  lemma DecodeFour(lead: octet, b1: octet, b2: octet, b3: octet) returns (c: scalar)
    requires 0xF0 <= lead <= 0xF4 && 0x80 <= b1 <= 0xBF && 0x80 <= b2 <= 0xBF && 0x80 <= b3 <= 0xBF
    requires (lead == 0xF0 ==> b1 >= 0x90) && (lead == 0xF4 ==> b1 <= 0x8F)
    ensures Encode(c) == [lead, b1, b2, b3]
  {
    var top: int := lead - 0xF0;
    c := ((top * 0x40 + Tail(b1)) * 0x40 + Tail(b2)) * 0x40 + Tail(b3);
    assert c / 0x40 == (top * 0x40 + Tail(b1)) * 0x40 + Tail(b2) && c % 0x40 == Tail(b3);
    assert c / 0x1000 == top * 0x40 + Tail(b1);
    assert c / 0x4_0000 == top;
  }

  /** A recognised character is the encoding of a scalar value. */
  lemma FirstIsEncoded(text: seq<octet>) returns (c: scalar)
    requires FirstCharacter(text).Some?
    ensures Encode(c) == text[..FirstCharacter(text).value]
  {
    hide Encode;
    var n := FirstCharacter(text).value;
    if n == 1 {
      c := text[0];
      AsciiEncodes(c);
    } else if n == 2 {
      c := DecodeTwo(text[0], text[1]);
    } else if n == 3 {
      c := DecodeThree(text[0], text[1], text[2]);
    } else {
      c := DecodeFour(text[0], text[1], text[2], text[3]);
    }
  }

  lemma AsciiEncodes(c: scalar)
    requires c < 0x80
    ensures Encode(c) == [c]
  {
  }

  lemma {:induction false} EncodedIsValid(text: seq<scalar>)
    ensures ValidText(EncodeAll(text))
    decreases |text|
  {
    hide Encode, FirstCharacter;
    if text != [] {
      EncodedIsFirst(text[0], EncodeAll(text[1..]));
      EncodedIsValid(text[1..]);
      assert (Encode(text[0]) + EncodeAll(text[1..]))[|Encode(text[0])|..] == EncodeAll(text[1..]);
    }
  }

  lemma {:induction false} ValidIsEncoded(bytes: seq<octet>) returns (text: seq<scalar>)
    requires ValidText(bytes)
    ensures EncodeAll(text) == bytes
    decreases |bytes|
  {
    hide Encode, FirstCharacter;
    if bytes == [] {
      text := [];
    } else {
      var n := FirstCharacter(bytes).value;
      var c := FirstIsEncoded(bytes);
      var rest := ValidIsEncoded(bytes[n..]);
      text := [c] + rest;
      assert text[1..] == rest && bytes == bytes[..n] + bytes[n..];
    }
  }

  /** Exactly the concatenations of encodings of Unicode scalar values are accepted. */
  lemma ValidExact(bytes: seq<octet>)
    ensures ValidText(bytes) <==> exists text :: EncodeAll(text) == bytes
  {
    if ValidText(bytes) {
      var text := ValidIsEncoded(bytes);
    }
    forall text | EncodeAll(text) == bytes ensures ValidText(bytes) {
      EncodedIsValid(text);
    }
  }

  /** The number that the bytes of one character spell. */
  function Spelled(e: seq<octet>): int {
    if |e| == 1 then e[0]
    else if |e| == 2 then (e[0] as int - 0xC0) * 0x40 + Tail(e[1])
    else if |e| == 3 then (e[0] as int - 0xE0) * 0x1000 + Tail(e[1]) * 0x40 + Tail(e[2])
    else if |e| == 4 then (e[0] as int - 0xF0) * 0x4_0000 + Tail(e[1]) * 0x1000 + Tail(e[2]) * 0x40 + Tail(e[3])
    else 0
  }

  lemma SpellsItself(c: scalar)
    ensures Spelled(Encode(c)) == c
  {
    assert c == c / 0x40 * 0x40 + c % 0x40;
    assert c / 0x40 == c / 0x1000 * 0x40 + c / 0x40 % 0x40;
    assert c / 0x1000 == c / 0x4_0000 * 0x40 + c / 0x1000 % 0x40;
  }

  lemma EncodeInjective(a: scalar, b: scalar)
    requires Encode(a) == Encode(b)
    ensures a == b
  {
    hide Encode, Spelled;
    SpellsItself(a);
    SpellsItself(b);
  }

  /** And each accepted string is such a concatenation in only one way. */
  lemma {:induction false} DecompositionUnique(a: seq<scalar>, b: seq<scalar>)
    requires EncodeAll(a) == EncodeAll(b)
    ensures a == b
    decreases |a|
  {
    hide Encode, FirstCharacter;
    if a != [] && b != [] {
      var x, y := EncodeAll(a[1..]), EncodeAll(b[1..]);
      EncodedIsFirst(a[0], x);
      EncodedIsFirst(b[0], y);
      assert (Encode(a[0]) + x)[..|Encode(a[0])|] == Encode(a[0]) && (Encode(a[0]) + x)[|Encode(a[0])|..] == x;
      assert (Encode(b[0]) + y)[..|Encode(b[0])|] == Encode(b[0]) && (Encode(b[0]) + y)[|Encode(b[0])|..] == y;
      EncodeInjective(a[0], b[0]);
      DecompositionUnique(a[1..], b[1..]);
      assert a == [a[0]] + a[1..] && b == [b[0]] + b[1..];
    }
  }

  // ------------------------------------------------------------ control frames

  const WS_CLOSE: octet := 0x8
  const WS_PING: octet := 0x9
  const WS_PONG: octet := 0xA
  const WS_CONTROL_MAX_LENGTH: nat := 125

  predicate ValidCloseCode(code: int) {
    (1000 <= code <= 1014 && code !in {1004, 1005, 1006}) || 3000 <= code <= 4999
  }

  predicate ValidClosePayload(payload: seq<octet>) {
    if |payload| == 0 then true
    else if |payload| == 1 then false
    else ValidCloseCode(Code(payload)) && ValidText(payload[2..])
  }

  function Code(payload: seq<octet>): int
    requires |payload| >= 2
  {
    var high: int := payload[0];
    high * 0x100 + payload[1]
  }

  datatype ControlResult = Handled | Unsupported | Malformed | SendFailed

  /** The frame sent back, if one is sent, and what becomes of the received one. `sent` says whether
      the transport takes the reply. */
  function HandleControl(opcode: octet, final: bool, payload: seq<octet>, sent: bool):
    (ControlResult, Option<(octet, seq<octet>)>)
  {
    if opcode !in {WS_CLOSE, WS_PING, WS_PONG} then (Unsupported, None)
    else if !final || |payload| > WS_CONTROL_MAX_LENGTH || (opcode == WS_CLOSE && !ValidClosePayload(payload)) then
      (Malformed, None)
    else if opcode == WS_PONG then (Handled, None)
    else
      (if sent then Handled else SendFailed, Some((if opcode == WS_PING then WS_PONG else WS_CLOSE, payload)))
  }

  /** A close frame is echoed exactly when it is whole, short, and empty or a permitted code followed
      by encoded Unicode text. */
  lemma CloseEchoed(final: bool, payload: seq<octet>, sent: bool)
    ensures HandleControl(WS_CLOSE, final, payload, sent).1 == Some((WS_CLOSE, payload)) <==>
            && final && |payload| <= WS_CONTROL_MAX_LENGTH
            && (payload == [] || (|payload| >= 2 && ValidCloseCode(Code(payload))
                                  && exists text :: EncodeAll(text) == payload[2..]))
  {
    if |payload| >= 2 {
      ValidExact(payload[2..]);
    }
  }

  /** What every frame gets: control frames are whole and at most 125 bytes long; a ping is answered by a
      pong with its payload, a well-formed close by itself, a pong by nothing; and the result says whether
      the reply could be sent. */
  lemma ControlExact(opcode: octet, final: bool, payload: seq<octet>, sent: bool)
    ensures var (result, reply) := HandleControl(opcode, final, payload, sent);
            var control := opcode in {8, 9, 10};
            var whole := control && final && |payload| <= 125;
            var wellFormed :=
              || opcode != 8 || payload == []
              || (|payload| >= 2 && ValidCloseCode(Code(payload))
                  && exists text :: EncodeAll(text) == payload[2..]);
            && (result == Unsupported <==> !control)
            && (result == Malformed <==> control && !(whole && wellFormed))
            && (reply == Some((10, payload)) <==> whole && opcode == 9)
            && (reply == Some((8, payload)) <==> whole && opcode == 8 && wellFormed)
            && (reply.Some? ==> reply.value in {(10, payload), (8, payload)})
            && (result == SendFailed <==> reply.Some? && !sent)
  {
    hide ValidText;
    if |payload| >= 2 {
      ValidExact(payload[2..]);
    }
  }
}
