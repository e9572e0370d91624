/** Basic authorization: strict base64 (sections 3.5 and 4 of RFC 4648) of user, colon and
    password (section 2 of RFC 7617). */
module BasicAuth {
  import opened Octets

  const HEADER_CAPACITY: nat := 258
  const DECODED_CAPACITY: nat := 189
  const COLON: octet := 58
  const PAD: octet := 61

  // ------------------------------------------------------------ base64

  type sextet = n: int | 0 <= n < 64

  function Digit(n: sextet): octet {
    if n < 26 then 65 + n else if n < 52 then 97 + (n - 26) else if n < 62 then 48 + (n - 52)
    else if n == 62 then 43 else 47
  }

  function DecodeDigit(c: octet): Option<sextet> {
    if 65 <= c <= 90 then Some(c - 65)
    else if 97 <= c <= 122 then Some(c - 97 + 26)
    else if 48 <= c <= 57 then Some(c - 48 + 52)
    else if c == 43 then Some(62)
    else if c == 47 then Some(63)
    else None
  }

  lemma DigitExact(c: octet, n: sextet)
    ensures DecodeDigit(c) == Some(n) <==> c == Digit(n)
    ensures Digit(n) != PAD
  {
  }

  /** The canonical encoding: three bytes to four digits, the last group padded. */
  function Base64(bytes: seq<octet>): (text: seq<octet>)
    ensures |text| == (|bytes| + 2) / 3 * 4
  {
    if |bytes| == 0 then []
    else if |bytes| == 1 then
      [Digit(bytes[0] / 4), Digit(bytes[0] % 4 * 16), PAD, PAD]
    else if |bytes| == 2 then
      [Digit(bytes[0] / 4), Digit(bytes[0] % 4 * 16 + bytes[1] / 16), Digit(bytes[1] % 16 * 4), PAD]
    else
      [Digit(bytes[0] / 4), Digit(bytes[0] % 4 * 16 + bytes[1] / 16), Digit(bytes[1] % 16 * 4 + bytes[2] / 64),
       Digit(bytes[2] % 64)] + Base64(bytes[3..])
  }

  /** One group of four characters; padding only where `last` allows it, and only over zero bits. */
  function DecodeGroup(c0: octet, c1: octet, c2: octet, c3: octet, last: bool): Option<seq<octet>> {
    var a, b := DecodeDigit(c0), DecodeDigit(c1);
    var c, d := DecodeDigit(c2), DecodeDigit(c3);
    if a.None? || b.None? || (c2 != PAD && c.None?) || (c3 != PAD && d.None?) then None
    else if !last && (c2 == PAD || c3 == PAD) then None
    else if c2 == PAD && c3 != PAD then None
    else if c2 == PAD && b.value % 16 != 0 then None
    else if c3 == PAD && c2 != PAD && c.value % 4 != 0 then None
    else
      var first: octet := a.value * 4 + b.value / 16;
      if c2 == PAD then Some([first])
      else
        var second: octet := b.value % 16 * 16 + c.value / 4;
        if c3 == PAD then Some([first, second]) else Some([first, second, c.value % 4 * 64 + d.value])
  }

  function DecodeBase64(text: seq<octet>): Option<seq<octet>> {
    if |text| == 0 then Some([])
    else if |text| < 4 then None
    else
      var group := DecodeGroup(text[0], text[1], text[2], text[3], |text| == 4);
      if group.None? then None
      else
        var rest := DecodeBase64(text[4..]);
        if rest.None? then None else Some(group.value + rest.value)
  }

  // The bit fields of one group: a sextet is cut where a byte ends.

  lemma FirstByte(a: sextet, b: sextet, x: octet)
    ensures a * 4 + b / 16 == x <==> a == x / 4 && b / 16 == x % 4
  {
  }

  lemma SecondByte(b: sextet, c: sextet, y: octet)
    ensures b % 16 * 16 + c / 4 == y <==> b % 16 == y / 16 && c / 4 == y % 16
  {
  }

  lemma ThirdByte(c: sextet, d: sextet, z: octet)
    ensures c % 4 * 64 + d == z <==> c % 4 == z / 64 && d == z % 64
  {
  }

  lemma Halves16(b: sextet, high: nat, low: nat)
    requires high < 4 && low < 16
    ensures b / 16 == high && b % 16 == low <==> b == high * 16 + low
  {
  }

  lemma Halves4(c: sextet, high: nat, low: nat)
    requires high < 16 && low < 4
    ensures c / 4 == high && c % 4 == low <==> c == high * 4 + low
  {
  }

  lemma DigitIsNotPad(c: octet)
    ensures DecodeDigit(c).Some? ==> c != PAD
  {
  }

  lemma OneByte(c0: octet, c1: octet, c2: octet, c3: octet, last: bool, x: octet)
    ensures DecodeGroup(c0, c1, c2, c3, last) == Some([x]) <==>
            last && c0 == Digit(x / 4) && c1 == Digit(x % 4 * 16) && c2 == PAD && c3 == PAD
  {
    hide Digit, DecodeDigit;
    DigitExact(c0, x / 4);
    DigitExact(c1, x % 4 * 16);
    var a, b := DecodeDigit(c0), DecodeDigit(c1);
    if a.Some? && b.Some? {
      FirstByte(a.value, b.value, x);
      Halves16(b.value, x % 4, 0);
    }
  }

  lemma TwoBytes(c0: octet, c1: octet, c2: octet, c3: octet, last: bool, x: octet, y: octet)
    ensures DecodeGroup(c0, c1, c2, c3, last) == Some([x, y]) <==>
            last && c0 == Digit(x / 4) && c1 == Digit(x % 4 * 16 + y / 16) && c2 == Digit(y % 16 * 4) && c3 == PAD
  {
    hide Digit, DecodeDigit;
    DigitExact(c0, x / 4);
    DigitExact(c1, x % 4 * 16 + y / 16);
    DigitExact(c2, y % 16 * 4);
    DigitIsNotPad(c2);
    var a, b, c := DecodeDigit(c0), DecodeDigit(c1), DecodeDigit(c2);
    if a.Some? && b.Some? && c.Some? {
      FirstByte(a.value, b.value, x);
      SecondByte(b.value, c.value, y);
      Halves16(b.value, x % 4, y / 16);
      Halves4(c.value, y % 16, 0);
    }
  }

  lemma ThreeBytes(c0: octet, c1: octet, c2: octet, c3: octet, last: bool, x: octet, y: octet, z: octet)
    ensures DecodeGroup(c0, c1, c2, c3, last) == Some([x, y, z]) <==>
            (c0 == Digit(x / 4) && c1 == Digit(x % 4 * 16 + y / 16) && c2 == Digit(y % 16 * 4 + z / 64)
             && c3 == Digit(z % 64))
  {
    hide Digit, DecodeDigit;
    DigitExact(c0, x / 4);
    DigitExact(c1, x % 4 * 16 + y / 16);
    DigitExact(c2, y % 16 * 4 + z / 64);
    DigitExact(c3, z % 64);
    DigitIsNotPad(c2);
    DigitIsNotPad(c3);
    var a, b, c, d := DecodeDigit(c0), DecodeDigit(c1), DecodeDigit(c2), DecodeDigit(c3);
    if a.Some? && b.Some? && c.Some? && d.Some? {
      FirstByte(a.value, b.value, x);
      SecondByte(b.value, c.value, y);
      ThirdByte(c.value, d.value, z);
      Halves16(b.value, x % 4, y / 16);
      Halves4(c.value, y % 16, z / 64);
    }
  }

  lemma GroupSize(c0: octet, c1: octet, c2: octet, c3: octet, last: bool)
    ensures var g := DecodeGroup(c0, c1, c2, c3, last);
            g.Some? ==> 1 <= |g.value| <= 3
  {
  }

  lemma ShortBase64(x: octet, y: octet, z: octet)
    ensures Base64([x]) == [Digit(x / 4), Digit(x % 4 * 16), PAD, PAD]
    ensures Base64([x, y]) == [Digit(x / 4), Digit(x % 4 * 16 + y / 16), Digit(y % 16 * 4), PAD]
    ensures Base64([x, y, z]) ==
            [Digit(x / 4), Digit(x % 4 * 16 + y / 16), Digit(y % 16 * 4 + z / 64), Digit(z % 64)]
  {
    hide Digit;
    assert [x, y, z][3..] == [];
  }

  predicate CanonicalGroup(group: seq<octet>, last: bool, bytes: seq<octet>) {
    1 <= |bytes| <= 3 && (!last ==> |bytes| == 3) && group == Base64(bytes)
  }

  /** A group decodes to some bytes exactly when it is their canonical encoding. */
  lemma GroupExact(c0: octet, c1: octet, c2: octet, c3: octet, last: bool, bytes: seq<octet>)
    ensures DecodeGroup(c0, c1, c2, c3, last) == Some(bytes) <==> CanonicalGroup([c0, c1, c2, c3], last, bytes)
  {
    hide Digit, DecodeGroup, Base64;
    GroupSize(c0, c1, c2, c3, last);
    if |bytes| == 1 {
      GroupOfOne(c0, c1, c2, c3, last, bytes);
    } else if |bytes| == 2 {
      GroupOfTwo(c0, c1, c2, c3, last, bytes);
    } else if |bytes| == 3 {
      GroupOfThree(c0, c1, c2, c3, last, bytes);
    }
  }

  lemma GroupOfOne(c0: octet, c1: octet, c2: octet, c3: octet, last: bool, bytes: seq<octet>)
    requires |bytes| == 1
    ensures DecodeGroup(c0, c1, c2, c3, last) == Some(bytes) <==> CanonicalGroup([c0, c1, c2, c3], last, bytes)
  {
    hide Digit, DecodeGroup, Base64;
    OneByte(c0, c1, c2, c3, last, bytes[0]);
    ShortBase64(bytes[0], 0, 0);
    assert bytes == [bytes[0]];
    if !last {
      GroupIsThree(c0, c1, c2, c3);
    }
  }

  lemma GroupIsThree(c0: octet, c1: octet, c2: octet, c3: octet)
    ensures var g := DecodeGroup(c0, c1, c2, c3, false);
            g.Some? ==> |g.value| == 3
  {
  }

  lemma GroupOfTwo(c0: octet, c1: octet, c2: octet, c3: octet, last: bool, bytes: seq<octet>)
    requires |bytes| == 2
    ensures DecodeGroup(c0, c1, c2, c3, last) == Some(bytes) <==> CanonicalGroup([c0, c1, c2, c3], last, bytes)
  {
    hide Digit, DecodeGroup, Base64;
    TwoBytes(c0, c1, c2, c3, last, bytes[0], bytes[1]);
    ShortBase64(bytes[0], bytes[1], 0);
    assert bytes == [bytes[0], bytes[1]];
    if !last {
      GroupIsThree(c0, c1, c2, c3);
    }
  }

  lemma GroupOfThree(c0: octet, c1: octet, c2: octet, c3: octet, last: bool, bytes: seq<octet>)
    requires |bytes| == 3
    ensures DecodeGroup(c0, c1, c2, c3, last) == Some(bytes) <==> CanonicalGroup([c0, c1, c2, c3], last, bytes)
  {
    hide Digit, DecodeGroup, Base64;
    ThreeBytes(c0, c1, c2, c3, last, bytes[0], bytes[1], bytes[2]);
    ShortBase64(bytes[0], bytes[1], bytes[2]);
    assert bytes == [bytes[0], bytes[1], bytes[2]];
  }

  lemma {:induction false} DecodeOfBase64(bytes: seq<octet>)
    ensures DecodeBase64(Base64(bytes)) == Some(bytes)
    decreases |bytes|
  {
    hide DecodeGroup, Digit;
    if bytes != [] {
      var head, tail := if |bytes| <= 3 then bytes else bytes[..3], if |bytes| <= 3 then [] else bytes[3..];
      Base64Split(bytes, head, tail);
      var text := Base64(bytes);
      GroupExact(text[0], text[1], text[2], text[3], |text| == 4, head);
      DecodeOfBase64(tail);
    }
  }

  lemma Base64Split(bytes: seq<octet>, head: seq<octet>, tail: seq<octet>)
    requires bytes == head + tail && 1 <= |head| <= 3 && (tail != [] ==> |head| == 3)
    ensures Base64(bytes) == Base64(head) + Base64(tail) && |Base64(head)| == 4
    ensures Base64(bytes)[..4] == Base64(head) && Base64(bytes)[4..] == Base64(tail)
  {
    hide Digit;
    if |head| == 3 {
      assert head[3..] == [] && bytes[3..] == tail;
    } else {
      assert bytes == head;
    }
  }

  /** Known encodings, with both special digits and every length of padding (section 10 of RFC 4648). */
  lemma KnownEncodings()
    ensures Base64([102, 111, 111, 98, 97, 114]) == [90, 109, 57, 118, 89, 109, 70, 121]
    ensures Base64([102, 111, 111, 98, 97]) == [90, 109, 57, 118, 89, 109, 69, 61]
    ensures Base64([0xFB, 0xFF, 0xBF, 0xFB]) == [43, 47, 43, 47, 43, 119, 61, 61]
  {
    hide Base64;
    KnownGroups();
    Base64Split([102, 111, 111, 98, 97, 114], [102, 111, 111], [98, 97, 114]);
    Base64Split([102, 111, 111, 98, 97], [102, 111, 111], [98, 97]);
    Base64Split([0xFB, 0xFF, 0xBF, 0xFB], [0xFB, 0xFF, 0xBF], [0xFB]);
  }

  lemma KnownGroups()
    ensures Base64([102, 111, 111]) == [90, 109, 57, 118] && Base64([98, 97, 114]) == [89, 109, 70, 121]
    ensures Base64([98, 97]) == [89, 109, 69, 61]
    ensures Base64([0xFB, 0xFF, 0xBF]) == [43, 47, 43, 47] && Base64([0xFB]) == [43, 119, 61, 61]
  {
    hide Base64;
    ShortBase64(102, 111, 111);
    ShortBase64(98, 97, 114);
    ShortBase64(0xFB, 0xFF, 0xBF);
  }

  /** Exactly one text decodes to given bytes: their canonical encoding. */
  lemma {:induction false} Base64Exact(text: seq<octet>, bytes: seq<octet>)
    ensures DecodeBase64(text) == Some(bytes) <==> text == Base64(bytes)
    decreases |text|
  {
    hide DecodeGroup, Digit;
    DecodeOfBase64(bytes);
    if |text| >= 4 && DecodeBase64(text) == Some(bytes) {
      var group := DecodeGroup(text[0], text[1], text[2], text[3], |text| == 4);
      var rest := DecodeBase64(text[4..]);
      GroupExact(text[0], text[1], text[2], text[3], |text| == 4, group.value);
      Base64Exact(text[4..], rest.value);
      EmptyText(rest.value);
      Base64Split(bytes, group.value, rest.value);
      assert text == text[..4] + text[4..];
      assert text[..4] == [text[0], text[1], text[2], text[3]];
    }
  }

  lemma EmptyText(bytes: seq<octet>)
    ensures Base64(bytes) == [] <==> bytes == []
  {
  }

  // ------------------------------------------------------------ the header

  function Scheme(): seq<octet> {
    [98, 97, 115, 105, 99, 32]
  }

  /** The header that carries these credentials, up to the case of the scheme. */
  predicate Carries(header: seq<octet>, user: seq<octet>, password: seq<octet>) {
    && |header| >= 6
    && EqualInsensitive(header[..6], Scheme())
    && header[6..] == Base64(user + [COLON] + password)
  }

  /** The prefix loop. */
  method MatchScheme(header: seq<octet>) returns (ok: bool)
    requires |header| >= 6
    ensures ok == EqualInsensitive(header[..6], Scheme())
  {
    for i := 0 to 6
      invariant forall k :: 0 <= k < i ==> Lower(header[k]) == Scheme()[k]
    {
      var a := if 65 <= header[i] <= 90 then header[i] + 32 else header[i];
      if a != Scheme()[i] {
        assert Lower(header[..6][i]) != Lower(Scheme()[i]);
        return false;
      }
    }
    return true;
  }

  lemma DecodeFrom(header: seq<octet>, i: nat)
    requires i + 4 <= |header|
    ensures var group := DecodeGroup(header[i], header[i + 1], header[i + 2], header[i + 3], i + 4 == |header|);
            var rest := DecodeBase64(header[i + 4..]);
            DecodeBase64(header[i..]) ==
            if group.None? || rest.None? then None else Some(group.value + rest.value)
  {
    hide DecodeGroup;
    assert header[i..][4..] == header[i + 4..];
  }

  lemma DecodedNothing(header: seq<octet>)
    ensures DecodeBase64(header[|header|..]) == Some([])
  {
  }

  /** The decoding loop into the fixed buffer. */
  method DecodeInto(header: seq<octet>, decoded: array<octet>) returns (ok: bool, used: nat)
    requires 6 <= |header| <= HEADER_CAPACITY && |header| % 4 == 2 && decoded.Length == DECODED_CAPACITY
    modifies decoded
    ensures used <= decoded.Length
    ensures ok == DecodeBase64(header[6..]).Some?
    ensures ok ==> decoded[..used] == DecodeBase64(header[6..]).value
  {
    hide DecodeGroup, DecodeBase64;
    used := 0;
    var i := 6;
    ghost var whole := DecodeBase64(header[6..]);
    assert whole.Some? ==> decoded[..0] + whole.value == whole.value;
    while i < |header|
      invariant 6 <= i <= |header| && i % 4 == 2 && used <= (i - 6) / 4 * 3
      invariant whole == (var rest := DecodeBase64(header[i..]);
                          if rest.None? then None else Some(decoded[..used] + rest.value))
    {
      var final := i + 4 == |header|;
      ghost var before := decoded[..used];
      DecodeFrom(header, i);
      var group := DecodeGroup(header[i], header[i + 1], header[i + 2], header[i + 3], final);
      if group.None? {
        return false, used;
      }
      GroupSize(header[i], header[i + 1], header[i + 2], header[i + 3], final);
      for k := 0 to |group.value|
        invariant decoded[..used + k] == before + group.value[..k]
      {
        decoded[used + k] := group.value[k];
      }
      used := used + |group.value|;
      assert group.value[..|group.value|] == group.value;
      AppendRest(before, group.value, DecodeBase64(header[i + 4..]));
      i := i + 4;
    }
    ok := true;
    DecodedNothing(header);
    assert decoded[..used] + [] == decoded[..used];
  }

  lemma AppendRest(a: seq<octet>, b: seq<octet>, c: Option<seq<octet>>)
    ensures c.Some? ==> a + (b + c.value) == (a + b) + c.value
  {
  }

  /** Within the length limits a header is accepted exactly when it carries the canonical encoding
      of user, colon and password, with no colon in the user. */
  method VerifyHttpBasicAuthorization(header: seq<octet>, user: seq<octet>, password: seq<octet>) returns (ok: bool)
    ensures ok <==> 10 <= |header| <= HEADER_CAPACITY && Carries(header, user, password) && COLON !in user
  {
    hide DecodeBase64, Base64, EqualInsensitive;
    if |header| < 10 || |header| > HEADER_CAPACITY {
      return false;
    }
    var scheme := MatchScheme(header);
    if !scheme {
      return false;
    }
    Base64Exact(header[6..], user + [COLON] + password);
    var encoded := |header| - 6;
    if encoded % 4 != 0 {
      WholeGroups(user + [COLON] + password);
      return false;
    }
    var decoded := new octet[DECODED_CAPACITY];
    var valid, used := DecodeInto(header, decoded);
    if !valid {
      return false;
    }
    ok := CompareCredentials(decoded, used, user, password);
  }

  /** The decoded bytes are split at their first colon and compared without early exit. */
  method CompareCredentials(decoded: array<octet>, used: nat, user: seq<octet>, password: seq<octet>) returns (ok: bool)
    requires used <= decoded.Length
    ensures ok <==> decoded[..used] == user + [COLON] + password && COLON !in user
  {
    ghost var bytes := decoded[..used];
    var colon := 0;
    while colon < used && decoded[colon] != COLON
      invariant colon <= used
      invariant forall k :: 0 <= k < colon ==> decoded[k] != COLON
    {
      colon := colon + 1;
    }
    SplitAtColon(bytes, colon, user, password);
    if colon == used {
      return false;
    }
    var lengthsMatch := |user| == colon && |password| == used - colon - 1;
    if !lengthsMatch {
      return false;
    }
    var users := SameBytes(decoded, 0, user);
    var passwords := SameBytes(decoded, colon + 1, password);
    assert bytes[..colon] == decoded[0..colon] && bytes[colon + 1..] == decoded[colon + 1..used];
    return users && passwords;
  }

  method SameBytes(decoded: array<octet>, from: nat, text: seq<octet>) returns (same: bool)
    requires from + |text| <= decoded.Length
    ensures same <==> decoded[from..from + |text|] == text
  {
    same := true;
    for i := 0 to |text|
      invariant same <==> decoded[from..from + i] == text[..i]
    {
      same := same && decoded[from + i] == text[i];
      assert decoded[from..from + i + 1] == decoded[from..from + i] + [decoded[from + i]];
      assert text[..i + 1] == text[..i] + [text[i]];
    }
    assert text[..|text|] == text;
  }

  lemma WholeGroups(bytes: seq<octet>)
    ensures |Base64(bytes)| % 4 == 0
  {
  }

  /** The first colon splits the decoded bytes into exactly one colon-free user and a password. */
  lemma SplitAtColon(bytes: seq<octet>, colon: nat, user: seq<octet>, password: seq<octet>)
    requires colon <= |bytes|
    requires forall k :: 0 <= k < colon ==> bytes[k] != COLON
    requires colon < |bytes| ==> bytes[colon] == COLON
    ensures (bytes == user + [COLON] + password && COLON !in user) <==>
            (colon < |bytes| && |user| == colon && |password| == |bytes| - colon - 1
             && bytes[..colon] == user && bytes[colon + 1..] == password)
  {
    var joined := user + [COLON] + password;
    assert joined[|user|] == COLON;
    assert joined[..|user|] == user && joined[|user| + 1..] == password;
    if bytes == joined && COLON !in user {
      assert forall k :: 0 <= k < |user| ==> joined[k] == user[k];
      assert colon == |user|;
    }
    if colon < |bytes| && bytes[..colon] == user && bytes[colon + 1..] == password {
      assert bytes == bytes[..colon] + [bytes[colon]] + bytes[colon + 1..];
      assert forall k :: 0 <= k < |user| ==> user[k] == bytes[k];
    }
  }
}
