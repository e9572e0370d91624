/** The CRC-32 that guards stored records (polynomial as in section 8 of RFC 1952). */
module Crc32 {
  import opened LittleEndian
  import opened Octets

  type byte = bv8

  /** A 32-bit register. */
  datatype Word = Word(bits: bv32)

  const ZERO := Word(0)
  const ONES := Word(0xFFFF_FFFF)
  const POLYNOMIAL := Word(0xEDB8_8320)

  function Mix(x: Word, y: Word): Word {
    Word(x.bits ^ y.bits)
  }

  function Half(x: Word): Word {
    Word(x.bits >> 1)
  }

  predicate Odd(x: Word) {
    x.bits & 1 == 1
  }

  function Widen(b: byte): Word {
    Word(b as bv32)
  }

  /** One bit of the reflected division: the bit shifted out decides on the polynomial. */
  function Shift(r: Word): Word {
    if Odd(r) then Mix(Half(r), POLYNOMIAL) else Half(r)
  }

  function Shift4(r: Word): Word {
    Shift(Shift(Shift(Shift(r))))
  }

  function Shift8(r: Word): Word {
    Shift4(Shift4(r))
  }

  /** The register after dividing `bytes`, starting from `r`. */
  function Register(r: Word, bytes: seq<byte>): Word
    decreases |bytes|
  {
    if bytes == [] then r else Register(Shift8(Mix(r, Widen(bytes[0]))), bytes[1..])
  }

  function Crc(bytes: seq<byte>): Word {
    Mix(Register(ONES, bytes), ONES)
  }

  /** The check value of this checksum: that of the nine digits 123456789. */
  lemma CheckValue()
    ensures Crc([0x31, 0x32, 0x33, 0x34, 0x35, 0x36, 0x37, 0x38, 0x39]) == Word(0xCBF4_3926)
  {
    hide Register, Shift8, Mix, Widen;
    KnownSteps();
    var text: seq<byte> := [0x31, 0x32, 0x33, 0x34, 0x35, 0x36, 0x37, 0x38, 0x39];
    var after: seq<Word> := [
      ONES, Word(0x7C23_1048), Word(0xB0AC_BB32), Word(0x77B7_9C2D), Word(0x641C_1F5C), Word(0x340A_C5E3),
      Word(0xF68D_2C9E), Word(0xAFFC_9660), Word(0x651F_2550), Word(0x340B_C6D9)];
    var k := 9;
    RegisterDone(after[9]);
    assert text[9..] == [];
    while k > 0
      invariant 0 <= k <= 9 && Register(after[k], text[k..]) == after[9]
    {
      k := k - 1;
      RegisterStep(after[k], text[k..]);
      assert text[k..][1..] == text[k + 1..];
      assert Shift8(Mix(after[k], Widen(text[k]))) == after[k + 1];
    }
    assert text[0..] == text;
    LastMix();
  }

  lemma RegisterDone(r: Word)
    ensures Register(r, []) == r
  {
  }

  lemma RegisterStep(r: Word, bytes: seq<byte>)
    requires bytes != []
    ensures Register(r, bytes) == Register(Shift8(Mix(r, Widen(bytes[0]))), bytes[1..])
  {
  }

  lemma LastMix()
    ensures Mix(Word(0x340B_C6D9), ONES) == Word(0xCBF4_3926)
  {
  }

  lemma KnownSteps()
    ensures Shift8(Mix(ONES, Widen(0x31))) == Word(0x7C23_1048)
    ensures Shift8(Mix(Word(0x7C23_1048), Widen(0x32))) == Word(0xB0AC_BB32)
    ensures Shift8(Mix(Word(0xB0AC_BB32), Widen(0x33))) == Word(0x77B7_9C2D)
    ensures Shift8(Mix(Word(0x77B7_9C2D), Widen(0x34))) == Word(0x641C_1F5C)
    ensures Shift8(Mix(Word(0x641C_1F5C), Widen(0x35))) == Word(0x340A_C5E3)
    ensures Shift8(Mix(Word(0x340A_C5E3), Widen(0x36))) == Word(0xF68D_2C9E)
    ensures Shift8(Mix(Word(0xF68D_2C9E), Widen(0x37))) == Word(0xAFFC_9660)
    ensures Shift8(Mix(Word(0xAFFC_9660), Widen(0x38))) == Word(0x651F_2550)
    ensures Shift8(Mix(Word(0x651F_2550), Widen(0x39))) == Word(0x340B_C6D9)
  {
  }

  // ------------------------------------------------------------ octets and 32-bit values

  predicate OddOctet(n: octet) {
    n % 2 == 1
  }

  function HalfOctet(n: octet): octet {
    n / 2
  }

  function Pack(b0: bool, b1: bool, b2: bool, b3: bool, b4: bool, b5: bool, b6: bool, b7: bool): byte {
    (if b0 then 1 else 0) | (if b1 then 2 else 0) | (if b2 then 4 else 0) | (if b3 then 8 else 0) |
    (if b4 then 16 else 0) | (if b5 then 32 else 0) | (if b6 then 64 else 0) | (if b7 then 128 else 0)
  }

  function ToBits(n: octet): byte {
    var n1 := HalfOctet(n);
    var n2 := HalfOctet(n1);
    var n3 := HalfOctet(n2);
    var n4 := HalfOctet(n3);
    var n5 := HalfOctet(n4);
    var n6 := HalfOctet(n5);
    var n7 := HalfOctet(n6);
    Pack(OddOctet(n), OddOctet(n1), OddOctet(n2), OddOctet(n3), OddOctet(n4), OddOctet(n5), OddOctet(n6), OddOctet(n7))
  }

  function FromBits(b: byte): octet {
    (if b & 1 != 0 then 1 else 0) + (if b & 2 != 0 then 2 else 0) + (if b & 4 != 0 then 4 else 0) +
    (if b & 8 != 0 then 8 else 0) + (if b & 16 != 0 then 16 else 0) + (if b & 32 != 0 then 32 else 0) +
    (if b & 64 != 0 then 64 else 0) + (if b & 128 != 0 then 128 else 0)
  }

  function Bits(bytes: seq<octet>): (bits: seq<byte>)
    ensures |bits| == |bytes| && forall i :: 0 <= i < |bytes| ==> bits[i] == ToBits(bytes[i])
  {
    seq(|bytes|, i requires 0 <= i < |bytes| => ToBits(bytes[i]))
  }

  /** The four bytes of a register, lowest first. */
  function Bytes(w: Word): (bytes: seq<byte>)
    ensures |bytes| == 4
  {
    [(w.bits & 0xFF) as bv8, ((w.bits >> 8) & 0xFF) as bv8, ((w.bits >> 16) & 0xFF) as bv8, (w.bits >> 24) as bv8]
  }

  function Octets4(w: Word): (bytes: seq<octet>)
    ensures |bytes| == 4
  {
    var b := Bytes(w);
    [FromBits(b[0]), FromBits(b[1]), FromBits(b[2]), FromBits(b[3])]
  }

  /** The register as an unsigned number. */
  function Value(w: Word): (n: nat)
    ensures n < 0x1_0000_0000
  {
    DigitsOfNumber(Octets4(w));
    Powers();
    Number(Octets4(w))
  }

  /** The checksum of a byte string, as the number a record stores. */
  function Checksum(bytes: seq<octet>): (n: nat)
    ensures n < 0x1_0000_0000
  {
    Value(Crc(Bits(bytes)))
  }

  // ------------------------------------------------------------ facts about 32 bits

  lemma MixCommutes(x: Word, y: Word)
    ensures Mix(x, y) == Mix(y, x)
  {
  }

  lemma MixAssociates(x: Word, y: Word, z: Word)
    ensures Mix(Mix(x, y), z) == Mix(x, Mix(y, z))
  {
  }

  lemma MixSelf(x: Word)
    ensures Mix(x, x) == ZERO
  {
  }

  lemma MixZero(x: Word)
    ensures Mix(x, ZERO) == x
  {
  }

  lemma MixCancels(x: Word, y: Word, z: Word)
    ensures Mix(Mix(x, z), Mix(y, z)) == Mix(x, y)
  {
  }

  lemma MixLaws(x: Word, y: Word, z: Word)
    ensures Mix(x, y) == Mix(y, x)
    ensures Mix(Mix(x, y), z) == Mix(x, Mix(y, z))
    ensures Mix(x, x) == ZERO && Mix(x, ZERO) == x
    ensures Mix(Mix(x, z), Mix(y, z)) == Mix(x, y)
  {
    hide Mix;
    MixCommutes(x, y);
    MixAssociates(x, y, z);
    MixSelf(x);
    MixZero(x);
    MixCancels(x, y, z);
  }

  lemma MixSwap(a: Word, b: Word, c: Word, d: Word)
    ensures Mix(Mix(a, b), Mix(c, d)) == Mix(Mix(a, c), Mix(b, d))
  {
  }

  lemma EqualIffMixZero(x: Word, y: Word)
    ensures x == y <==> Mix(x, y) == ZERO
  {
    hide Mix;
    MixSelf(x);
    if Mix(x, y) == ZERO {
      MixAssociates(x, y, y);
      MixSelf(y);
      MixZero(x);
      MixCommutes(ZERO, y);
      MixZero(y);
    }
  }

  lemma HalfMix(x: Word, y: Word)
    ensures Half(Mix(x, y)) == Mix(Half(x), Half(y))
  {
  }

  lemma OddMix(x: Word, y: Word)
    ensures Odd(Mix(x, y)) <==> Odd(x) != Odd(y)
  {
  }

  lemma HalfZero(x: Word)
    ensures Half(ZERO) == ZERO && !Odd(ZERO)
    ensures !Odd(x) && Half(x) == ZERO ==> x == ZERO
    ensures Half(x) != POLYNOMIAL
  {
  }

  lemma WidenMix(a: byte, b: byte)
    ensures Widen(a ^ b) == Mix(Widen(a), Widen(b))
    ensures Widen(0) == ZERO
  {
  }

  lemma MaskedPolynomial(r: Word)
    ensures Word((r.bits >> 1) ^ (POLYNOMIAL.bits & (0 - (r.bits & 1)))) == Shift(r)
  {
    assert r.bits & 1 == 0 || r.bits & 1 == 1;
  }

  // ------------------------------------------------------------ the loops

  /** Eight shifts in a loop, with the polynomial masked by the low bit. */
  method ShiftByte(start: Word) returns (crc: Word)
    ensures crc == Shift8(start)
  {
    hide Shift;
    crc := start;
    ghost var steps := [start];
    for bit := 0 to 8
      invariant |steps| == bit + 1 && steps[0] == start && steps[bit] == crc
      invariant forall k :: 0 <= k < bit ==> steps[k + 1] == Shift(steps[k])
    {
      var mask := 0 - (crc.bits & 1);
      MaskedPolynomial(crc);
      crc := Word((crc.bits >> 1) ^ (POLYNOMIAL.bits & mask));
      steps := steps + [crc];
    }
    assert steps[1] == Shift(steps[0]) && steps[2] == Shift(steps[1]) && steps[3] == Shift(steps[2]);
    assert steps[4] == Shift(steps[3]) && steps[5] == Shift(steps[4]) && steps[6] == Shift(steps[5]);
    assert steps[7] == Shift(steps[6]) && steps[8] == Shift(steps[7]);
  }

  /** The checksum loop over a stretch of a buffer. */
  method ComputeCrc(data: array<octet>, from: nat, length: nat) returns (checksum: nat)
    requires from + length <= data.Length
    ensures checksum == Checksum(data[from..from + length])
  {
    hide Shift8, Mix, Widen, ToBits, Value;
    ghost var bytes := Bits(data[from..from + length]);
    var crc := ONES;
    for index := 0 to length
      invariant Register(ONES, bytes) == Register(crc, bytes[index..])
    {
      assert bytes[index..][0] == ToBits(data[from + index]) && bytes[index..][1..] == bytes[index + 1..];
      crc := Mix(crc, Widen(ToBits(data[from + index])));
      crc := ShiftByte(crc);
    }
    assert bytes[length..] == [];
    checksum := Value(Mix(crc, ONES));
  }

  // ------------------------------------------------------------ linearity

  lemma ShiftLinear(x: Word, y: Word)
    ensures Shift(Mix(x, y)) == Mix(Shift(x), Shift(y))
  {
    hide Mix, Half, Odd;
    var p := POLYNOMIAL;
    HalfMix(x, y);
    OddMix(x, y);
    MixLaws(Half(x), Half(y), p);
    MixLaws(Half(x), p, Half(y));
    MixLaws(p, Half(y), p);
  }

  lemma Shift4Linear(x: Word, y: Word)
    ensures Shift4(Mix(x, y)) == Mix(Shift4(x), Shift4(y))
  {
    hide Shift, Mix;
    ShiftLinear(x, y);
    ShiftLinear(Shift(x), Shift(y));
    ShiftLinear(Shift(Shift(x)), Shift(Shift(y)));
    ShiftLinear(Shift(Shift(Shift(x))), Shift(Shift(Shift(y))));
  }

  lemma Shift8Linear(x: Word, y: Word)
    ensures Shift8(Mix(x, y)) == Mix(Shift8(x), Shift8(y))
  {
    hide Shift4, Mix;
    Shift4Linear(x, y);
    Shift4Linear(Shift4(x), Shift4(y));
  }

  function Xor(a: seq<byte>, b: seq<byte>): (c: seq<byte>)
    requires |a| == |b|
    ensures |c| == |a| && forall i :: 0 <= i < |a| ==> c[i] == a[i] ^ b[i]
  {
    seq(|a|, i requires 0 <= i < |a| => a[i] ^ b[i])
  }

  /** The register is linear in start value and message together. */
  lemma {:induction false} RegisterLinear(x: Word, y: Word, a: seq<byte>, b: seq<byte>)
    requires |a| == |b|
    ensures Register(Mix(x, y), Xor(a, b)) == Mix(Register(x, a), Register(y, b))
    decreases |a|
  {
    hide Shift8, Mix, Widen;
    if a != [] {
      var u, v := Widen(a[0]), Widen(b[0]);
      WidenMix(a[0], b[0]);
      MixSwap(x, y, u, v);
      Shift8Linear(Mix(x, u), Mix(y, v));
      assert Xor(a, b)[1..] == Xor(a[1..], b[1..]);
      RegisterLinear(Shift8(Mix(x, u)), Shift8(Mix(y, v)), a[1..], b[1..]);
    }
  }

  /** The checksums of two messages of the same length differ by the plain remainder of
      their difference. */
  lemma CrcDifference(a: seq<byte>, b: seq<byte>)
    requires |a| == |b|
    ensures Mix(Crc(a), Crc(b)) == Register(ZERO, Xor(a, b))
  {
    hide Mix, Register;
    RegisterLinear(ONES, ONES, a, b);
    MixLaws(ONES, ONES, ONES);
    MixLaws(Register(ONES, a), Register(ONES, b), ONES);
  }

  /** CRC-32 is affine: the checksum of the XOR of three messages is the XOR of theirs. */
  lemma CrcAffine(a: seq<byte>, b: seq<byte>, c: seq<byte>)
    requires |a| == |b| == |c|
    ensures Crc(Xor(Xor(a, b), c)) == Mix(Mix(Crc(a), Crc(b)), Crc(c))
  {
    hide Mix, Register;
    CrcDifference(a, b);
    RegisterLinear(ZERO, ONES, Xor(a, b), c);
    MixLaws(ONES, ZERO, ZERO);
    MixLaws(Register(ZERO, Xor(a, b)), Register(ONES, c), ONES);
  }

  // ------------------------------------------------------------ what damage is detected

  /** Exactly which damage passes: a difference whose remainder is zero. */
  lemma Undetected(a: seq<byte>, b: seq<byte>)
    requires |a| == |b|
    ensures Crc(a) == Crc(b) <==> Register(ZERO, Xor(a, b)) == ZERO
  {
    hide Mix, Register, Crc;
    CrcDifference(a, b);
    EqualIffMixZero(Crc(a), Crc(b));
  }

  /** A shift loses nothing: only the zero register goes to zero. */
  lemma ShiftZero(r: Word)
    ensures Shift(r) == ZERO <==> r == ZERO
  {
    hide Mix, Half, Odd;
    HalfZero(r);
    EqualIffMixZero(Half(r), POLYNOMIAL);
  }

  lemma Shift8Zero(r: Word)
    ensures Shift8(r) == ZERO <==> r == ZERO
  {
    hide Shift;
    ShiftZero(r);
    ShiftZero(Shift(r));
    ShiftZero(Shift(Shift(r)));
    ShiftZero(Shift(Shift(Shift(r))));
    var h := Shift4(r);
    ShiftZero(h);
    ShiftZero(Shift(h));
    ShiftZero(Shift(Shift(h)));
    ShiftZero(Shift(Shift(Shift(h))));
  }

  predicate Zeros(d: seq<byte>) {
    forall i :: 0 <= i < |d| ==> d[i] == 0
  }

  /** Zero bytes never turn a nonzero register into zero, nor zero into nonzero. */
  lemma {:induction false} RegisterZeros(r: Word, d: seq<byte>)
    requires Zeros(d)
    ensures Register(r, d) == ZERO <==> r == ZERO
    decreases |d|
  {
    hide Shift8, Mix, Widen;
    if d != [] {
      WidenMix(0, 0);
      MixLaws(r, r, r);
      Shift8Zero(r);
      RegisterZeros(Shift8(r), d[1..]);
    }
  }

  lemma {:induction false} RegisterConcat(r: Word, a: seq<byte>, b: seq<byte>)
    ensures Register(r, a + b) == Register(Register(r, a), b)
    decreases |a|
  {
    hide Shift8, Mix, Widen;
    if a == [] {
      assert a + b == b;
    } else {
      assert (a + b)[0] == a[0] && (a + b)[1..] == a[1..] + b;
      RegisterConcat(Shift8(Mix(r, Widen(a[0]))), a[1..], b);
    }
  }

  // Four bytes divided one after the other are one 32-bit word divided at once, because a
  // byte that is still to come can be mixed in early, eight places up.

  function Double(c: Word): Word {
    Word(c.bits << 1)
  }

  function Up(c: Word): Word {
    Word(c.bits << 8)
  }

  /** The top bit is clear, so doubling loses nothing. */
  predicate Small(c: Word) {
    c.bits < 0x8000_0000
  }

  predicate Narrow(c: Word) {
    c.bits <= 0xFF_FFFF
  }

  lemma DoubledIsEven(b: bv32)
    ensures (b << 1) & 1 == 0
  {
  }

  lemma HalfOfDouble(b: bv32)
    requires b < 0x8000_0000
    ensures (b << 1) >> 1 == b
  {
  }

  lemma ShiftDoubled(c: Word)
    requires Small(c)
    ensures Shift(Double(c)) == c
  {
    hide Mix;
    DoubledIsEven(c.bits);
    HalfOfDouble(c.bits);
  }
  lemma UpIsDoubling(c: Word)
    ensures Up(c) == Double(Double(Double(Double(Double(Double(Double(Double(c))))))))
  {
  }

  lemma NarrowDoubles(c: Word)
    requires Narrow(c)
    ensures Small(c) && Small(Double(c)) && Small(Double(Double(c))) && Small(Double(Double(Double(c))))
  {
  }

  lemma NarrowDoublesAgain(c: Word)
    requires Narrow(c)
    ensures var d := Double(Double(Double(Double(c))));
            Small(d) && Small(Double(d)) && Small(Double(Double(d))) && Small(Double(Double(Double(d))))
  {
  }

  lemma ShiftUp(c: Word)
    requires Narrow(c)
    ensures Shift8(Up(c)) == c
  {
    hide Shift, Double, Up, Small, Narrow;
    var c1, c2, c3 := Double(c), Double(Double(c)), Double(Double(Double(c)));
    var d := Double(c3);
    UpIsDoubling(c);
    NarrowDoubles(c);
    NarrowDoublesAgain(c);
    ShiftDoubled(c);
    ShiftDoubled(c1);
    ShiftDoubled(c2);
    ShiftDoubled(c3);
    ShiftDoubled(d);
    ShiftDoubled(Double(d));
    ShiftDoubled(Double(Double(d)));
    ShiftDoubled(Double(Double(Double(d))));
  }

  lemma MixEarly(r: Word, c: Word)
    requires Narrow(c)
    ensures Mix(Shift8(r), c) == Shift8(Mix(r, Up(c)))
  {
    hide Shift8, Mix, Up, Narrow;
    Shift8Linear(r, Up(c));
    ShiftUp(c);
  }

  /** Four bytes as one word, the first one lowest. */
  function FourBytes(d0: byte, d1: byte, d2: byte, d3: byte): Word {
    Mix(Mix(Mix(Widen(d0), Up(Widen(d1))), Up(Up(Widen(d2)))), Up(Up(Up(Widen(d3)))))
  }

  lemma FourBytesZero(d0: byte, d1: byte, d2: byte, d3: byte)
    ensures FourBytes(d0, d1, d2, d3) == ZERO <==> d0 == 0 && d1 == 0 && d2 == 0 && d3 == 0
  {
  }

  lemma WidenNarrow(d: byte)
    ensures Narrow(Widen(d)) && Narrow(Up(Widen(d))) && Narrow(Up(Up(Widen(d))))
  {
  }

  lemma DivideFourBytes(r: Word, d0: byte, d1: byte, d2: byte, d3: byte)
    ensures Shift8(Mix(Shift8(Mix(Shift8(Mix(Shift8(Mix(r, Widen(d0))), Widen(d1))), Widen(d2))), Widen(d3)))
         == Shift32(Mix(r, FourBytes(d0, d1, d2, d3)))
  {
    hide Shift8, Mix, Up, Widen, Narrow;
    var c0, c1, c2, c3 := Widen(d0), Widen(d1), Widen(d2), Widen(d3);
    var a := Mix(r, c0);
    WidenNarrow(d1);
    WidenNarrow(d2);
    WidenNarrow(d3);
    MixEarly(a, c1);
    var b := Mix(a, Up(c1));
    MixEarly(Shift8(b), c2);
    MixEarly(b, Up(c2));
    var e := Mix(b, Up(Up(c2)));
    MixEarly(Shift8(Shift8(e)), c3);
    MixEarly(Shift8(e), Up(c3));
    MixEarly(e, Up(Up(c3)));
    MixAssociates(r, Mix(Mix(c0, Up(c1)), Up(Up(c2))), Up(Up(Up(c3))));
    MixAssociates(r, Mix(c0, Up(c1)), Up(Up(c2)));
    MixAssociates(r, c0, Up(c1));
  }

  function Shift32(w: Word): Word {
    Shift8(Shift8(Shift8(Shift8(w))))
  }

  /** Dividing four bytes is dividing one word. */
  lemma RegisterOfFour(r: Word, d: seq<byte>)
    requires |d| == 4
    ensures Register(r, d) == Shift32(Mix(r, FourBytes(d[0], d[1], d[2], d[3])))
  {
    hide Shift8, Mix, Widen, FourBytes, Shift32;
    DivideFourBytes(r, d[0], d[1], d[2], d[3]);
    assert d[1..][0] == d[1] && d[1..][1..][0] == d[2] && d[1..][1..][1..][0] == d[3];
    var r1 := Shift8(Mix(r, Widen(d[0])));
    var r2 := Shift8(Mix(r1, Widen(d[1])));
    var r3 := Shift8(Mix(r2, Widen(d[2])));
    var last := d[1..][1..][1..];
    assert Register(r3, last) == Shift8(Mix(r3, Widen(d[3]))) by {
      assert last[1..] == [];
    }
    assert Register(r2, d[1..][1..]) == Register(r3, last);
    assert Register(r1, d[1..]) == Register(r2, d[1..][1..]);
  }

  lemma Shift32Zero(w: Word)
    ensures Shift32(w) == ZERO <==> w == ZERO
  {
    hide Shift8;
    Shift8Zero(w);
    Shift8Zero(Shift8(w));
    Shift8Zero(Shift8(Shift8(w)));
    Shift8Zero(Shift8(Shift8(Shift8(w))));
  }

  lemma FourByteRegister(d: seq<byte>)
    requires |d| == 4
    ensures Register(ZERO, d) == ZERO <==> Zeros(d)
  {
    hide Shift32, Mix, Register, FourBytes;
    var w := FourBytes(d[0], d[1], d[2], d[3]);
    RegisterOfFour(ZERO, d);
    MixCommutes(ZERO, w);
    MixZero(w);
    Shift32Zero(w);
    FourBytesZero(d[0], d[1], d[2], d[3]);
  }

  lemma ShortRegister(d: seq<byte>)
    requires |d| <= 4
    ensures Register(ZERO, d) == ZERO <==> Zeros(d)
  {
    hide Register;
    var pad: seq<byte> := seq(4 - |d|, _ => 0);
    assert Zeros(d) ==> Zeros(d + pad);
    assert Zeros(d + pad) ==> Zeros(d) by {
      assert forall i :: 0 <= i < |d| ==> (d + pad)[i] == d[i];
    }
    FourByteRegister(d + pad);
    RegisterConcat(ZERO, d, pad);
    RegisterZeros(Register(ZERO, d), pad);
  }

  /** A difference confined to four consecutive bytes leaves a nonzero remainder. */
  lemma WindowRegister(d: seq<byte>, from: nat, to: nat)
    requires from <= to <= |d| && to - from <= 4
    requires Zeros(d[..from]) && Zeros(d[to..]) && !Zeros(d[from..to])
    ensures Register(ZERO, d) != ZERO
  {
    hide Register, Zeros;
    var head, mid, tail := d[..from], d[from..to], d[to..];
    assert d == head + (mid + tail);
    RegisterConcat(ZERO, head, mid + tail);
    RegisterZeros(ZERO, head);
    RegisterConcat(ZERO, mid, tail);
    ShortRegister(mid);
    RegisterZeros(Register(ZERO, mid), tail);
  }

  lemma XorZero(x: byte, y: byte)
    ensures x ^ y == 0 <==> x == y
  {
  }

  lemma ZerosAround(d: seq<byte>, from: nat, to: nat)
    requires from <= to <= |d|
    requires forall i :: 0 <= i < |d| && !(from <= i < to) ==> d[i] == 0
    ensures Zeros(d[..from]) && Zeros(d[to..])
  {
  }

  /** Any change confined to four consecutive bytes changes the checksum. */
  lemma BurstDetected(a: seq<byte>, b: seq<byte>, from: nat)
    requires |a| == |b| && a != b
    requires forall i :: 0 <= i < |a| && !(from <= i < from + 4) ==> a[i] == b[i]
    ensures Crc(a) != Crc(b)
  {
    hide Register, Crc;
    var d := Xor(a, b);
    forall i | 0 <= i < |a| ensures d[i] == 0 <==> a[i] == b[i] {
      XorZero(a[i], b[i]);
    }
    var k :| 0 <= k < |a| && a[k] != b[k];
    var to := if from + 4 <= |a| then from + 4 else |a|;
    assert d[from..to][k - from] != 0;
    ZerosAround(d, from, to);
    WindowRegister(d, from, to);
    Undetected(a, b);
  }

  // ------------------------------------------------------------ from bits to stored bytes

  lemma FromPack(b0: bool, b1: bool, b2: bool, b3: bool, b4: bool, b5: bool, b6: bool, b7: bool)
    ensures FromBits(Pack(b0, b1, b2, b3, b4, b5, b6, b7)) ==
            (if b0 then 1 else 0) + (if b1 then 2 else 0) + (if b2 then 4 else 0) + (if b3 then 8 else 0) +
            (if b4 then 16 else 0) + (if b5 then 32 else 0) + (if b6 then 64 else 0) + (if b7 then 128 else 0)
  {
    PackedBits(b0, b1, b2, b3, b4, b5, b6, b7);
  }

  lemma PackedBits(b0: bool, b1: bool, b2: bool, b3: bool, b4: bool, b5: bool, b6: bool, b7: bool)
    ensures var p := Pack(b0, b1, b2, b3, b4, b5, b6, b7);
            && (p & 1 != 0 <==> b0) && (p & 2 != 0 <==> b1) && (p & 4 != 0 <==> b2) && (p & 8 != 0 <==> b3)
            && (p & 16 != 0 <==> b4) && (p & 32 != 0 <==> b5) && (p & 64 != 0 <==> b6) && (p & 128 != 0 <==> b7)
  {
  }

  lemma OctetHalves(n: octet)
    ensures n == (if OddOctet(n) then 1 else 0) + 2 * HalfOctet(n)
  {
  }

  lemma SevenHalves(n: octet)
    ensures HalfOctet(HalfOctet(HalfOctet(HalfOctet(HalfOctet(HalfOctet(HalfOctet(n))))))) < 2
  {
  }

  lemma FromToBits(n: octet)
    ensures FromBits(ToBits(n)) == n
  {
    hide Pack, FromBits, OddOctet, HalfOctet;
    var n1 := HalfOctet(n);
    var n2 := HalfOctet(n1);
    var n3 := HalfOctet(n2);
    var n4 := HalfOctet(n3);
    var n5 := HalfOctet(n4);
    var n6 := HalfOctet(n5);
    var n7 := HalfOctet(n6);
    FromPack(OddOctet(n), OddOctet(n1), OddOctet(n2), OddOctet(n3), OddOctet(n4), OddOctet(n5), OddOctet(n6),
             OddOctet(n7));
    OctetHalves(n);
    OctetHalves(n1);
    OctetHalves(n2);
    OctetHalves(n3);
    OctetHalves(n4);
    OctetHalves(n5);
    OctetHalves(n6);
    OctetHalves(n7);
    SevenHalves(n);
  }

  lemma ToFromBits(b: byte)
    ensures ToBits(FromBits(b)) == b
  {
    Repack(b);
    var n := FromBits(b);
    FromToBits(n);
    PackFromBits(ToBits(n), b);
  }

  lemma Repack(b: byte)
    ensures b == Pack(b & 1 != 0, b & 2 != 0, b & 4 != 0, b & 8 != 0,
                      b & 16 != 0, b & 32 != 0, b & 64 != 0, b & 128 != 0)
  {
  }

  lemma PackFromBits(b: byte, c: byte)
    requires FromBits(b) == FromBits(c)
    ensures b == c
  {
    Repack(b);
    Repack(c);
  }

  lemma BitsInjective(a: octet, b: octet)
    ensures ToBits(a) == ToBits(b) <==> a == b
  {
    hide ToBits, FromBits;
    FromToBits(a);
    FromToBits(b);
  }

  /** Any change confined to four consecutive bytes changes the stored checksum. */
  lemma ChecksumBurst(a: seq<octet>, b: seq<octet>, from: nat)
    requires |a| == |b| && a != b
    requires SameOutside(a, b, from)
    ensures Checksum(a) != Checksum(b)
  {
    hide Crc, Value, ToBits;
    BitsOfBurst(a, b, from);
    BurstDetected(Bits(a), Bits(b), from);
    ValueInjective(Crc(Bits(a)), Crc(Bits(b)));
  }

  /** The two byte strings agree except in four consecutive places. */
  predicate SameOutside(a: seq<octet>, b: seq<octet>, from: nat)
    requires |a| == |b|
  {
    forall i :: 0 <= i < |a| && !(from <= i < from + 4) ==> a[i] == b[i]
  }

  lemma BitsOfBurst(a: seq<octet>, b: seq<octet>, from: nat)
    requires |a| == |b| && a != b
    requires SameOutside(a, b, from)
    ensures Bits(a) != Bits(b)
    ensures forall i :: 0 <= i < |a| && !(from <= i < from + 4) ==> Bits(a)[i] == Bits(b)[i]
  {
    hide ToBits;
    var k :| 0 <= k < |a| && a[k] != b[k];
    BitsInjective(a[k], b[k]);
    assert Bits(a)[k] != Bits(b)[k];
  }

  lemma BytesOfWord(w: Word)
    ensures FourBytes(Bytes(w)[0], Bytes(w)[1], Bytes(w)[2], Bytes(w)[3]) == w
  {
  }

  lemma WordOfBytes(d0: byte, d1: byte, d2: byte, d3: byte)
    ensures Bytes(FourBytes(d0, d1, d2, d3)) == [d0, d1, d2, d3]
  {
  }

  /** The number decides the register: it is stored exactly by the register's own bytes. */
  lemma StoredValue(w: Word, stored: seq<octet>)
    requires |stored| == 4
    ensures Number(stored) == Value(w) <==> Bits(stored) == Bytes(w)
  {
    hide ToBits, FromBits, Bytes, Number, Digits;
    var b := Bytes(w);
    DigitsOfNumber(stored);
    DigitsOfNumber(Octets4(w));
    forall i | 0 <= i < 4 ensures stored[i] == FromBits(b[i]) <==> ToBits(stored[i]) == b[i] {
      ToFromBits(b[i]);
      FromToBits(stored[i]);
    }
    assert Number(stored) == Value(w) <==> stored == Octets4(w);
    assert Octets4(w) == [FromBits(b[0]), FromBits(b[1]), FromBits(b[2]), FromBits(b[3])];
  }

  lemma ValueInjective(v: Word, w: Word)
    ensures Value(v) == Value(w) <==> v == w
  {
    hide Bytes, FourBytes, Value;
    StoredValue(v, Octets4(w));
    StoredValue(w, Octets4(w));
    BytesOfWord(v);
    BytesOfWord(w);
    assert Number(Octets4(w)) == Value(w) by {
      ValueIsNumber(w);
    }
  }

  lemma ValueIsNumber(w: Word)
    ensures Value(w) == Number(Octets4(w))
  {
  }

  /** A byte string that ends in the checksum of everything before. */
  predicate Sealed(bytes: seq<octet>)
    requires |bytes| >= 4
  {
    Number(bytes[|bytes| - 4..]) == Checksum(bytes[..|bytes| - 4])
  }

  const RESIDUE := Shift32(ONES)

  lemma Shift32Linear(x: Word, y: Word)
    ensures Shift32(Mix(x, y)) == Mix(Shift32(x), Shift32(y))
  {
    hide Shift8, Mix;
    Shift8Linear(x, y);
    Shift8Linear(Shift8(x), Shift8(y));
    Shift8Linear(Shift8(Shift8(x)), Shift8(Shift8(y)));
    Shift8Linear(Shift8(Shift8(Shift8(x))), Shift8(Shift8(Shift8(y))));
  }

  lemma Shift32Injective(x: Word, y: Word)
    ensures Shift32(x) == Shift32(y) <==> x == y
  {
    hide Shift32, Mix;
    Shift32Linear(x, y);
    Shift32Zero(Mix(x, y));
    EqualIffMixZero(x, y);
    EqualIffMixZero(Shift32(x), Shift32(y));
  }

  lemma MixOnes(r: Word, w: Word)
    ensures Mix(r, w) == ONES <==> w == Mix(r, ONES)
  {
    hide Mix;
    EqualIffMixZero(Mix(r, w), ONES);
    EqualIffMixZero(w, Mix(r, ONES));
    MixCommutes(r, w);
    MixAssociates(w, r, ONES);
  }

  /** The seal read as one division: message and stored checksum together leave a fixed remainder. */
  lemma SealedIffResidue(bytes: seq<octet>)
    requires |bytes| >= 4
    ensures Sealed(bytes) <==> Register(ONES, Bits(bytes)) == RESIDUE
  {
    hide ToBits, Bytes, FourBytes, Shift32, Register, Value, Mix;
    var head, tail := bytes[..|bytes| - 4], bytes[|bytes| - 4..];
    var r := Register(ONES, Bits(head));
    var c, d := Crc(Bits(head)), Bits(tail);
    var w := FourBytes(d[0], d[1], d[2], d[3]);
    assert Bits(bytes) == Bits(head) + d;
    RegisterConcat(ONES, Bits(head), d);
    RegisterOfFour(r, d);
    Shift32Injective(Mix(r, w), ONES);
    MixOnes(r, w);
    StoredValue(c, tail);
    BytesOfWord(c);
    WordOfBytes(d[0], d[1], d[2], d[3]);
    assert d == [d[0], d[1], d[2], d[3]];
  }

  /** No change confined to four consecutive bytes turns a sealed string into a sealed one,
      even when it reaches across the end of the message into the stored checksum. */
  lemma SealDetectsBurst(a: seq<octet>, b: seq<octet>, from: nat)
    requires |a| == |b| >= 4
    requires Sealed(a) && Sealed(b)
    requires SameOutside(a, b, from)
    ensures a == b
  {
    if a != b {
      hide ToBits, Register, Sealed, Crc;
      SealedIffResidue(a);
      SealedIffResidue(b);
      BitsOfBurst(a, b, from);
      BurstDetected(Bits(a), Bits(b), from);
      CrcOfRegister(Bits(a), Bits(b));
    }
  }

  lemma CrcOfRegister(a: seq<byte>, b: seq<byte>)
    requires Register(ONES, a) == Register(ONES, b)
    ensures Crc(a) == Crc(b)
  {
  }
}
