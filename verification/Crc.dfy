/**
 CRC-16/XMODEM: polynomial 0x1021, initial value zero, high bit first.

 The register is its sixteen bits, highest first, so that the shifts, masks
 and exclusive ors of the computation are what they say.
 */
module Crc {
  import opened Bytes
  import opened XorAlgebra

  // ---- numbers as bits -----------------------------------------------------

  /** The lowest width bits of n, highest first. */
  function Bits(n: nat, width: nat): (r: seq<bool>)
    ensures |r| == width
  {
    if width == 0 then [] else Bits(n / 2, width - 1) + [n % 2 == 1]
  }

  function Value(bits: seq<bool>): nat {
    if bits == [] then 0 else 2 * Value(bits[..|bits| - 1]) + if bits[|bits| - 1] then 1 else 0
  }

  lemma {:induction false} ValueOfBits(n: nat, width: nat)
    requires n < Power2(width)
    ensures Value(Bits(n, width)) == n
  {
    if width > 0 {
      ValueOfBits(n / 2, width - 1);
    }
  }

  lemma {:induction false} BitsOfValue(bits: seq<bool>)
    ensures Value(bits) < Power2(|bits|)
    ensures Bits(Value(bits), |bits|) == bits
  {
    if bits != [] {
      BitsOfValue(bits[..|bits| - 1]);
    }
  }

  // ---- the computation -----------------------------------------------------

  function Zeros(n: nat): (r: seq<bool>)
    ensures |r| == n && forall i :: 0 <= i < n ==> !r[i]
  {
    seq(n, _ => false)
  }

  type Register = r: seq<bool> | |r| == 16 witness Zeros(16)

  type ByteBits = b: seq<bool> | |b| == 8 witness Zeros(8)

  /** 0x1021. */
  const POLYNOMIAL: Register := [
    false, false, false, true, false, false, false, false,
    false, false, true, false, false, false, false, true]

  function Xor16(x: Register, y: Register): (r: Register) {
    seq(16, i requires 0 <= i < 16 => x[i] != y[i])
  }

  function Xor8(x: ByteBits, y: ByteBits): (r: ByteBits) {
    seq(8, i requires 0 <= i < 8 => x[i] != y[i])
  }

  /** `crc << 1` within sixteen bits. */
  function ShiftLeft(crc: Register): Register {
    crc[1..] + [false]
  }

  /** One pass of the inner loop: `crc & 0x8000` is the highest bit. */
  function ShiftStep(crc: Register): Register {
    if crc[0] then Xor16(ShiftLeft(crc), POLYNOMIAL) else ShiftLeft(crc)
  }

  /** `b << 8`. */
  function High(b: ByteBits): Register {
    b + Zeros(8)
  }

  /** One pass of the outer loop: the byte into the top half, then eight shifts. */
  function CrcByte(crc: Register, b: ByteBits): Register {
    Iterate<Register>(ShiftStep, Xor16(crc, High(b)), 8)
  }

  function CrcOfBits(data: seq<ByteBits>): Register {
    Fold<Register, ByteBits>(CrcByte, Zeros(16), data)
  }

  function ToBits(data: seq<byte>): (r: seq<ByteBits>)
    ensures |r| == |data|
    ensures forall i :: 0 <= i < |data| ==> r[i] == Bits(data[i], 8)
  {
    seq(|data|, i requires 0 <= i < |data| => Bits(data[i], 8))
  }

  function Crc16(data: seq<byte>): Register {
    CrcOfBits(ToBits(data))
  }

  method ComputeCrc16(data: seq<byte>) returns (crc: Register)
    ensures crc == Crc16(data)
  {
    crc := Zeros(16);
    for i := 0 to |data|
      invariant crc == Crc16(data[..i])
    {
      assert ToBits(data[..i + 1])[..i] == ToBits(data[..i]);
      crc := FeedByte(crc, data[i]);
    }
    assert data[..|data|] == data;
  }

  method FeedByte(before: Register, b: byte) returns (crc: Register)
    ensures crc == CrcByte(before, Bits(b, 8))
  {
    crc := Xor16(before, High(Bits(b, 8)));
    ghost var start := crc;
    for bit := 0 to 8
      invariant crc == Iterate<Register>(ShiftStep, start, bit)
    {
      crc := if crc[0] then Xor16(ShiftLeft(crc), POLYNOMIAL) else ShiftLeft(crc);
    }
  }

  // ---- the step is linear and loses nothing --------------------------------

  lemma StepBit(x: Register, i: nat)
    requires i < 16
    ensures ShiftStep(x)[i] <==> ((i < 15 && x[i + 1]) != (x[0] && POLYNOMIAL[i]))
  {
  }

  lemma StepLinear(x: Register, y: Register)
    ensures ShiftStep(Xor16(x, y)) == Xor16(ShiftStep(x), ShiftStep(y))
  {
    forall i | 0 <= i < 16
      ensures ShiftStep(Xor16(x, y))[i] == Xor16(ShiftStep(x), ShiftStep(y))[i]
    {
      StepBit(x, i);
      StepBit(y, i);
      StepBit(Xor16(x, y), i);
    }
  }

  /** The polynomial is odd, so only zero steps to zero. */
  lemma StepFaithful(x: Register)
    ensures ShiftStep(x) == Zeros(16) <==> x == Zeros(16)
  {
    StepBit(x, 15);
    assert POLYNOMIAL[15];
    if ShiftStep(x) == Zeros(16) {
      assert !ShiftStep(x)[15];
      forall j | 1 <= j < 16
        ensures !x[j]
      {
        StepBit(x, j - 1);
        assert !ShiftStep(x)[j - 1];
      }
      assert x == Zeros(16);
    }
  }

  lemma StepAlgebra()
    ensures Linear<Register>(ShiftStep, Xor16) && Faithful<Register>(ShiftStep, Zeros(16))
  {
    forall x: Register, y: Register
      ensures ShiftStep(Xor16(x, y)) == Xor16(ShiftStep(x), ShiftStep(y))
    {
      StepLinear(x, y);
    }
    forall x: Register
      ensures ShiftStep(x) == Zeros(16) <==> x == Zeros(16)
    {
      StepFaithful(x);
    }
  }

  lemma XorRearrange(a: Register, b: Register, x: Register, y: Register)
    ensures Xor16(Xor16(a, b), Xor16(x, y)) == Xor16(Xor16(a, x), Xor16(b, y))
  {
  }

  lemma XorEquals(x: Register, y: Register)
    ensures Xor16(x, y) == Zeros(16) <==> x == y
  {
    if Xor16(x, y) == Zeros(16) {
      forall i | 0 <= i < 16
        ensures x[i] == y[i]
      {
        assert !Xor16(x, y)[i];
      }
    }
  }

  lemma HighLinear(x: ByteBits, y: ByteBits)
    ensures High(Xor8(x, y)) == Xor16(High(x), High(y))
  {
  }

  lemma HighOfZero(c: Register)
    ensures Xor16(c, High(Zeros(8))) == c
  {
  }

  lemma CrcByteLinear(c: Register, d: Register, x: ByteBits, y: ByteBits)
    ensures CrcByte(Xor16(c, d), Xor8(x, y)) == Xor16(CrcByte(c, x), CrcByte(d, y))
  {
    StepAlgebra();
    HighLinear(x, y);
    XorRearrange(c, d, High(x), High(y));
    IterateLinear<Register>(ShiftStep, Xor16, Xor16(c, High(x)), Xor16(d, High(y)), 8);
  }

  lemma FeedAlgebra()
    ensures FeedLinear<Register, ByteBits>(CrcByte, Xor16, Xor8) && FeedFaithful<Register, ByteBits>(CrcByte, Zeros(16), Zeros(8))
  {
    forall c: Register, d: Register, x: ByteBits, y: ByteBits
      ensures CrcByte(Xor16(c, d), Xor8(x, y)) == Xor16(CrcByte(c, x), CrcByte(d, y))
    {
      CrcByteLinear(c, d, x, y);
    }
    forall c: Register
      ensures CrcByte(c, Zeros(8)) == Zeros(16) <==> c == Zeros(16)
    {
      StepAlgebra();
      HighOfZero(c);
      IterateFaithful<Register>(ShiftStep, Zeros(16), c, 8);
    }
  }

  // ---- linearity -----------------------------------------------------------

  /** The CRC of an exclusive or of equally long messages is the exclusive or of their CRCs. */
  lemma CrcOfXor(a: seq<ByteBits>, b: seq<ByteBits>)
    requires |a| == |b|
    ensures CrcOfBits(XorSeq<ByteBits>(Xor8, a, b)) == Xor16(CrcOfBits(a), CrcOfBits(b))
  {
    FeedAlgebra();
    assert Xor16(Zeros(16), Zeros(16)) == Zeros(16);
    FoldLinear<Register, ByteBits>(CrcByte, Xor16, Xor8, Zeros(16), Zeros(16), a, b);
  }

  // ---- residue -------------------------------------------------------------

  /** A low byte moves up without ever reaching the highest bit. */
  lemma {:induction false} LowByteShifts(b: ByteBits, n: nat)
    requires n <= 8
    ensures |Zeros(8) + b| == 16
    ensures Iterate<Register>(ShiftStep, Zeros(8) + b, n) == Zeros(8 - n) + b + Zeros(n)
  {
    if n > 0 {
      LowByteShifts(b, n - 1);
      var before := Zeros(9 - n) + b + Zeros(n - 1);
      assert !before[0];
      assert ShiftLeft(before) == Zeros(8 - n) + b + Zeros(n);
    } else {
      assert Zeros(8) + b + Zeros(0) == Zeros(8) + b;
    }
  }

  lemma LowByteBecomesHigh(b: ByteBits)
    ensures Iterate<Register>(ShiftStep, Zeros(8) + b, 8) == High(b)
  {
    LowByteShifts(b, 8);
    assert Zeros(0) + b + Zeros(8) == High(b);
  }

  function HighBits(crc: Register): ByteBits {
    crc[..8]
  }

  function LowBits(crc: Register): ByteBits {
    crc[8..]
  }

  lemma FeedOwnBytes(c: Register)
    ensures CrcByte(CrcByte(c, HighBits(c)), LowBits(c)) == Zeros(16)
  {
    var low := LowBits(c);
    assert Xor16(c, High(HighBits(c))) == Zeros(8) + low;
    LowByteBecomesHigh(low);
    assert Xor16(High(low), High(low)) == Zeros(16);
    StepAlgebra();
    IterateFaithful<Register>(ShiftStep, Zeros(16), Zeros(16), 8);
  }

  /** The two bytes a packet carries after its data: high byte, then low byte. */
  function CrcBytes(data: seq<byte>): (r: seq<byte>)
    ensures |r| == 2
  {
    RegisterBytes(Crc16(data))
  }

  function RegisterBytes(crc: Register): (r: seq<byte>)
    ensures |r| == 2
  {
    BitsOfValue(HighBits(crc));
    BitsOfValue(LowBits(crc));
    assert Power2(8) == 256;
    [Value(HighBits(crc)), Value(LowBits(crc))]
  }

  lemma AppendTwo(bits: seq<ByteBits>, x: ByteBits, y: ByteBits)
    ensures CrcOfBits(bits + [x, y]) == CrcByte(CrcByte(CrcOfBits(bits), x), y)
  {
    assert bits + [x, y] == (bits + [x]) + [y];
    FoldLast<Register, ByteBits>(CrcByte, Zeros(16), bits + [x], y);
    FoldLast<Register, ByteBits>(CrcByte, Zeros(16), bits, x);
  }

  /** Data followed by its CRC, high byte first, has CRC zero. */
  lemma Residue(data: seq<byte>)
    ensures Crc16(data + CrcBytes(data)) == Zeros(16)
  {
    var crc := Crc16(data);
    BitsOfValue(HighBits(crc));
    BitsOfValue(LowBits(crc));
    assert ToBits(data + CrcBytes(data)) == ToBits(data) + [HighBits(crc), LowBits(crc)];
    AppendTwo(ToBits(data), HighBits(crc), LowBits(crc));
    FeedOwnBytes(crc);
  }

  // ---- detection -----------------------------------------------------------

  /** Eight shifts of two registers agree only when the registers do. */
  lemma ShiftsInjective(x: Register, y: Register)
    requires Iterate<Register>(ShiftStep, x, 8) == Iterate<Register>(ShiftStep, y, 8)
    ensures x == y
  {
    StepAlgebra();
    IterateLinear<Register>(ShiftStep, Xor16, x, y, 8);
    IterateFaithful<Register>(ShiftStep, Zeros(16), Xor16(x, y), 8);
    XorEquals(x, y);
    XorEquals(Iterate<Register>(ShiftStep, x, 8), Iterate<Register>(ShiftStep, y, 8));
  }

  lemma FirstByte(x: ByteBits)
    ensures CrcByte(Zeros(16), x) == Iterate<Register>(ShiftStep, High(x), 8)
  {
    assert Xor16(Zeros(16), High(x)) == High(x);
  }

  /** Two adjacent bytes that are not both zero leave a nonzero register. */
  lemma TwoBytesShow(x: ByteBits, y: ByteBits)
    requires CrcByte(CrcByte(Zeros(16), x), y) == Zeros(16)
    ensures x == Zeros(8) && y == Zeros(8)
  {
    var t := CrcByte(Zeros(16), x);
    assert t == High(y) by {
      StepAlgebra();
      IterateFaithful<Register>(ShiftStep, Zeros(16), Xor16(t, High(y)), 8);
      XorEquals(t, High(y));
    }
    FirstByte(x);
    LowByteBecomesHigh(y);
    var low: Register := Zeros(8) + y;
    ShiftsInjective(High(x), low);
    assert High(x)[..8] == x && low[..8] == Zeros(8);
    assert High(x)[8..] == Zeros(8) && low[8..] == y;
  }

  /** The messages differ, and only in the two bytes at i. */
  ghost predicate DiffersAt<T>(a: seq<T>, b: seq<T>, i: nat) {
    && |a| == |b| && i + 2 <= |a|
    && a != b
    && forall j :: 0 <= j < |a| && j != i && j != i + 1 ==> a[j] == b[j]
  }

  lemma XorOfSame(x: ByteBits, y: ByteBits)
    ensures Xor8(x, y) == Zeros(8) <==> x == y
  {
    if Xor8(x, y) == Zeros(8) {
      forall i | 0 <= i < 8
        ensures x[i] == y[i]
      {
        assert !Xor8(x, y)[i];
      }
    }
  }

  /** Corruption confined to two adjacent bytes changes the CRC. */
  lemma AdjacentChangeShows(a: seq<ByteBits>, b: seq<ByteBits>, i: nat)
    requires DiffersAt(a, b, i)
    ensures CrcOfBits(a) != CrcOfBits(b)
  {
    var e := XorSeq<ByteBits>(Xor8, a, b);
    forall j | 0 <= j < |e|
      ensures e[j] == Zeros(8) <==> a[j] == b[j]
    {
      XorOfSame(a[j], b[j]);
    }
    if CrcOfBits(a) == CrcOfBits(b) {
      CrcOfXor(a, b);
      XorEquals(CrcOfBits(a), CrcOfBits(b));
      PairShows(e[..i], e[i], e[i + 1], e[i + 2..]);
      assert e == e[..i] + [e[i]] + [e[i + 1]] + e[i + 2..];
      DiffersSomewhere(a, b, i);
    }
  }

  /** A message that is zero but for two adjacent bytes has CRC zero only if those are zero too. */
  lemma PairShows(head: seq<ByteBits>, x: ByteBits, y: ByteBits, tail: seq<ByteBits>)
    requires AllZero<ByteBits>(head, Zeros(8)) && AllZero<ByteBits>(tail, Zeros(8))
    ensures CrcOfBits(head + [x] + [y] + tail) == Zeros(16) ==> x == Zeros(8) && y == Zeros(8)
  {
    FeedAlgebra();
    FoldTwo<Register, ByteBits>(CrcByte, Zeros(16), Zeros(8), head, x, y, tail);
    if CrcByte(CrcByte(Zeros(16), x), y) == Zeros(16) {
      TwoBytesShow(x, y);
    }
  }

  lemma DiffersSomewhere<T>(a: seq<T>, b: seq<T>, i: nat)
    requires DiffersAt(a, b, i)
    ensures a[i] != b[i] || a[i + 1] != b[i + 1]
  {
  }

  lemma BitsInjective(x: byte, y: byte)
    requires Bits(x, 8) == Bits(y, 8)
    ensures x == y
  {
    assert Power2(8) == 256;
    ValueOfBits(x, 8);
    ValueOfBits(y, 8);
  }

  /** Whatever is received in place of data and CRC, a change in two adjacent bytes is noticed. */
  lemma AdjacentCorruptionDetected(data: seq<byte>, received: seq<byte>, i: nat)
    requires DiffersAt(received, data + CrcBytes(data), i)
    ensures Crc16(received) != Zeros(16)
  {
    var sent := data + CrcBytes(data);
    Residue(data);
    DiffersSomewhere(received, sent, i);
    var k := if received[i] != sent[i] then i else i + 1;
    if ToBits(received)[k] == ToBits(sent)[k] {
      BitsInjective(received[k], sent[k]);
    }
    AdjacentChangeShows(ToBits(received), ToBits(sent), i);
  }
}
