/** The CRC as the remainder of a division of polynomials over the field of two elements. */
module CrcDivision {
  import opened Bytes
  import opened Crc
  import opened XorAlgebra

  /** The coefficients of a polynomial, highest first. */
  type Poly = seq<bool>

  /** x^16 + x^12 + x^5 + 1. */
  const GENERATOR: Poly := [true,
    false, false, false, true, false, false, false, false, false, false, true, false, false, false, false, true]

  /** The sum of p and q, q no longer than p: the coefficients of equal powers are added. */
  function Sum2(p: Poly, q: Poly): (r: Poly)
    requires |q| <= |p|
    ensures |r| == |p|
  {
    var lead := |p| - |q|;
    seq(|p|, i requires 0 <= i < |p| => if i < lead then p[i] else p[i] != q[i - lead])
  }

  /** The product of q and g: that of q without its last coefficient times x, and g once more if that coefficient is one. */
  function Product(q: Poly, g: Poly): (r: Poly)
    requires g != []
    ensures |r| == |q| + |g| - 1
  {
    if q == [] then Zeros(|g| - 1)
    else
      var times := Product(q[..|q| - 1], g) + [false];
      if q[|q| - 1] then Sum2(times, g) else times
  }

  /** A message as a polynomial: its bits, the highest of each byte first. */
  function Message(data: seq<byte>): (r: Poly)
    ensures |r| == 8 * |data|
  {
    if data == [] then [] else Message(data[..|data| - 1]) + Bits(data[|data| - 1], 8)
  }

  // ---- one bit of the division ---------------------------------------------

  /** The remainder after one more bit of the dividend. */
  function NextRemainder(r: Register, bit: bool): Register {
    var shifted := r[1..] + [false];
    if r[0] != bit then Sum2(shifted, GENERATOR[1..]) else shifted
  }

  lemma DivideBit(q: Poly, m: Poly, r: Register, bit: bool)
    requires |q| == |m| && Product(q, GENERATOR) == m + r
    ensures Product(q + [r[0] != bit], GENERATOR) == (m + [bit]) + NextRemainder(r, bit)
  {
    var quotient := r[0] != bit;
    assert (q + [quotient])[..|q|] == q;
    var times := (m + r) + [false];
    assert times == m + ([r[0]] + (r[1..] + [false]));
    assert (m + [bit]) + NextRemainder(r, bit) == m + ([bit] + NextRemainder(r, bit));
    if quotient { SumBehind(m, r, bit); }
  }

  lemma SumBehind(m: Poly, r: Register, bit: bool)
    requires r[0] != bit
    ensures Sum2(m + ([r[0]] + (r[1..] + [false])), GENERATOR) == m + ([bit] + NextRemainder(r, bit))
  {
    var tail := [r[0]] + (r[1..] + [false]);
    SumOfTail(m, tail, GENERATOR);
    assert Sum2(tail, GENERATOR) == [bit] + NextRemainder(r, bit);
  }

  lemma SumOfTail(m: Poly, tail: Poly, g: Poly)
    requires |g| == |tail|
    ensures Sum2(m + tail, g) == m + Sum2(tail, g)
  {
  }

  // ---- the register divides ------------------------------------------------

  /** The bits of a byte not yet divided stand at the top of the register. */
  function Pending(b: ByteBits, n: nat): (r: Register)
    requires n <= 8
  {
    b[n..] + Zeros(8 + n)
  }

  lemma ShiftDivides(r: Register, b: ByteBits, n: nat)
    requires n < 8
    ensures ShiftStep(Xor16(r, Pending(b, n))) == Xor16(NextRemainder(r, b[n]), Pending(b, n + 1))
  {
    var x := Xor16(r, Pending(b, n));
    assert x[0] == (r[0] != b[n]);
    forall i | 0 <= i < 16
      ensures ShiftStep(x)[i] == Xor16(NextRemainder(r, b[n]), Pending(b, n + 1))[i]
    {
      StepBit(x, i);
      assert POLYNOMIAL[i] == GENERATOR[i + 1];
      if i < 15 { assert Pending(b, n)[i + 1] == Pending(b, n + 1)[i]; }
    }
  }

  /** The remainder after the first n bits of a byte. */
  function Remainder(r: Register, b: ByteBits, n: nat): Register
    requires n <= 8
  {
    if n == 0 then r else NextRemainder(Remainder(r, b, n - 1), b[n - 1])
  }

  lemma {:induction false} ShiftsDivide(r: Register, b: ByteBits, n: nat)
    requires n <= 8
    ensures Iterate<Register>(ShiftStep, Xor16(r, High(b)), n) == Xor16(Remainder(r, b, n), Pending(b, n))
    decreases n, r
  {
    if n > 0 {
      ShiftsDivide(r, b, n - 1);
      ShiftDivides(Remainder(r, b, n - 1), b, n - 1);
    } else {
      assert High(b) == Pending(b, 0);
    }
  }

  lemma ByteDivides(r: Register, b: ByteBits)
    ensures CrcByte(r, b) == Remainder(r, b, 8)
  {
    ShiftsDivide(r, b, 8);
    assert Pending(b, 8) == Zeros(16);
    assert Xor16(Remainder(r, b, 8), Zeros(16)) == Remainder(r, b, 8);
  }

  lemma {:induction false} DivideByte(q: Poly, m: Poly, r: Register, b: ByteBits, n: nat) returns (quotient: Poly)
    requires n <= 8 && |q| == |m| && Product(q, GENERATOR) == m + r
    ensures |quotient| == |m| + n && Product(quotient, GENERATOR) == (m + b[..n]) + Remainder(r, b, n)
    decreases n, q
  {
    if n == 0 {
      quotient := q;
      assert m + b[..0] == m;
    } else {
      var before := DivideByte(q, m, r, b, n - 1);
      var rest := Remainder(r, b, n - 1);
      DivideBit(before, m + b[..n - 1], rest, b[n - 1]);
      quotient := before + [rest[0] != b[n - 1]];
      assert (m + b[..n - 1]) + [b[n - 1]] == m + b[..n];
    }
  }

  lemma CrcOfLast(data: seq<byte>)
    requires data != []
    ensures Crc16(data) == CrcByte(Crc16(data[..|data| - 1]), Bits(data[|data| - 1], 8))
  {
    assert ToBits(data)[..|data| - 1] == ToBits(data[..|data| - 1]);
  }

  /**
   The CRC of any message is the remainder of its division: the message times
   x^16, plus the CRC, is a multiple of x^16 + x^12 + x^5 + 1. Followed by its
   sixteen bits is multiplied by x^16 and increased by them.
   */
  lemma {:induction false} CrcIsRemainder(data: seq<byte>) returns (q: Poly)
    ensures |q| == 8 * |data| && Product(q, GENERATOR) == Message(data) + Crc16(data)
  {
    if data == [] {
      q := [];
    } else {
      var front, b := data[..|data| - 1], Bits(data[|data| - 1], 8);
      var before := CrcIsRemainder(front);
      q := DivideByte(before, Message(front), Crc16(front), b, 8);
      assert b[..8] == b;
      CrcOfLast(data);
      ByteDivides(Crc16(front), b);
    }
  }

  // ---- there is no other remainder -----------------------------------------

  /** The leading coefficients of a multiple determine the quotient. */
  lemma {:induction false} QuotientUnique(p: Poly, q: Poly)
    requires |p| == |q| && Product(p, GENERATOR)[..|p|] == Product(q, GENERATOR)[..|q|]
    ensures p == q
  {
    if p != [] {
      var n := |p| - 1;
      LeadingBits(p);
      LeadingBits(q);
      var a, b := Product(p, GENERATOR), Product(q, GENERATOR);
      assert a[..n] == a[..n + 1][..n] && b[..n] == b[..n + 1][..n];
      QuotientUnique(p[..n], q[..n]);
      assert a[n] == a[..n + 1][n] == b[..n + 1][n] == b[n];
      assert p == p[..n] + [p[n]] && q == q[..n] + [q[n]];
    }
  }

  lemma LeadingBits(q: Poly)
    requires q != []
    ensures var n, front := |q| - 1, Product(q[..|q| - 1], GENERATOR);
            && Product(q, GENERATOR)[..n] == front[..n]
            && Product(q, GENERATOR)[n] == (front[n] != q[n])
  {
    var n, front := |q| - 1, Product(q[..|q| - 1], GENERATOR);
    LeadOfSum(front, GENERATOR, n);
  }

  /** Adding a polynomial with leading coefficient one changes the coefficient it begins at and none before. */
  lemma LeadOfSum(front: Poly, g: Poly, n: nat)
    requires |front| == n + |g| - 1 && g != [] && g[0]
    ensures var times := front + [false];
            && times[..n] == front[..n] && (n < |front| ==> times[n] == front[n])
            && Sum2(times, g)[..n] == front[..n] && (n < |front| ==> Sum2(times, g)[n] != front[n])
  {
  }

  /** Of sixteen bits behind a message only its CRC make it a multiple. */
  lemma RemainderUnique(data: seq<byte>, q: Poly, r: Register)
    requires |q| == 8 * |data| && Product(q, GENERATOR) == Message(data) + r
    ensures r == Crc16(data)
  {
    var p := CrcIsRemainder(data);
    assert (Message(data) + r)[..|q|] == Message(data) == (Message(data) + Crc16(data))[..|p|];
    QuotientUnique(p, q);
    assert (Message(data) + r)[|q|..] == r && (Message(data) + Crc16(data))[|q|..] == Crc16(data);
  }
}
