/** Bytes, byte sequences and the error values shared by the models. */
module Bytes {

  type byte = x: int | 0 <= x < 256

  type word = x: int | 0 <= x < 65536

  datatype Option<+T> = None | Some(value: T)

  datatype Result<+T, +E> = Ok(value: T) | Err(error: E)

  /** The arithmetic sum of a byte sequence; every checksum in the system is this modulo 256 or 65536. */
  function Sum(s: seq<byte>): (r: nat)
  {
    if s == [] then 0 else Sum(s[..|s| - 1]) + s[|s| - 1]
  }

  lemma {:induction false} SumConcat(s: seq<byte>, t: seq<byte>)
    ensures Sum(s + t) == Sum(s) + Sum(t)
  {
    if t == [] {
      assert s + t == s;
    } else {
      assert (s + t)[..|s + t| - 1] == s + t[..|t| - 1];
      SumConcat(s, t[..|t| - 1]);
    }
  }

  lemma {:induction false} SumUpdated(s: seq<byte>, i: nat, b: byte)
    requires i < |s|
    ensures Sum(s[i := b]) == Sum(s) - s[i] + b
  {
    var last := |s| - 1;
    if i == last {
      assert s[i := b][..last] == s[..last];
    } else {
      assert s[i := b][..last] == s[..last][i := b];
      SumUpdated(s[..last], i, b);
    }
  }

  /** The two bytes of a 16-bit word, and the word back from them. */
  function Lsb(w: word): byte {
    w % 256
  }

  function Msb(w: word): byte {
    w / 256
  }

  function Word(lsb: byte, msb: byte): (w: word)
    ensures Lsb(w) == lsb && Msb(w) == msb
  {
    (lsb as int) + 256 * (msb as int)
  }

  lemma WordHalves(w: word)
    ensures Word(Lsb(w), Msb(w)) == w
  {
  }

  function Power2(n: nat): (r: nat)
    ensures r > 0
  {
    if n == 0 then 1 else 2 * Power2(n - 1)
  }

  /** Chunks put together. */
  function Flat(chunks: seq<seq<byte>>): seq<byte> {
    if chunks == [] then [] else Flat(chunks[..|chunks| - 1]) + chunks[|chunks| - 1]
  }

  lemma FlatPush(chunks: seq<seq<byte>>, c: seq<byte>)
    ensures Flat(chunks + [c]) == Flat(chunks) + c
  {
    assert (chunks + [c])[..|chunks|] == chunks;
  }

  lemma FrontAndNext<T>(s: seq<T>, a: nat, n: nat)
    requires a + n <= |s|
    ensures s[..a + n] == s[..a] + s[a..][..n]
  {
    SliceOfSlice(s, a, |s|, 0, n);
    assert s[..a + n] == s[..a] + s[a..a + n];
  }

  /** A slice of a slice. */
  lemma SliceOfSlice<T>(s: seq<T>, a: nat, b: nat, c: nat, d: nat)
    requires a <= b <= |s| && c <= d <= b - a
    ensures s[a..b][c..d] == s[a + c..a + d]
  {
    var x, y := s[a..b][c..d], s[a + c..a + d];
    forall i | 0 <= i < d - c
      ensures x[i] == y[i]
    {
      assert x[i] == s[a..b][c + i];
    }
  }

  function Repeat<T>(x: T, n: nat): (r: seq<T>)
    ensures |r| == n && forall i :: 0 <= i < n ==> r[i] == x
  {
    seq(n, _ => x)
  }

  function Min(a: int, b: int): int {
    if a <= b then a else b
  }

  /**
   `Math.floor(n / d)` and `n % d` by repeated subtraction. Spelled out so that
   proofs which only compare block numbers need no division reasoning.
   */
  function FloorDiv(n: nat, d: nat): (q: nat)
    requires d > 0
  {
    if n < d then 0 else 1 + FloorDiv(n - d, d)
  }

  function FloorMod(n: nat, d: nat): (r: nat)
    requires d > 0
    ensures r < d
  {
    if n < d then n else FloorMod(n - d, d)
  }

  lemma {:induction false} DivModSplit(n: nat, d: nat)
    requires d > 0
    ensures FloorDiv(n, d) * d + FloorMod(n, d) == n
  {
    if n >= d {
      DivModSplit(n - d, d);
      assert FloorDiv(n, d) * d == d + FloorDiv(n - d, d) * d;
    }
  }

  lemma DivModUnique(n: nat, d: nat, q: nat, r: nat)
    requires r < d && q * d + r == n
    ensures FloorDiv(n, d) == q && FloorMod(n, d) == r
  {
    DivModSplit(n, d);
    MultiplesApart(d, q, FloorDiv(n, d));
    MultiplesApart(d, FloorDiv(n, d), q);
  }

  /** Distinct multiples of k differ by at least k. */
  lemma MultiplesApart(k: nat, b: nat, c: nat)
    ensures b < c ==> b * k + k <= c * k
  {
    if b < c {
      var d := c - b - 1;
      assert c * k == b * k + k + d * k;
    }
  }

  /** `Math.ceil(n / d)`. */
  function CeilDiv(n: nat, d: nat): nat
    requires d > 0
  {
    FloorDiv(n + d - 1, d)
  }

  lemma CeilDivBounds(n: nat, d: nat)
    requires d > 0
    ensures n <= CeilDiv(n, d) * d < n + d
  {
    DivModSplit(n + d - 1, d);
  }

  // ---- 128-byte records ----------------------------------------------------

  const EOF_MARK: byte := 0x1A

  /** Bytes of 0x1A that complete the last 128-byte record. */
  function PadLength(n: nat): nat {
    if n % 128 == 0 then 0 else 128 - n % 128
  }

  /** The bytes as whole records, the last one completed with 0x1A. */
  function Padded(data: seq<byte>): (r: seq<byte>)
    ensures |r| % 128 == 0
  {
    data + Repeat(EOF_MARK, PadLength(|data|))
  }

  lemma PaddedLength(data: seq<byte>)
    ensures |Padded(data)| == CeilDiv(|data|, 128) * 128
  {
    CeilDivBounds(|data|, 128);
  }
}
