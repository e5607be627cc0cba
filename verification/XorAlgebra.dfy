/**
 Registers fed byte by byte, for any register step that is linear over XOR.
 Stated over abstract values so that no proof here needs bit-level reasoning.
 */
module XorAlgebra {

  /** n applications of f. */
  function Iterate<R>(f: R -> R, c: R, n: nat): R {
    if n == 0 then c else f(Iterate(f, c, n - 1))
  }

  /** The register after all of data, from c. */
  function Fold<R, B>(feed: (R, B) -> R, c: R, data: seq<B>): R {
    if data == [] then c else feed(Fold(feed, c, data[..|data| - 1]), data[|data| - 1])
  }

  ghost predicate Linear<R(!new)>(f: R -> R, xor: (R, R) -> R) {
    forall x, y :: f(xor(x, y)) == xor(f(x), f(y))
  }

  /** Only zero is mapped to zero. */
  ghost predicate Faithful<R(!new)>(f: R -> R, zero: R) {
    forall x :: f(x) == zero <==> x == zero
  }

  lemma {:induction false} IterateLinear<R(!new)>(f: R -> R, xor: (R, R) -> R, x: R, y: R, n: nat)
    requires Linear(f, xor)
    ensures Iterate(f, xor(x, y), n) == xor(Iterate(f, x, n), Iterate(f, y, n))
  {
    if n > 0 {
      IterateLinear(f, xor, x, y, n - 1);
    }
  }

  lemma {:induction false} IterateFaithful<R(!new)>(f: R -> R, zero: R, x: R, n: nat)
    requires Faithful(f, zero)
    ensures Iterate(f, x, n) == zero <==> x == zero
  {
    if n > 0 {
      IterateFaithful(f, zero, x, n - 1);
    }
  }

  lemma {:induction false} FoldConcat<R, B>(feed: (R, B) -> R, c: R, a: seq<B>, b: seq<B>)
    ensures Fold(feed, c, a + b) == Fold(feed, Fold(feed, c, a), b)
  {
    if b == [] {
      assert a + b == a;
    } else {
      assert (a + b)[..|a + b| - 1] == a + b[..|b| - 1];
      FoldConcat(feed, c, a, b[..|b| - 1]);
    }
  }

  function XorSeq<B>(xor: (B, B) -> B, a: seq<B>, b: seq<B>): (r: seq<B>)
    requires |a| == |b|
    ensures |r| == |a|
  {
    seq(|a|, i requires 0 <= i < |a| => xor(a[i], b[i]))
  }

  ghost predicate FeedLinear<R(!new), B(!new)>(feed: (R, B) -> R, xorR: (R, R) -> R, xorB: (B, B) -> B) {
    forall c, d, x, y :: feed(xorR(c, d), xorB(x, y)) == xorR(feed(c, x), feed(d, y))
  }

  /** The register of an XOR of messages is the XOR of the registers. */
  lemma {:induction false} FoldLinear<R(!new), B(!new)>(
      feed: (R, B) -> R, xorR: (R, R) -> R, xorB: (B, B) -> B, c: R, d: R, a: seq<B>, b: seq<B>)
    requires FeedLinear(feed, xorR, xorB) && |a| == |b|
    ensures Fold(feed, xorR(c, d), XorSeq(xorB, a, b)) == xorR(Fold(feed, c, a), Fold(feed, d, b))
  {
    if a != [] {
      var last := |a| - 1;
      assert XorSeq(xorB, a, b)[..last] == XorSeq(xorB, a[..last], b[..last]);
      FoldLinear(feed, xorR, xorB, c, d, a[..last], b[..last]);
    }
  }

  ghost predicate AllZero<B(!new)>(data: seq<B>, zero: B) {
    forall i :: 0 <= i < |data| ==> data[i] == zero
  }

  ghost predicate FeedFaithful<R(!new), B>(feed: (R, B) -> R, zeroR: R, zeroB: B) {
    forall c :: feed(c, zeroB) == zeroR <==> c == zeroR
  }

  /** Zero bytes keep a zero register zero and a nonzero one nonzero. */
  lemma {:induction false} FoldZeros<R(!new), B(!new)>(feed: (R, B) -> R, zeroR: R, zeroB: B, c: R, data: seq<B>)
    requires FeedFaithful(feed, zeroR, zeroB) && AllZero(data, zeroB)
    ensures Fold(feed, c, data) == zeroR <==> c == zeroR
  {
    if data != [] {
      FoldZeros(feed, zeroR, zeroB, c, data[..|data| - 1]);
    }
  }

  lemma FoldLast<R, B>(feed: (R, B) -> R, c: R, data: seq<B>, x: B)
    ensures Fold(feed, c, data + [x]) == feed(Fold(feed, c, data), x)
  {
    assert (data + [x])[..|data|] == data;
  }

  /** Among zero bytes only the two bytes in the middle decide whether the register ends at zero. */
  lemma FoldTwo<R(!new), B(!new)>(feed: (R, B) -> R, zeroR: R, zeroB: B, head: seq<B>, x: B, y: B, tail: seq<B>)
    requires FeedFaithful(feed, zeroR, zeroB) && AllZero(head, zeroB) && AllZero(tail, zeroB)
    ensures Fold(feed, zeroR, head + [x] + [y] + tail) == zeroR <==> feed(feed(zeroR, x), y) == zeroR
  {
    FoldConcat(feed, zeroR, head + [x] + [y], tail);
    FoldLast(feed, zeroR, head + [x], y);
    FoldLast(feed, zeroR, head, x);
    FoldZeros(feed, zeroR, zeroB, zeroR, head);
    FoldZeros(feed, zeroR, zeroB, Fold(feed, zeroR, head + [x] + [y]), tail);
  }
}
