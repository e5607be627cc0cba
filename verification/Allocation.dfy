/** Which blocks are taken, which are handed out, and how many remain. */
module Allocation {
  import opened Bytes
  import opened DiskGeometry
  import opened Directory
  import opened FileView

  /** Pointer x of slot k counts as a use of a block when it is a nonzero block number of the disk. */
  predicate Marks(total: nat, dir: Dir, k: int, x: int) {
    InUse(dir, k, x) && dir[k].blockPointers[x] < total
  }

  ghost predicate Marked(total: nat, dir: Dir, b: nat) {
    exists k, x :: Marks(total, dir, k, x) && dir[k].blockPointers[x] == b
  }

  /** Every marked block lies above b, and there is one. */
  ghost predicate BelowAllMarked(total: nat, dir: Dir, b: nat) {
    && (exists k, x :: Marks(total, dir, k, x))
    && forall k, x :: Marks(total, dir, k, x) ==> b < dir[k].blockPointers[x]
  }

  /**
   A block is not available when it holds directory entries, is used by a
   live file, or lies in the gap below the lowest block a live file uses,
   where a larger directory may continue.
   */
  ghost predicate Reserved(p: DiskParams, dir: Dir, b: nat)
    requires ValidParams(p)
  {
    || b < DirBlocks(p)
    || Marked(TotalBlocks(p), dir, b)
    || BelowAllMarked(TotalBlocks(p), dir, b)
  }

  ghost function Bitmap(p: DiskParams, dir: Dir): (bits: seq<bool>)
    requires ValidParams(p)
    ensures |bits| == TotalBlocks(p)
  {
    seq(TotalBlocks(p), b requires b >= 0 => Reserved(p, dir, b))
  }

  /** The first count unset positions of a bitmap, or all of them when there are fewer. */
  function FirstFree(bits: seq<bool>, count: nat): (r: seq<nat>)
    ensures |r| <= count
    ensures forall i :: 0 <= i < |r| ==> r[i] < |bits| && !bits[r[i]]
    ensures forall i, j :: 0 <= i < j < |r| ==> r[i] < r[j]
  {
    if bits == [] then []
    else
      var last := |bits| - 1;
      var r := FirstFree(bits[..last], count);
      if |r| < count && !bits[last] then r + [last] else r
  }

  function CountFree(bits: seq<bool>): nat {
    if bits == [] then 0 else CountFree(bits[..|bits| - 1]) + if bits[|bits| - 1] then 0 else 1
  }

  /** Allocation hands out what was asked for exactly when that many blocks are free. */
  lemma {:induction false} FirstFreeLength(bits: seq<bool>, count: nat)
    ensures |FirstFree(bits, count)| == if CountFree(bits) < count then CountFree(bits) else count
  {
    if bits != [] {
      FirstFreeLength(bits[..|bits| - 1], count);
    }
  }

  /** The blocks handed out are the lowest free ones. */
  lemma {:induction false} FirstFreeLowest(bits: seq<bool>, count: nat, b: nat)
    requires b < |bits| && !bits[b] && b !in FirstFree(bits, count)
    ensures |FirstFree(bits, count)| == count
    ensures forall i :: 0 <= i < count ==> FirstFree(bits, count)[i] < b
  {
    var last := |bits| - 1;
    if b < last {
      FirstFreeLowest(bits[..last], count, b);
    }
  }

  /** Scanning can stop at a position where enough blocks are found, or at the end. */
  lemma {:induction false} FirstFreeStops(bits: seq<bool>, i: nat, count: nat)
    requires i <= |bits|
    requires i == |bits| || |FirstFree(bits[..i], count)| == count
    ensures FirstFree(bits, count) == FirstFree(bits[..i], count)
  {
    if i < |bits| {
      var front := bits[..|bits| - 1];
      assert front[..i] == bits[..i];
      FirstFreeStops(front, i, count);
    } else {
      assert bits[..i] == bits;
    }
  }

  // ---- space ---------------------------------------------------------------

  function SetAll(bits: seq<bool>, ptrs: seq<nat>): (r: seq<bool>)
    requires forall i :: 0 <= i < |ptrs| ==> ptrs[i] < |bits|
    ensures |r| == |bits|
    ensures forall b :: 0 <= b < |bits| ==> (r[b] <==> bits[b] || b in ptrs)
  {
    seq(|bits|, b requires 0 <= b < |bits| => bits[b] || b in ptrs)
  }

  lemma {:induction false} CountAfterSet(bits: seq<bool>, b: nat)
    requires b < |bits| && !bits[b]
    ensures CountFree(bits[b := true]) == CountFree(bits) - 1
  {
    var last := |bits| - 1;
    if b == last {
      assert bits[b := true][..last] == bits[..last];
    } else {
      assert bits[b := true][..last] == bits[..last][b := true];
      CountAfterSet(bits[..last], b);
    }
  }

  /** Taking n distinct free blocks lowers the free count by exactly n. */
  lemma {:induction false} CountAfterSetAll(bits: seq<bool>, ptrs: seq<nat>)
    requires forall i :: 0 <= i < |ptrs| ==> ptrs[i] < |bits| && !bits[ptrs[i]]
    requires forall i, j :: 0 <= i < j < |ptrs| ==> ptrs[i] < ptrs[j]
    ensures CountFree(SetAll(bits, ptrs)) == CountFree(bits) - |ptrs|
  {
    if ptrs == [] {
      assert SetAll(bits, ptrs) == bits;
    } else {
      var last := |ptrs| - 1;
      var front := ptrs[..last];
      CountAfterSetAll(bits, front);
      assert ptrs == front + [ptrs[last]];
      assert ptrs[last] !in front;
      assert SetAll(bits, ptrs) == SetAll(bits, front)[ptrs[last] := true];
      CountAfterSet(SetAll(bits, front), ptrs[last]);
    }
  }

  // ---- how the bitmap follows the directory --------------------------------

  /** The bitmap depends only on which blocks are marked. */
  lemma BitmapAgrees(p: DiskParams, a: Dir, b: Dir)
    requires ValidParams(p)
    requires forall n: nat :: n < TotalBlocks(p) ==> (Marked(TotalBlocks(p), a, n) <==> Marked(TotalBlocks(p), b, n))
    ensures Bitmap(p, a) == Bitmap(p, b)
  {
    forall n: nat | n < TotalBlocks(p)
      ensures Reserved(p, a, n) <==> Reserved(p, b, n)
    {
      if BelowAllMarked(TotalBlocks(p), a, n) {
        BelowTransfers(TotalBlocks(p), a, b, n);
      }
      if BelowAllMarked(TotalBlocks(p), b, n) {
        BelowTransfers(TotalBlocks(p), b, a, n);
      }
    }
  }

  lemma BelowTransfers(total: nat, a: Dir, b: Dir, n: nat)
    requires forall n: nat :: n < total ==> (Marked(total, a, n) <==> Marked(total, b, n))
    requires BelowAllMarked(total, a, n)
    ensures BelowAllMarked(total, b, n)
  {
    var k, x :| Marks(total, a, k, x);
    assert Marked(total, a, a[k].blockPointers[x]);
    assert Marked(total, b, a[k].blockPointers[x]);
    forall l, y | Marks(total, b, l, y)
      ensures n < b[l].blockPointers[y]
    {
      assert Marked(total, b, b[l].blockPointers[y]);
      assert Marked(total, a, b[l].blockPointers[y]);
    }
  }

  /**
   Marking freshly allocated blocks as used sets exactly their bits: the gap
   below the lowest used block neither grows nor shrinks.
   */
  lemma BitmapAfterUse(p: DiskParams, before: Dir, after: Dir, count: nat)
    requires ValidParams(p)
    requires var ptrs := FirstFree(Bitmap(p, before), count);
             forall n: nat :: n < TotalBlocks(p) ==>
               (Marked(TotalBlocks(p), after, n) <==> Marked(TotalBlocks(p), before, n) || n in ptrs)
    ensures Bitmap(p, after) == SetAll(Bitmap(p, before), FirstFree(Bitmap(p, before), count))
  {
    var total := TotalBlocks(p);
    var ptrs := FirstFree(Bitmap(p, before), count);
    forall n: nat | n < total
      ensures Reserved(p, after, n) <==> Reserved(p, before, n) || n in ptrs
    {
      if BelowAllMarked(total, before, n) {
        GapStays(p, before, after, count, n);
      }
      if BelowAllMarked(total, after, n) {
        GapWasThere(p, before, after, count, n);
      }
    }
  }

  lemma FreeAboveSomeMarked(p: DiskParams, dir: Dir, b: nat) returns (k: int, x: int)
    requires ValidParams(p) && !Reserved(p, dir, b) && exists k, x :: Marks(TotalBlocks(p), dir, k, x)
    ensures Marks(TotalBlocks(p), dir, k, x) && dir[k].blockPointers[x] < b
  {
    k, x :| Marks(TotalBlocks(p), dir, k, x) && dir[k].blockPointers[x] <= b;
  }

  lemma GapStays(p: DiskParams, before: Dir, after: Dir, count: nat, n: nat)
    requires ValidParams(p) && n < TotalBlocks(p)
    requires var ptrs := FirstFree(Bitmap(p, before), count);
             forall n: nat :: n < TotalBlocks(p) ==>
               (Marked(TotalBlocks(p), after, n) <==> Marked(TotalBlocks(p), before, n) || n in ptrs)
    requires BelowAllMarked(TotalBlocks(p), before, n)
    ensures BelowAllMarked(TotalBlocks(p), after, n)
  {
    var total := TotalBlocks(p);
    var ptrs := FirstFree(Bitmap(p, before), count);
    var k, x :| Marks(total, before, k, x);
    assert Marked(total, before, before[k].blockPointers[x]);
    assert Marked(total, after, before[k].blockPointers[x]);
    forall l, y | Marks(total, after, l, y)
      ensures n < after[l].blockPointers[y]
    {
      var b := after[l].blockPointers[y];
      assert Marked(total, after, b);
      if Marked(total, before, b) {
      } else {
        assert !Bitmap(p, before)[b];
        var k', x' := FreeAboveSomeMarked(p, before, b);
      }
    }
  }

  lemma GapWasThere(p: DiskParams, before: Dir, after: Dir, count: nat, n: nat)
    requires ValidParams(p) && n < TotalBlocks(p)
    requires var ptrs := FirstFree(Bitmap(p, before), count);
             forall n: nat :: n < TotalBlocks(p) ==>
               (Marked(TotalBlocks(p), after, n) <==> Marked(TotalBlocks(p), before, n) || n in ptrs)
    requires BelowAllMarked(TotalBlocks(p), after, n)
    ensures Reserved(p, before, n)
  {
    var total := TotalBlocks(p);
    var bits := Bitmap(p, before);
    var ptrs := FirstFree(bits, count);
    if !Reserved(p, before, n) {
      assert !bits[n];
      FirstFreeLowest(bits, count, n);
      var k, x :| Marks(total, after, k, x);
      var b := after[k].blockPointers[x];
      assert Marked(total, after, b);
      if b !in ptrs {
        assert Marked(total, before, b);
        var l, y := FreeAboveSomeMarked(p, before, n);
        assert Marked(total, before, before[l].blockPointers[y]);
      }
    }
  }

  // ---- scanning the directory ----------------------------------------------

  /** The entry names block b as one of its own. */
  ghost predicate Holds(e: DirEntry, total: nat, b: nat) {
    Live(e) && b < total && b in Allocated(e.blockPointers)
  }

  lemma MarkedByEntry(total: nat, dir: Dir, b: nat)
    ensures Marked(total, dir, b) <==> exists k :: 0 <= k < |dir| && Holds(dir[k], total, b)
  {
    if Marked(total, dir, b) {
      var k, x :| Marks(total, dir, k, x) && dir[k].blockPointers[x] == b;
      AllocatedMembers(dir[k].blockPointers, b);
      assert Holds(dir[k], total, b);
    }
    if k :| 0 <= k < |dir| && Holds(dir[k], total, b) {
      AllocatedMembers(dir[k].blockPointers, b);
      var x :| 0 <= x < |dir[k].blockPointers| && dir[k].blockPointers[x] == b;
      assert Marks(total, dir, k, x);
    }
  }

  lemma MarkedNext(total: nat, dir: Dir, i: nat, b: nat)
    requires i < |dir|
    ensures Marked(total, dir[..i + 1], b) <==> Marked(total, dir[..i], b) || Holds(dir[i], total, b)
  {
    MarkedByEntry(total, dir[..i], b);
    MarkedByEntry(total, dir[..i + 1], b);
    if Holds(dir[i], total, b) {
      assert Holds(dir[..i + 1][i], total, b);
    }
    if k :| 0 <= k < i && Holds(dir[..i][k], total, b) {
      assert Holds(dir[..i + 1][k], total, b);
    }
  }

  /** first is the lowest marked block, if any block is marked. */
  ghost predicate IsFirstUsed(first: Option<nat>, total: nat, dir: Dir) {
    match first
    case None => forall b: nat :: !Marked(total, dir, b)
    case Some(f) => Marked(total, dir, f) && forall b: nat :: Marked(total, dir, b) ==> f <= b
  }

  lemma GapIsBelowFirst(first: Option<nat>, total: nat, dir: Dir, b: nat)
    requires IsFirstUsed(first, total, dir)
    ensures BelowAllMarked(total, dir, b) <==> first.Some? && b < first.value
  {
    if BelowAllMarked(total, dir, b) {
      var k, x :| Marks(total, dir, k, x);
      assert Marked(total, dir, dir[k].blockPointers[x]);
    }
    if first.Some? && b < first.value {
      forall k, x | Marks(total, dir, k, x)
        ensures b < dir[k].blockPointers[x]
      {
        assert Marked(total, dir, dir[k].blockPointers[x]);
      }
    }
  }
}
