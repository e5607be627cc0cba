/** Allocation blocks: the CP/M sectors of the data area taken blocksize bytes at a time. */
module BlockStore {
  import opened Bytes
  import opened DiskGeometry
  import opened SectorFraming

  /** The contents of the allocation blocks, directory blocks first. */
  type Blocks = seq<seq<byte>>

  /** There is one block per block number, and every block has the disk's block size. */
  ghost predicate IsStore(p: DiskParams, s: Blocks)
    requires ValidParams(p)
  {
    |s| == TotalBlocks(p) && forall b :: 0 <= b < |s| ==> |s[b]| == p.blocksize
  }

  lemma ScaledProduct(b: nat, spb: nat, size: nat)
    requires size == spb * 128
    ensures b * size == b * spb * 128
  {
  }

  /** The sectors of block b lie inside the data area. */
  lemma BlockFits(p: DiskParams, b: nat)
    requires ValidParams(p) && b < TotalBlocks(p)
    ensures b * SectorsPerBlock(p) + SectorsPerBlock(p) <= SectorCount(p)
    ensures SectorsPerBlock(p) * 128 == p.blocksize
  {
    var total, spb, size := (p.tracks - p.boottrk) * 4096, SectorsPerBlock(p), p.blocksize;
    DivModSplit(total, size);
    MultiplesApart(size, b, TotalBlocks(p));
    assert b * size + size <= total;
    assert spb * 128 == size;
    ScaledProduct(b, spb, size);
  }

  function BlockAt(p: DiskParams, sectors: Sectors, b: nat): (data: seq<byte>)
    requires ValidParams(p) && b < TotalBlocks(p)
    requires |sectors| == SectorCount(p) && forall n :: 0 <= n < |sectors| ==> |sectors[n]| == 128
    ensures |data| == p.blocksize
  {
    BlockFits(p, b);
    seq(p.blocksize, j requires 0 <= j < p.blocksize => sectors[b * SectorsPerBlock(p) + j / 128][j % 128])
  }

  function BlockView(p: DiskParams, sectors: Sectors): (s: Blocks)
    requires ValidParams(p)
    requires |sectors| == SectorCount(p) && forall n :: 0 <= n < |sectors| ==> |sectors[n]| == 128
    ensures IsStore(p, s)
  {
    FirstBlocks(p, sectors, TotalBlocks(p))
  }

  function FirstBlocks(p: DiskParams, sectors: Sectors, count: nat): (s: Blocks)
    requires ValidParams(p)
    requires |sectors| == SectorCount(p) && forall n :: 0 <= n < |sectors| ==> |sectors[n]| == 128
    requires count <= TotalBlocks(p)
    ensures |s| == count && forall b :: 0 <= b < |s| ==> |s[b]| == p.blocksize
  {
    if count == 0 then [] else FirstBlocks(p, sectors, count - 1) + [BlockAt(p, sectors, count - 1)]
  }

  lemma {:induction false} BlockOfFirst(p: DiskParams, sectors: Sectors, count: nat, b: nat)
    requires ValidParams(p)
    requires |sectors| == SectorCount(p) && forall n :: 0 <= n < |sectors| ==> |sectors[n]| == 128
    requires b < count <= TotalBlocks(p)
    ensures FirstBlocks(p, sectors, count)[b] == BlockAt(p, sectors, b)
  {
    if b < count - 1 { BlockOfFirst(p, sectors, count - 1, b); }
  }

  lemma BlockInView(p: DiskParams, sectors: Sectors, b: nat)
    requires ValidParams(p)
    requires |sectors| == SectorCount(p) && forall n :: 0 <= n < |sectors| ==> |sectors[n]| == 128
    requires b < TotalBlocks(p)
    ensures BlockView(p, sectors)[b] == BlockAt(p, sectors, b)
  {
    BlockOfFirst(p, sectors, TotalBlocks(p), b);
  }

  /** `after` is `before` with count sectors from first on taken from data. */
  ghost predicate RunWritten(before: Sectors, after: Sectors, first: nat, data: seq<byte>, count: nat)
    requires count * 128 <= |data|
  {
    && |after| == |before|
    && forall n :: 0 <= n < |before| ==>
         after[n] == if first <= n < first + count
                     then data[(n - first) * 128..(n - first) * 128 + 128]
                     else before[n]
  }

  /** The first count sectors of block b taken from data. */
  ghost predicate SectorsWritten(p: DiskParams, before: Sectors, after: Sectors, b: nat, data: seq<byte>, count: nat)
    requires |data| == p.blocksize && count * 128 <= p.blocksize
  {
    RunWritten(before, after, b * SectorsPerBlock(p), data, count)
  }

  lemma BlocksApart(spb: nat, b: nat, i: nat, c: nat, j: nat)
    requires i < spb && j < spb && b * spb + i == c * spb + j
    ensures b == c && i == j
  {
    MultiplesApart(spb, b, c);
    MultiplesApart(spb, c, b);
  }

  /** Sector i of block c after the first count sectors of block b were written. */
  lemma SectorOfBlockWritten(p: DiskParams, before: Sectors, after: Sectors, b: nat, data: seq<byte>, count: nat, c: nat, i: nat)
    requires |data| == p.blocksize && count * 128 <= p.blocksize && SectorsWritten(p, before, after, b, data, count)
    requires i < SectorsPerBlock(p) && c * SectorsPerBlock(p) + i < |before|
    ensures after[c * SectorsPerBlock(p) + i]
            == if c == b && i < count then data[i * 128..i * 128 + 128] else before[c * SectorsPerBlock(p) + i]
  {
    var spb := SectorsPerBlock(p);
    var n, first := c * spb + i, b * spb;
    if first <= n < first + count {
      assert count <= spb;
      BlocksApart(spb, b, n - first, c, i);
    }
  }

  lemma ByteWritten(p: DiskParams, before: Sectors, after: Sectors, b: nat, data: seq<byte>, count: nat, c: nat, j: nat)
    requires ValidParams(p) && |data| == p.blocksize && count * 128 <= p.blocksize
    requires |before| == SectorCount(p) && forall n :: 0 <= n < |before| ==> |before[n]| == 128
    requires forall n :: 0 <= n < |after| ==> |after[n]| == 128
    requires SectorsWritten(p, before, after, b, data, count)
    requires c < TotalBlocks(p) && j < p.blocksize
    ensures BlockAt(p, after, c)[j] ==
            if c == b && j / 128 < count then data[j] else BlockAt(p, before, c)[j]
  {
    BlockFits(p, c);
    var i := j / 128;
    assert i < SectorsPerBlock(p);
    SectorOfBlockWritten(p, before, after, b, data, count, c, i);
    if i < count {
      assert data[i * 128..i * 128 + 128][j % 128] == data[j];
    }
  }

  /** Writing every sector of block b is writing block b, and leaves every other block alone. */
  lemma BlockWritten(p: DiskParams, before: Sectors, after: Sectors, b: nat, data: seq<byte>, count: nat)
    requires ValidParams(p) && |data| == p.blocksize && count * 128 <= p.blocksize
    requires |before| == SectorCount(p) && forall n :: 0 <= n < |before| ==> |before[n]| == 128
    requires forall n :: 0 <= n < |after| ==> |after[n]| == 128
    requires SectorsWritten(p, before, after, b, data, count)
    ensures count == SectorsPerBlock(p) && b < TotalBlocks(p) ==>
              BlockView(p, after) == BlockView(p, before)[b := data]
    ensures b >= TotalBlocks(p) ==> BlockView(p, after) == BlockView(p, before)
  {
    forall c: nat | c < TotalBlocks(p)
      ensures count == SectorsPerBlock(p) && c == b ==> BlockView(p, after)[c] == data
      ensures c != b ==> BlockView(p, after)[c] == BlockView(p, before)[c]
    {
      BlockInView(p, before, c);
      BlockInView(p, after, c);
      forall j: nat | j < p.blocksize
        ensures BlockAt(p, after, c)[j] ==
                if c == b && j / 128 < count then data[j] else BlockAt(p, before, c)[j]
      {
        ByteWritten(p, before, after, b, data, count, c, j);
      }
    }
  }

  // ---- several blocks at once ----------------------------------------------

  /** The store after block ptrs[i] has received chunks[i], for each i in order. */
  function PutBlocks(s: Blocks, ptrs: seq<nat>, chunks: seq<seq<byte>>): (r: Blocks)
    requires |ptrs| == |chunks| && forall i :: 0 <= i < |ptrs| ==> ptrs[i] < |s|
    ensures |r| == |s|
  {
    if ptrs == [] then s
    else
      var last := |ptrs| - 1;
      PutBlocks(s, ptrs[..last], chunks[..last])[ptrs[last] := chunks[last]]
  }

  lemma {:induction false} PutBlocksFrame(s: Blocks, ptrs: seq<nat>, chunks: seq<seq<byte>>, b: nat)
    requires |ptrs| == |chunks| && forall i :: 0 <= i < |ptrs| ==> ptrs[i] < |s|
    requires b < |s| && b !in ptrs
    ensures PutBlocks(s, ptrs, chunks)[b] == s[b]
  {
    if ptrs != [] {
      PutBlocksFrame(s, ptrs[..|ptrs| - 1], chunks[..|ptrs| - 1], b);
    }
  }

  /** With distinct block numbers, each block ends up holding its own chunk. */
  lemma {:induction false} PutBlocksAt(s: Blocks, ptrs: seq<nat>, chunks: seq<seq<byte>>, i: nat)
    requires |ptrs| == |chunks| && forall i :: 0 <= i < |ptrs| ==> ptrs[i] < |s|
    requires forall i, j :: 0 <= i < j < |ptrs| ==> ptrs[i] != ptrs[j]
    requires i < |ptrs|
    ensures PutBlocks(s, ptrs, chunks)[ptrs[i]] == chunks[i]
  {
    if i < |ptrs| - 1 {
      PutBlocksAt(s, ptrs[..|ptrs| - 1], chunks[..|ptrs| - 1], i);
    }
  }

  lemma {:induction false} PutBlocksIsStore(p: DiskParams, s: Blocks, ptrs: seq<nat>, chunks: seq<seq<byte>>)
    requires ValidParams(p) && IsStore(p, s)
    requires |ptrs| == |chunks| && forall i :: 0 <= i < |ptrs| ==> ptrs[i] < |s|
    requires forall i :: 0 <= i < |chunks| ==> |chunks[i]| == p.blocksize
    ensures IsStore(p, PutBlocks(s, ptrs, chunks))
  {
    if ptrs != [] {
      PutBlocksIsStore(p, s, ptrs[..|ptrs| - 1], chunks[..|ptrs| - 1]);
    }
  }

  /** The concatenation of the blocks ptrs names. */
  function ReadBlocks(s: Blocks, ptrs: seq<nat>): (data: seq<byte>)
    requires forall i :: 0 <= i < |ptrs| ==> ptrs[i] < |s|
  {
    if ptrs == [] then [] else ReadBlocks(s, ptrs[..|ptrs| - 1]) + s[ptrs[|ptrs| - 1]]
  }

  lemma {:induction false} ReadBlocksAgree(s: Blocks, t: Blocks, ptrs: seq<nat>)
    requires forall i :: 0 <= i < |ptrs| ==> ptrs[i] < |s| && ptrs[i] < |t|
    requires forall i :: 0 <= i < |ptrs| ==> s[ptrs[i]] == t[ptrs[i]]
    ensures ReadBlocks(s, ptrs) == ReadBlocks(t, ptrs)
  {
    if ptrs != [] {
      ReadBlocksAgree(s, t, ptrs[..|ptrs| - 1]);
    }
  }
}
