/** How a file's bytes are cut into blocks and described by directory entries. */
module FileLayout {
  import opened Bytes
  import opened DiskGeometry
  import opened BlockStore
  import opened Directory
  import opened FileView

  const BLOCKS_PER_ENTRY: nat := 8

  function BlocksNeeded(p: DiskParams, data: seq<byte>): nat
    requires ValidParams(p)
  {
    CeilDiv(|data|, p.blocksize)
  }

  /** Block i of the file: its bytes, the record padding in the last block, then zeros. */
  function Chunk(p: DiskParams, data: seq<byte>, i: nat): (c: seq<byte>)
    requires ValidParams(p) && i * p.blocksize <= |data|
    ensures |c| == p.blocksize
  {
    var rest := data[i * p.blocksize..];
    if |rest| >= p.blocksize then rest[..p.blocksize]
    else
      PadFits(p, i, |data|);
      rest + Repeat(EOF_MARK, PadLength(|data|)) + Repeat(0, p.blocksize - |rest| - PadLength(|data|))
  }

  lemma PadFits(p: DiskParams, i: nat, n: nat)
    requires ValidParams(p) && i * p.blocksize <= n < i * p.blocksize + p.blocksize
    ensures n - i * p.blocksize + PadLength(n) <= p.blocksize
    ensures (n - i * p.blocksize) % 128 == n % 128
  {
    var spb := SectorsPerBlock(p);
    assert spb * 128 == p.blocksize;
    ScaledProduct(i, spb, p.blocksize);
  }

  lemma ChunkStart(p: DiskParams, data: seq<byte>, i: nat)
    requires ValidParams(p) && i < BlocksNeeded(p, data)
    ensures 0 <= i * p.blocksize < |data|
  {
    CeilDivBounds(|data|, p.blocksize);
    MultiplesApart(p.blocksize, i, BlocksNeeded(p, data));
  }

  function Chunks(p: DiskParams, data: seq<byte>, n: nat): (cs: seq<seq<byte>>)
    requires ValidParams(p) && n <= BlocksNeeded(p, data)
    ensures |cs| == n
    ensures forall i :: 0 <= i < n ==> |cs[i]| == p.blocksize
  {
    if n == 0 then []
    else
      ChunkStart(p, data, n - 1);
      Chunks(p, data, n - 1) + [Chunk(p, data, n - 1)]
  }

  /** Zeros after the last record of the last block. */
  function Slack(p: DiskParams, data: seq<byte>): (z: seq<byte>)
    requires ValidParams(p)
  {
    var used := |data| + PadLength(|data|);
    var room := BlocksNeeded(p, data) * p.blocksize;
    Repeat(0, if room >= used then room - used else 0)
  }

  /** The blocks ptrs names hold the first |ptrs| chunks of the file. */
  ghost predicate HoldsChunks(p: DiskParams, s: Blocks, ptrs: seq<nat>, data: seq<byte>)
    requires ValidParams(p)
  {
    && |ptrs| <= BlocksNeeded(p, data)
    && forall i :: 0 <= i < |ptrs| ==> ptrs[i] < |s| && s[ptrs[i]] == Chunks(p, data, |ptrs|)[i]
  }

  lemma HoldsChunksFront(p: DiskParams, s: Blocks, ptrs: seq<nat>, data: seq<byte>)
    requires ValidParams(p) && HoldsChunks(p, s, ptrs, data) && ptrs != []
    ensures HoldsChunks(p, s, ptrs[..|ptrs| - 1], data)
    ensures 0 <= (|ptrs| - 1) * p.blocksize < |data|
    ensures s[ptrs[|ptrs| - 1]] == Chunk(p, data, |ptrs| - 1)
  {
    ChunkStart(p, data, |ptrs| - 1);
  }

  /** Reading the blocks back yields whole chunks of the file before the last one... */
  lemma {:induction false} ReadWholeChunks(p: DiskParams, s: Blocks, ptrs: seq<nat>, data: seq<byte>)
    requires ValidParams(p) && HoldsChunks(p, s, ptrs, data) && |ptrs| * p.blocksize <= |data|
    ensures ReadBlocks(s, ptrs) == data[..|ptrs| * p.blocksize]
  {
    var n, size := |ptrs|, p.blocksize;
    if n == 0 {
      assert data[..0] == [];
    } else {
      HoldsChunksFront(p, s, ptrs, data);
      var start := (n - 1) * size;
      assert n * size == start + size;
      ReadWholeChunks(p, s, ptrs[..n - 1], data);
      FrontAndNext(data, start, size);
    }
  }

  lemma LastChunk(p: DiskParams, data: seq<byte>, start: nat)
    requires ValidParams(p) && data != []
    requires start == (BlocksNeeded(p, data) - 1) * p.blocksize <= |data|
    ensures Chunk(p, data, BlocksNeeded(p, data) - 1)
            == data[start..] + Repeat(EOF_MARK, PadLength(|data|)) + Slack(p, data)
  {
    var n, size := BlocksNeeded(p, data), p.blocksize;
    CeilDivBounds(|data|, size);
    assert n * size == start + size;
    var rest := data[start..];
    if |rest| < size {
      PadFits(p, n - 1, |data|);
    } else {
      assert rest[..size] == rest;
      WholeBlocksNeedNoPadding(n, p, data);
    }
  }

  lemma JoinTail(data: seq<byte>, start: nat, pad: seq<byte>, slack: seq<byte>)
    requires start <= |data|
    ensures data[..start] + (data[start..] + pad + slack) == (data + pad) + slack
  {
  }

  /** ...and the padded file followed by slack once all are read. */
  lemma ReadAllChunks(p: DiskParams, s: Blocks, ptrs: seq<nat>, data: seq<byte>)
    requires ValidParams(p) && HoldsChunks(p, s, ptrs, data) && |ptrs| == BlocksNeeded(p, data)
    ensures ReadBlocks(s, ptrs) == Padded(data) + Slack(p, data)
  {
    CeilDivBounds(|data|, p.blocksize);
    if ptrs == [] {
      assert Padded(data) + Slack(p, data) == [];
    } else {
      HoldsChunksFront(p, s, ptrs, data);
      var front, start := ptrs[..|ptrs| - 1], (|ptrs| - 1) * p.blocksize;
      ReadWholeChunks(p, s, front, data);
      LastChunk(p, data, start);
      JoinTail(data, start, Repeat(EOF_MARK, PadLength(|data|)), Slack(p, data));
      assert ReadBlocks(s, ptrs) == ReadBlocks(s, front) + s[ptrs[|ptrs| - 1]];
    }
  }

  lemma WholeBlocksNeedNoPadding(n: nat, p: DiskParams, data: seq<byte>)
    requires ValidParams(p) && |data| == n * p.blocksize
    ensures PadLength(|data|) == 0
  {
    ScaledProduct(n, SectorsPerBlock(p), p.blocksize);
    WholeRecords(|data|, n * SectorsPerBlock(p));
  }

  lemma WholeRecords(n: nat, records: nat)
    requires n == records * 128
    ensures PadLength(n) == 0
  {
  }

  // ---- directory entries of a new file -------------------------------------

  function EntriesNeeded(p: DiskParams, data: seq<byte>): nat
    requires ValidParams(p)
  {
    CeilDiv(BlocksNeeded(p, data), BLOCKS_PER_ENTRY)
  }

  function RecordsPerEntry(p: DiskParams): nat {
    BLOCKS_PER_ENTRY * SectorsPerBlock(p)
  }

  /** Records of the file that the entries before number d describe. */
  function RecordsBefore(p: DiskParams, d: nat): nat {
    d * RecordsPerEntry(p)
  }

  /** Record count of the last logical extent of entry d. */
  function RecordCount(p: DiskParams, data: seq<byte>, d: nat): (rc: byte)
    requires ValidParams(p) && d < EntriesNeeded(p, data)
  {
    if d == EntriesNeeded(p, data) - 1 then
      LastCount(CeilDiv(|data|, 128) - RecordsBefore(p, d))
    else if RecordsPerEntry(p) > 128 then 128 else RecordsPerEntry(p)
  }

  /** `rc > 128 ? rc % 128 || 128 : rc`. */
  function LastCount(records: int): (rc: byte) {
    if records <= 0 then 0
    else if records <= 128 then records
    else if records % 128 == 0 then 128 else records % 128
  }

  function PadPointers(large: bool, ptrs: seq<word>): (r: seq<word>)
    requires |ptrs| <= PointerCount(large)
    ensures |r| == PointerCount(large)
  {
    ptrs + Repeat(0, PointerCount(large) - |ptrs|)
  }

  function NewEntry(p: DiskParams, key: Key, number: nat, rc: byte, ptrs: seq<word>): (e: DirEntry)
    requires ValidParams(p) && |ptrs| <= 8
  {
    DirEntry(key.user, key.filename, key.extension, number % 32, 0, number / 32 % 64, rc,
             PadPointers(UsesLargePointers(p), ptrs), false, false, false)
  }

  function BlocksOfEntry(alloc: seq<word>, d: nat): (r: seq<word>)
    requires d * 8 <= |alloc|
    ensures |r| <= 8
  {
    if d * 8 + 8 <= |alloc| then alloc[d * 8..d * 8 + 8] else alloc[d * 8..]
  }

  lemma EntryStart(p: DiskParams, data: seq<byte>, d: nat)
    requires ValidParams(p) && d < EntriesNeeded(p, data)
    ensures d * 8 < BlocksNeeded(p, data)
  {
    CeilDivBounds(BlocksNeeded(p, data), 8);
  }

  /** Entry d of a file whose blocks are alloc. */
  function EntryOf(p: DiskParams, key: Key, data: seq<byte>, alloc: seq<word>, d: nat): (e: DirEntry)
    requires ValidParams(p) && d < EntriesNeeded(p, data) && |alloc| == BlocksNeeded(p, data)
  {
    EntryStart(p, data, d);
    NewEntry(p, key, d * ExtentsPerEntry(p), RecordCount(p, data, d), BlocksOfEntry(alloc, d))
  }

  function NewEntries(p: DiskParams, key: Key, data: seq<byte>, alloc: seq<word>, m: nat): (es: seq<DirEntry>)
    requires ValidParams(p) && m <= EntriesNeeded(p, data) && |alloc| == BlocksNeeded(p, data)
    ensures |es| == m
    ensures forall d :: 0 <= d < m ==> es[d] == EntryOf(p, key, data, alloc, d)
  {
    seq(m, d requires 0 <= d < m => EntryOf(p, key, data, alloc, d))
  }

  /** All entries of a new file: a single one without blocks when it is empty. */
  function FileEntries(p: DiskParams, key: Key, data: seq<byte>, alloc: seq<word>): (es: seq<DirEntry>)
    requires ValidParams(p) && |alloc| == BlocksNeeded(p, data)
  {
    if data == [] then [NewEntry(p, key, 0, 0, [])]
    else NewEntries(p, key, data, alloc, EntriesNeeded(p, data))
  }

  /** Counting the records left after d full entries by bytes or by records is the same. */
  lemma RemainingRecords(p: DiskParams, data: seq<byte>, d: nat)
    requires ValidParams(p) && d * 8 * p.blocksize <= |data|
    ensures CeilDiv(|data| - d * 8 * p.blocksize, 128) == CeilDiv(|data|, 128) - RecordsBefore(p, d)
  {
    var spb, before := SectorsPerBlock(p), d * 8 * p.blocksize;
    ScaledProduct(d * 8, spb, p.blocksize);
    assert d * 8 * spb == RecordsBefore(p, d);
    CeilDivBounds(|data|, 128);
    CeilDivBounds(|data| - before, 128);
  }

  lemma EntryStartsInData(p: DiskParams, data: seq<byte>, d: nat)
    requires ValidParams(p) && d < EntriesNeeded(p, data)
    ensures 0 <= d * 8 * p.blocksize < |data|
  {
    EntryStart(p, data, d);
    ChunkStart(p, data, d * 8);
  }
}
