/** Files as CP/M itself records them, with the last entry numbered by its last logical extent. */
module StandardFiles {
  import opened Bytes
  import opened DiskGeometry
  import opened BlockStore
  import opened Directory
  import opened FileView
  import opened FileLayout
  import opened FileSize
  import opened FileOps

  /** Logical extents of 16K that eight blocks hold, at least one. */
  function Extents(p: DiskParams): nat {
    if p.blocksize <= 2048 then 1 else p.blocksize / 2048
  }

  /** The entry names blocks d * 8 to d * 8 + 7 of the file, as far as there are such, and no others. */
  predicate NamesBlocks(e: DirEntry, alloc: seq<word>, d: nat) {
    |e.blockPointers| >= 8
    && forall x :: 0 <= x < |e.blockPointers| ==> e.blockPointers[x] == if x < 8 && d * 8 + x < |alloc| then alloc[d * 8 + x] else 0
  }

  /** The records the last of m entries describes. */
  function LastOf(p: DiskParams, m: nat, records: nat): int {
    records - (m - 1) * (p.blocksize / 16)
  }

  /**
   The entries of a file of so many records in the given blocks: eight blocks
   to an entry. The last is numbered by the logical extent its last record lies
   in, and counts the records in that extent; bc counts the bytes of the last
   record, with 0 for all.
   */
  predicate Standard(p: DiskParams, es: seq<DirEntry>, alloc: seq<word>, records: nat, bc: byte)
    requires ValidParams(p)
  {
    && es != [] && records > 0 && bc < 128 && NonZeroBlocks(alloc)
    && (|es| - 1) * 8 < |alloc| <= |es| * 8
    && (|alloc| - 1) * (p.blocksize / 128) < records <= |alloc| * (p.blocksize / 128)
    && (forall d :: 0 <= d < |es| ==> NamesBlocks(es[d], alloc, d))
    && var last, left := es[|es| - 1], LastOf(p, |es|, records);
       && ExtentNumber(last) == (|es| - 1) * Extents(p) + (left - 1) / 128 && last.extentLow < 32
       && last.rc == left - (left - 1) / 128 * 128
       && last.bc == bc
  }

  predicate NonZeroBlocks(alloc: seq<word>) {
    forall i :: 0 <= i < |alloc| ==> alloc[i] != 0
  }

  lemma ExtentsOfEntry(p: DiskParams)
    requires ValidParams(p)
    ensures Extents(p) == ExtentsPerEntry(p) && RecordsPerEntry(p) == p.blocksize / 16
    ensures RecordsPerEntry(p) <= Extents(p) * 128
  {
  }

  /** Whatever comes behind a multiple of the extents of an entry is left after dividing by 32 and by them. */
  lemma SubExtent(d: nat, e: nat, q: nat)
    requires (e == 1 || e == 2 || e == 4 || e == 8) && q < e
    ensures (d * e + q) % 32 % e == q
  {
    MultipleMod32(d, e);
    if e == 2 { SubExtentOf2(d, q); } else if e == 4 { SubExtentOf4(d, q); } else if e == 8 { SubExtentOf8(d, q); }
  }

  lemma Rest32(a: int, r: nat)
    requires r < 32
    ensures (32 * a + r) % 32 == r
  {
  }

  lemma Rest4(a: int, r: nat)
    requires r < 4
    ensures (a * 4 + r) % 4 == r
  {
  }

  lemma Rest8(a: int, r: nat)
    requires r < 8
    ensures (a * 8 + r) % 8 == r
  {
  }

  lemma SubExtentOf2(d: nat, q: nat)
    requires q < 2
    ensures (d * 2 + q) % 32 % 2 == q
  {
    assert d == 16 * (d / 16) + d % 16;
    Rest32(d / 16, d % 16 * 2 + q);
  }

  lemma SubExtentOf4(d: nat, q: nat)
    requires q < 4
    ensures (d * 4 + q) % 32 % 4 == q
  {
    assert d == 8 * (d / 8) + d % 8;
    Rest32(d / 8, d % 8 * 4 + q);
    Rest4(d % 8, q);
  }

  lemma SubExtentOf8(d: nat, q: nat)
    requires q < 8
    ensures (d * 8 + q) % 32 % 8 == q
  {
    assert d == 4 * (d / 4) + d % 4;
    Rest32(d / 4, d % 4 * 8 + q);
    Rest8(d % 4, q);
  }

  lemma NamedBlocks(e: DirEntry, alloc: seq<word>, d: nat)
    requires NamesBlocks(e, alloc, d) && NonZeroBlocks(alloc) && d * 8 < |alloc|
    ensures Allocated(e.blockPointers) == BlocksOfEntry(alloc, d)
  {
    var ptrs := BlocksOfEntry(alloc, d);
    assert e.blockPointers == ptrs + Repeat(0, |e.blockPointers| - |ptrs|);
    AllocatedPadded(ptrs, |e.blockPointers| - |ptrs|);
  }

  lemma {:induction false} StandardPointers(p: DiskParams, es: seq<DirEntry>, alloc: seq<word>, m: nat)
    requires m <= |es| && NonZeroBlocks(alloc) && (|es| > 0 ==> (|es| - 1) * 8 < |alloc|)
    requires forall d :: 0 <= d < |es| ==> NamesBlocks(es[d], alloc, d)
    ensures FilePointers(es[..m]) == alloc[..Covered(alloc, m)]
    ensures m < |es| ==> RecordsOf(p, es[..m]) == m * RecordsPerEntry(p)
  {
    if m > 0 {
      assert es[..m] == es[..m - 1] + [es[m - 1]];
      StandardPointers(p, es, alloc, m - 1);
      NamedBlocks(es[m - 1], alloc, m - 1);
      FilePointersAppend(es[..m - 1], es[m - 1]);
      RecordsAppend(p, es[..m - 1], es[m - 1]);
      CoveredGrows(alloc, m - 1);
      OneMoreTimes(m, RecordsPerEntry(p));
    } else {
      assert es[..0] == [];
    }
  }

  /** The last entry describes at least one record and no more than eight blocks hold. */
  lemma LastBounds(p: DiskParams, es: seq<DirEntry>, alloc: seq<word>, records: nat, bc: byte)
    requires ValidParams(p) && Standard(p, es, alloc, records, bc)
    ensures 1 <= LastOf(p, |es|, records) <= p.blocksize / 16
  {
    var n, m, spb := |alloc|, |es|, p.blocksize / 128;
    assert p.blocksize / 16 == 8 * spb;
    EntryRecords(n, m, spb);
  }

  lemma LeftInExtents(p: DiskParams, left: int)
    requires ValidParams(p) && 1 <= left <= p.blocksize / 16
    ensures 0 <= (left - 1) / 128 < Extents(p) && left - (left - 1) / 128 * 128 > 0
    ensures (Extents(p) == 1 || Extents(p) == 2 || Extents(p) == 4 || Extents(p) == 8) && Extents(p) == ExtentsPerEntry(p)
  {
    ExtentsOfEntry(p);
  }

  lemma StandardLast(p: DiskParams, es: seq<DirEntry>, alloc: seq<word>, records: nat, bc: byte)
    requires ValidParams(p) && Standard(p, es, alloc, records, bc)
    ensures var last, left := es[|es| - 1], LastOf(p, |es|, records);
            last.extentLow % 32 % ExtentsPerEntry(p) * 128 + last.rc == left && last.rc > 0
  {
    var left := LastOf(p, |es|, records);
    LastBounds(p, es, alloc, records, bc);
    LeftInExtents(p, left);
    LowSub(es[|es| - 1], |es| - 1, Extents(p), (left - 1) / 128);
  }

  /** The sub-extent of an entry is what its number leaves over a multiple of the extents of an entry. */
  lemma LowSub(e: DirEntry, d: nat, extents: nat, q: nat)
    requires (extents == 1 || extents == 2 || extents == 4 || extents == 8) && q < extents
    requires e.extentLow < 32 && ExtentNumber(e) == d * extents + q
    ensures e.extentLow % 32 % extents == q
  {
    SubExtent(d, extents, q);
    LowOfNumber(e);
  }

  lemma LowOfNumber(e: DirEntry)
    requires e.extentLow < 32
    ensures ExtentNumber(e) % 32 == e.extentLow
  {
  }

  /** Such a file lists with all its records, or up to the last byte counted. */
  lemma StandardSize(p: DiskParams, s: Blocks, es: seq<DirEntry>, alloc: seq<word>, records: nat, bc: byte)
    requires ValidParams(p) && Standard(p, es, alloc, records, bc)
    requires forall i :: 0 <= i < |FilePointers(es)| ==> FilePointers(es)[i] < |s|
    ensures FileOf(p, s, es).size == records * 128 - if bc > 0 then 128 - bc else 0
  {
    var m := |es|;
    StandardPointers(p, es, alloc, m - 1);
    StandardLast(p, es, alloc, records, bc);
    ExtentsOfEntry(p);
  }

  lemma AllPointers(p: DiskParams, es: seq<DirEntry>, alloc: seq<word>, records: nat, bc: byte)
    requires ValidParams(p) && Standard(p, es, alloc, records, bc)
    ensures FilePointers(es) == alloc
  {
    StandardPointers(p, es, alloc, |es|);
    assert es[..|es|] == es;
  }

  lemma StandardReads(p: DiskParams, s: Blocks, es: seq<DirEntry>, alloc: seq<word>, data: seq<byte>, bc: byte)
    requires ValidParams(p) && data != [] && Standard(p, es, alloc, CeilDiv(|data|, 128), bc) && (bc == 0 || bc == |data| % 128)
    requires |alloc| == BlocksNeeded(p, data) && HoldsChunks(p, s, alloc, data)
    ensures FilePointers(es) == alloc
    ensures var file, all := FileOf(p, s, es), if bc > 0 then data else Padded(data);
            file.size == |all| && file.content == all
  {
    AllPointers(p, es, alloc, CeilDiv(|data|, 128), bc);
    StandardSize(p, s, es, alloc, CeilDiv(|data|, 128), bc);
    ReadAllChunks(p, s, alloc, data);
    StandardContent(data, Slack(p, data), bc);
  }

  /** A file of the volume is what its entries, in order, describe, whatever slots they lie in. */
  lemma VolumeFile(p: DiskParams, s: Blocks, key: Key, es: seq<DirEntry>)
    requires SoundStore(p, s) && es != [] && InExtentOrder(es) && DistinctExtents(es) && multiset(ExtentsOf(DirView(p, s), key)) == multiset(es)
    requires forall i :: 0 <= i < |FilePointers(es)| ==> FilePointers(es)[i] < |s|
    ensures key in Volume(p, s) && Volume(p, s)[key] == FileOf(p, s, es)
  {
    var dir := DirView(p, s);
    SortRecoversOrder(ExtentsOf(dir, key), es);
    assert |multiset(ExtentsOf(dir, key))| == |multiset(es)|;
    LiveKeysHaveExtents(dir, key);
  }

  /** Its entries in whatever slots, data recorded by CP/M itself is listed and read in full. */
  lemma StandardFileIsRead(p: DiskParams, s: Blocks, key: Key, es: seq<DirEntry>, alloc: seq<word>, data: seq<byte>, bc: byte)
    requires SoundStore(p, s) && data != [] && Standard(p, es, alloc, CeilDiv(|data|, 128), bc) && (bc == 0 || bc == |data| % 128)
    requires |alloc| == BlocksNeeded(p, data) && HoldsChunks(p, s, alloc, data)
    requires InExtentOrder(es) && DistinctExtents(es) && multiset(ExtentsOf(DirView(p, s), key)) == multiset(es)
    ensures key in Volume(p, s)
    ensures var file, all := Volume(p, s)[key], if bc > 0 then data else Padded(data);
            && file.size == |all| && file.content == all
            && file.readonly == es[0].readonly && file.system == es[0].system && file.archive == es[0].archive
  {
    StandardReads(p, s, es, alloc, data, bc);
    VolumeFile(p, s, key, es);
  }

  lemma StandardContent(data: seq<byte>, slack: seq<byte>, bc: byte)
    requires data != [] && (bc == 0 || bc == |data| % 128)
    ensures var size := CeilDiv(|data|, 128) * 128 - if bc > 0 then 128 - bc else 0;
            var all := if bc > 0 then data else Padded(data);
            size == |all| && size <= |Padded(data) + slack| && (Padded(data) + slack)[..size] == all
  {
    PaddedLength(data);
    CeilDivBounds(|data|, 128);
    PrefixOfSum(Padded(data), slack, CeilDiv(|data|, 128) * 128 - if bc > 0 then 128 - bc else 0);
  }

  // ---- the entries a write makes -------------------------------------------

  /** Each entry of a new file but the last is full and says so. */
  lemma FullEntriesCount(p: DiskParams, key: Key, data: seq<byte>, alloc: seq<word>, d: nat)
    requires ValidParams(p) && |alloc| == BlocksNeeded(p, data) && data != [] && d + 1 < |FileEntries(p, key, data, alloc)|
    ensures FileEntries(p, key, data, alloc)[d].bc == 0
    ensures FileEntries(p, key, data, alloc)[d].rc == if p.blocksize == 1024 then 64 else 128
  {
  }

  lemma NewEntriesName(p: DiskParams, key: Key, data: seq<byte>, alloc: seq<word>, d: nat)
    requires ValidParams(p) && |alloc| == BlocksNeeded(p, data) && d < EntriesNeeded(p, data)
    ensures NamesBlocks(EntryOf(p, key, data, alloc, d), alloc, d)
  {
    EntryStart(p, data, d);
  }

  lemma LastIsNumbered(p: DiskParams, key: Key, data: seq<byte>, alloc: seq<word>)
    requires ValidParams(p) && |alloc| == BlocksNeeded(p, data) <= TotalBlocks(p) && data != []
    ensures EntriesNeeded(p, data) > 0
    ensures var m, last := EntriesNeeded(p, data), EntryOf(p, key, data, alloc, EntriesNeeded(p, data) - 1);
            ExtentNumber(last) == (m - 1) * Extents(p) && last.extentLow < 32 && last.bc == 0
  {
    EntryCount(p, data);
    NewEntriesNumbered(p, key, data, alloc, EntriesNeeded(p, data) - 1);
    ExtentsOfEntry(p);
  }

  lemma BlocksOfRecords(p: DiskParams, data: seq<byte>)
    requires ValidParams(p) && data != []
    ensures var n, records := BlocksNeeded(p, data), CeilDiv(|data|, 128);
            (n - 1) * (p.blocksize / 128) < records <= n * (p.blocksize / 128)
  {
    CeilDivBounds(|data|, p.blocksize);
    CeilDivBounds(|data|, 128);
    ScaledProduct(BlocksNeeded(p, data), SectorsPerBlock(p), p.blocksize);
    RecordsInBlocks(BlocksNeeded(p, data), SectorsPerBlock(p), CeilDiv(|data|, 128));
  }

  /**
   The entries a write makes are those CP/M itself would record exactly when
   the last of them describes at most 128 records; with more, CP/M numbers it
   by a later logical extent.
   */
  lemma WrittenIsStandard(p: DiskParams, key: Key, data: seq<byte>, alloc: seq<word>)
    requires ValidParams(p) && |alloc| == BlocksNeeded(p, data) <= TotalBlocks(p) && data != [] && NonZero(alloc)
    ensures Standard(p, FileEntries(p, key, data, alloc), alloc, CeilDiv(|data|, 128), 0) <==> LastRecords(p, data) <= 128
  {
    var es, m := FileEntries(p, key, data, alloc), EntriesNeeded(p, data);
    EntryCount(p, data);
    CeilDivBounds(|data|, 128);
    CeilDivBounds(|alloc|, 8);
    ExtentsOfEntry(p);
    LastRecordsBound(p, data);
    LastIsNumbered(p, key, data, alloc);
    BlocksOfRecords(p, data);
    forall d | 0 <= d < |es|
      ensures NamesBlocks(es[d], alloc, d)
    {
      NewEntriesName(p, key, data, alloc, d);
    }
  }

  /** Past 128 the count of the last entry is that of its last logical extent. */
  lemma LastEntryCounts(p: DiskParams, key: Key, data: seq<byte>, alloc: seq<word>)
    requires ValidParams(p) && |alloc| == BlocksNeeded(p, data) && data != []
    ensures EntriesNeeded(p, data) > 0
    ensures var left, rc := LastRecords(p, data), EntryOf(p, key, data, alloc, EntriesNeeded(p, data) - 1).rc;
            1 <= rc <= 128 && (left - rc) % 128 == 0
  {
    LastRecordsBound(p, data);
    LastCountPast(LastRecords(p, data));
  }

  lemma LastCountPast(records: int)
    requires records > 0
    ensures 1 <= LastCount(records) <= 128 && (records - LastCount(records)) % 128 == 0
  {
  }

  /** An entry without blocks and records is an empty file, whatever its byte count says. */
  lemma EmptyEntrySize(p: DiskParams, e: DirEntry)
    requires ValidParams(p) && e.extentLow == 0 && e.rc == 0
    ensures SizeOf(p, [e]) == 0
  {
    assert [e][..0] == [];
  }
}
