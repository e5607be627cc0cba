/** What the directory entries of a new file say about its blocks, order and size. */
module FileSize {
  import opened Bytes
  import opened DiskGeometry
  import opened BlockStore
  import opened Directory
  import opened FileView
  import opened FileLayout

  // ---- pointers ------------------------------------------------------------

  ghost predicate NonZero(ptrs: seq<word>) {
    forall i :: 0 <= i < |ptrs| ==> ptrs[i] != 0
  }

  lemma {:induction false} AllocatedNonZero(ptrs: seq<word>)
    requires NonZero(ptrs)
    ensures Allocated(ptrs) == ptrs
  {
    if ptrs != [] {
      AllocatedNonZero(ptrs[..|ptrs| - 1]);
      assert ptrs == ptrs[..|ptrs| - 1] + [ptrs[|ptrs| - 1]];
    }
  }

  lemma AllocatedZero(ptrs: seq<word>)
    ensures Allocated(ptrs + [0]) == Allocated(ptrs)
  {
    assert (ptrs + [0])[..|ptrs|] == ptrs;
  }

  lemma {:induction false} AllocatedPadded(ptrs: seq<word>, zeros: nat)
    requires NonZero(ptrs)
    ensures Allocated(ptrs + Repeat(0, zeros)) == ptrs
  {
    if zeros > 0 {
      AllocatedPadded(ptrs, zeros - 1);
      AllocatedZero(ptrs + Repeat(0, zeros - 1));
      assert ptrs + Repeat(0, zeros) == ptrs + Repeat(0, zeros - 1) + [0];
    } else {
      AllocatedNonZero(ptrs);
      assert ptrs + Repeat(0, 0) == ptrs;
    }
  }

  lemma EntryPointers(p: DiskParams, key: Key, data: seq<byte>, alloc: seq<word>, d: nat)
    requires ValidParams(p) && d < EntriesNeeded(p, data) && |alloc| == BlocksNeeded(p, data) && NonZero(alloc)
    ensures d * 8 < |alloc|
    ensures Allocated(EntryOf(p, key, data, alloc, d).blockPointers) == BlocksOfEntry(alloc, d)
  {
    EntryStart(p, data, d);
    var ptrs := BlocksOfEntry(alloc, d);
    AllocatedPadded(ptrs, PointerCount(UsesLargePointers(p)) - |ptrs|);
  }

  lemma FilePointersAppend(es: seq<DirEntry>, e: DirEntry)
    ensures FilePointers(es + [e]) == FilePointers(es) + Allocated(e.blockPointers)
  {
    assert (es + [e])[..|es|] == es;
  }

  lemma RecordsAppend(p: DiskParams, es: seq<DirEntry>, e: DirEntry)
    ensures RecordsOf(p, es + [e]) == RecordsOf(p, es) + |Allocated(e.blockPointers)| * SectorsPerBlock(p)
  {
    assert (es + [e])[..|es|] == es;
  }

  function Covered(alloc: seq<word>, m: nat): (n: nat)
    ensures n <= |alloc|
  {
    if m * 8 <= |alloc| then m * 8 else |alloc|
  }

  lemma CoveredGrows(alloc: seq<word>, d: nat)
    requires d * 8 < |alloc|
    ensures alloc[..Covered(alloc, d + 1)] == alloc[..Covered(alloc, d)] + BlocksOfEntry(alloc, d)
  {
  }

  /** The entries name the file's blocks, in file order. */
  lemma {:induction false} NewEntriesPointers(p: DiskParams, key: Key, data: seq<byte>, alloc: seq<word>, m: nat)
    requires ValidParams(p) && m <= EntriesNeeded(p, data) && |alloc| == BlocksNeeded(p, data) && NonZero(alloc)
    ensures FilePointers(NewEntries(p, key, data, alloc, m)) == alloc[..Covered(alloc, m)]
  {
    if m > 0 {
      var front, e := NewEntries(p, key, data, alloc, m - 1), EntryOf(p, key, data, alloc, m - 1);
      assert NewEntries(p, key, data, alloc, m) == front + [e];
      FilePointersAppend(front, e);
      NewEntriesPointers(p, key, data, alloc, m - 1);
      EntryPointers(p, key, data, alloc, m - 1);
      CoveredGrows(alloc, m - 1);
    }
  }

  lemma FileEntriesPointers(p: DiskParams, key: Key, data: seq<byte>, alloc: seq<word>)
    requires ValidParams(p) && |alloc| == BlocksNeeded(p, data) && NonZero(alloc)
    ensures FilePointers(FileEntries(p, key, data, alloc)) == alloc
  {
    CeilDivBounds(|data|, p.blocksize);
    if data == [] {
      AllocatedPadded([], PointerCount(UsesLargePointers(p)));
      assert alloc == [];
      assert FileEntries(p, key, data, alloc)[..0] == [];
      assert FilePointers([]) == [];
    } else {
      CeilDivBounds(|alloc|, 8);
      NewEntriesPointers(p, key, data, alloc, EntriesNeeded(p, data));
    }
  }

  // ---- extent numbers ------------------------------------------------------

  lemma NumberFits(p: DiskParams, data: seq<byte>, d: nat)
    requires ValidParams(p) && BlocksNeeded(p, data) <= TotalBlocks(p) && d < EntriesNeeded(p, data)
    ensures d * ExtentsPerEntry(p) < 2048
  {
    var n, t := BlocksNeeded(p, data), TotalBlocks(p);
    CeilDivBounds(n, 8);
    CeilDivBounds(t, 8);
    ExtentNumbersFit(p);
    MultiplesApart(ExtentsPerEntry(p), d, CeilDiv(t, 8));
  }

  lemma NumberIsStored(p: DiskParams, key: Key, number: nat, rc: byte, ptrs: seq<word>)
    requires ValidParams(p) && |ptrs| <= 8 && number < 2048
    ensures ExtentNumber(NewEntry(p, key, number, rc, ptrs)) == number
  {
  }

  lemma NewEntriesNumbered(p: DiskParams, key: Key, data: seq<byte>, alloc: seq<word>, d: nat)
    requires ValidParams(p) && |alloc| == BlocksNeeded(p, data) <= TotalBlocks(p) && d < EntriesNeeded(p, data)
    ensures ExtentNumber(EntryOf(p, key, data, alloc, d)) == d * ExtentsPerEntry(p)
  {
    EntryStart(p, data, d);
    NumberFits(p, data, d);
    NumberIsStored(p, key, d * ExtentsPerEntry(p), RecordCount(p, data, d), BlocksOfEntry(alloc, d));
  }

  /** Extent numbers grow strictly, so sorting by them is reading in file order. */
  lemma FileEntriesOrdered(p: DiskParams, key: Key, data: seq<byte>, alloc: seq<word>)
    requires ValidParams(p) && |alloc| == BlocksNeeded(p, data) <= TotalBlocks(p)
    ensures InExtentOrder(FileEntries(p, key, data, alloc))
    ensures DistinctExtents(FileEntries(p, key, data, alloc))
  {
    if data != [] {
      var m := EntriesNeeded(p, data);
      var es := NewEntries(p, key, data, alloc, m);
      forall i, j | 0 <= i < j < m
        ensures ExtentNumber(es[i]) < ExtentNumber(es[j])
      {
        NewEntriesNumbered(p, key, data, alloc, i);
        NewEntriesNumbered(p, key, data, alloc, j);
        MultiplesApart(ExtentsPerEntry(p), i, j);
      }
    }
  }

  // ---- size ----------------------------------------------------------------

  /** 128-byte records described by the last directory entry of the file. */
  function LastRecords(p: DiskParams, data: seq<byte>): int
    requires ValidParams(p)
  {
    if data == [] then 0 else CeilDiv(|data|, 128) - (EntriesNeeded(p, data) - 1) * RecordsPerEntry(p)
  }

  /** The size a listing shows for the file after it has been written. */
  function StoredSize(p: DiskParams, data: seq<byte>): int
    requires ValidParams(p)
  {
    if data == [] then 0
    else ((EntriesNeeded(p, data) - 1) * RecordsPerEntry(p) + LastCount(LastRecords(p, data))) * 128
  }

  lemma EntryCount(p: DiskParams, data: seq<byte>)
    requires ValidParams(p) && data != []
    ensures EntriesNeeded(p, data) > 0
  {
    CeilDivBounds(|data|, p.blocksize);
    CeilDivBounds(BlocksNeeded(p, data), 8);
  }

  lemma LastRecordsBound(p: DiskParams, data: seq<byte>)
    requires ValidParams(p) && data != []
    ensures 1 <= LastRecords(p, data) <= RecordsPerEntry(p)
    ensures EntriesNeeded(p, data) > 0 && (EntriesNeeded(p, data) - 1) * RecordsPerEntry(p) >= 0
  {
    EntryCount(p, data);
    var n, m, spb, size := BlocksNeeded(p, data), EntriesNeeded(p, data), SectorsPerBlock(p), p.blocksize;
    CeilDivBounds(|data|, size);
    CeilDivBounds(n, 8);
    CeilDivBounds(|data|, 128);
    assert spb * 128 == size;
    var r := CeilDiv(|data|, 128);
    ScaledProduct(n, spb, size);
    assert r <= n * spb;
    RecordsInBlocks(n, spb, r);
    EntryRecords(n, m, spb);
  }

  lemma RecordsInBlocks(n: nat, spb: nat, r: nat)
    requires n > 0 && n * spb * 128 < r * 128 + spb * 128
    ensures (n - 1) * spb < r
  {
    assert (n - 1) * spb == n * spb - spb;
  }

  /** m entries of eight blocks hold n blocks, and m - 1 do not. */
  lemma EntryRecords(n: nat, m: nat, spb: nat)
    requires n <= m * 8 < n + 8 && m > 0
    ensures n * spb <= (m - 1) * (8 * spb) + 8 * spb
    ensures (m - 1) * (8 * spb) <= (n - 1) * spb
  {
    assert (m - 1) * (8 * spb) == (m - 1) * 8 * spb;
    var d, e := m * 8 - n, n - 1 - (m - 1) * 8;
    assert m * 8 * spb == n * spb + d * spb;
    assert (n - 1) * spb == (m - 1) * 8 * spb + e * spb;
    assert m * 8 * spb == (m - 1) * 8 * spb + 8 * spb;
  }

  /**
   The listed size is the padded size exactly when the last entry's record
   count fits one logical extent; otherwise whole extents are missing.
   */
  lemma StoredSizeExact(p: DiskParams, data: seq<byte>)
    requires ValidParams(p)
    ensures 0 <= StoredSize(p, data) <= |Padded(data)|
    ensures StoredSize(p, data) == |Padded(data)| <==> LastRecords(p, data) <= 128
  {
    PaddedLength(data);
    if data != [] {
      LastRecordsBound(p, data);
      var before := (EntriesNeeded(p, data) - 1) * RecordsPerEntry(p);
      SizeOfRecords(before, LastRecords(p, data), CeilDiv(|data|, 128));
    }
  }

  lemma SizeOfRecords(before: int, last: int, total: int)
    requires before >= 0 && last > 0 && total == before + last
    ensures 0 <= (before + LastCount(last)) * 128 <= total * 128
    ensures (before + LastCount(last)) * 128 == total * 128 <==> last <= 128
  {
    LastCountFits(last);
  }

  /** A record count is stored exactly up to 128. */
  lemma LastCountFits(records: int)
    requires records > 0
    ensures 0 <= LastCount(records) <= records
    ensures LastCount(records) == records <==> records <= 128
  {
  }

  /** With one logical extent per entry every size is exact. */
  lemma SingleExtentExact(p: DiskParams, data: seq<byte>)
    requires ValidParams(p) && ExtentsPerEntry(p) == 1
    ensures LastRecords(p, data) <= 128
  {
    if data != [] {
      LastRecordsBound(p, data);
    }
  }

  lemma OneMoreTimes(m: nat, r: nat)
    requires m > 0
    ensures m * r == (m - 1) * r + r
  {
  }

  /** Every entry but the last holds eight blocks. */
  lemma FullEntry(p: DiskParams, key: Key, data: seq<byte>, alloc: seq<word>, d: nat)
    requires ValidParams(p) && |alloc| == BlocksNeeded(p, data) && NonZero(alloc)
    requires d + 1 < EntriesNeeded(p, data)
    ensures |Allocated(EntryOf(p, key, data, alloc, d).blockPointers)| == 8
  {
    EntryPointers(p, key, data, alloc, d);
    EntryStart(p, data, d + 1);
  }

  lemma OneMoreFullEntry(p: DiskParams, key: Key, data: seq<byte>, alloc: seq<word>, d: nat)
    requires ValidParams(p) && |alloc| == BlocksNeeded(p, data) && NonZero(alloc)
    requires d + 1 < EntriesNeeded(p, data)
    ensures RecordsOf(p, NewEntries(p, key, data, alloc, d + 1)) == RecordsOf(p, NewEntries(p, key, data, alloc, d)) + RecordsPerEntry(p)
  {
    var front, e := NewEntries(p, key, data, alloc, d), EntryOf(p, key, data, alloc, d);
    assert NewEntries(p, key, data, alloc, d + 1) == front + [e];
    RecordsAppend(p, front, e);
    FullEntry(p, key, data, alloc, d);
  }

  lemma {:induction false} FullEntriesRecords(p: DiskParams, key: Key, data: seq<byte>, alloc: seq<word>, m: nat)
    requires ValidParams(p) && |alloc| == BlocksNeeded(p, data) && NonZero(alloc)
    requires m < EntriesNeeded(p, data)
    ensures RecordsOf(p, NewEntries(p, key, data, alloc, m)) == m * RecordsPerEntry(p)
  {
    if m > 0 {
      OneMoreFullEntry(p, key, data, alloc, m - 1);
      FullEntriesRecords(p, key, data, alloc, m - 1);
      OneMoreTimes(m, RecordsPerEntry(p));
    }
  }

  lemma FirstSubExtent(p: DiskParams, d: nat)
    requires ValidParams(p)
    ensures d * ExtentsPerEntry(p) % 32 % ExtentsPerEntry(p) == 0
  {
    var e := ExtentsPerEntry(p);
    assert e == 1 || e == 2 || e == 4 || e == 8;
    MultipleMod32(d, e);
  }

  /** Dividing by 32 keeps a multiple of a divisor of 32 a multiple. */
  lemma MultipleMod32(d: nat, e: nat)
    requires e == 1 || e == 2 || e == 4 || e == 8
    ensures d * e % 32 % e == 0
  {
    if e == 2 { Mod32Of2(d); } else if e == 4 { Mod32Of4(d); } else if e == 8 { Mod32Of8(d); }
  }

  lemma Mod32Of2(d: nat)
    ensures d * 2 % 32 % 2 == 0
  {
    assert d * 2 == 32 * (d / 16) + d % 16 * 2;
  }

  lemma Mod32Of4(d: nat)
    ensures d * 4 % 32 % 4 == 0
  {
    assert d * 4 == 32 * (d / 8) + d % 8 * 4;
  }

  lemma Mod32Of8(d: nat)
    ensures d * 8 % 32 % 8 == 0
  {
    assert d * 8 == 32 * (d / 4) + d % 4 * 8;
  }

  lemma LastEntrySize(p: DiskParams, key: Key, data: seq<byte>, alloc: seq<word>)
    requires ValidParams(p) && |alloc| == BlocksNeeded(p, data) && data != []
    ensures EntriesNeeded(p, data) > 0
    ensures var e := EntryOf(p, key, data, alloc, EntriesNeeded(p, data) - 1);
            e.bc == 0 && e.rc == LastCount(LastRecords(p, data)) && e.extentLow % 32 % ExtentsPerEntry(p) == 0
  {
    EntryCount(p, data);
    FirstSubExtent(p, EntriesNeeded(p, data) - 1);
  }

  /** The listing computes StoredSize from the entries of a new file. */
  lemma FileEntriesSize(p: DiskParams, key: Key, data: seq<byte>, alloc: seq<word>)
    requires ValidParams(p) && |alloc| == BlocksNeeded(p, data) && NonZero(alloc)
    ensures FileEntries(p, key, data, alloc) != []
    ensures SizeOf(p, FileEntries(p, key, data, alloc)) == StoredSize(p, data)
  {
    var es := FileEntries(p, key, data, alloc);
    if data == [] {
      FirstSubExtent(p, 0);
      assert es[..0] == [];
    } else {
      LastEntrySize(p, key, data, alloc);
      var m := EntriesNeeded(p, data);
      FullEntriesRecords(p, key, data, alloc, m - 1);
      assert es[..m - 1] == NewEntries(p, key, data, alloc, m - 1);
      assert es[m - 1] == EntryOf(p, key, data, alloc, m - 1);
      assert RecordsOf(p, es[..m - 1]) == (m - 1) * RecordsPerEntry(p);
    }
  }

  // ---- content -------------------------------------------------------------

  /** What reading the file back yields. */
  function StoredContent(p: DiskParams, data: seq<byte>): (r: seq<byte>)
    requires ValidParams(p)
    ensures LastRecords(p, data) <= 128 ==> r == Padded(data)
  {
    StoredSizeExact(p, data);
    Padded(data)[..StoredSize(p, data)]
  }

  /** A new file as the volume shows it. */
  function StoredFile(p: DiskParams, data: seq<byte>): FileRec
    requires ValidParams(p)
  {
    StoredSizeExact(p, data);
    FileRec(StoredContent(p, data), StoredSize(p, data), false, false, false)
  }

  lemma EntryFlags(p: DiskParams, key: Key, data: seq<byte>, alloc: seq<word>, d: nat)
    requires ValidParams(p) && |alloc| == BlocksNeeded(p, data) && d < |FileEntries(p, key, data, alloc)|
    ensures var e := FileEntries(p, key, data, alloc)[d];
            KeyOf(e) == key && !e.readonly && !e.system && !e.archive
            && |e.blockPointers| == PointerCount(UsesLargePointers(p))
  {
  }

  lemma PrefixOfSum(a: seq<byte>, b: seq<byte>, n: nat)
    requires n <= |a|
    ensures (a + b)[..n] == a[..n]
  {
  }

  /** A file whose blocks hold its chunks and whose entries are the new ones reads back as stored. */
  lemma FileEntriesRead(p: DiskParams, s: Blocks, key: Key, data: seq<byte>, alloc: seq<word>)
    requires ValidParams(p) && |alloc| == BlocksNeeded(p, data) && NonZero(alloc)
    requires HoldsChunks(p, s, alloc, data)
    ensures FileEntries(p, key, data, alloc) != []
    ensures FilePointers(FileEntries(p, key, data, alloc)) == alloc
    ensures FileOf(p, s, FileEntries(p, key, data, alloc)) == StoredFile(p, data)
  {
    FileEntriesPointers(p, key, data, alloc);
    FileEntriesSize(p, key, data, alloc);
    ReadAllChunks(p, s, alloc, data);
    StoredSizeExact(p, data);
    EntryFlags(p, key, data, alloc, 0);
    PrefixOfSum(Padded(data), Slack(p, data), StoredSize(p, data));
  }
}
