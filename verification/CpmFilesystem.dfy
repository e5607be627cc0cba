/** The filesystem over one mutable disk image, proved against the store model. */
module Cpm {
  import opened Bytes
  import opened DiskGeometry
  import opened SectorFraming
  import opened BlockStore
  import opened Directory
  import opened FileView
  import opened FileLayout
  import opened FileSize
  import opened Allocation
  import opened DirectoryPlan
  import opened FileOps
  import opened Names
  import opened Lookup

  datatype Error = BadSectorSize | BadBlockSize | OutOfBounds | FileNotFound | NoSpace | NoDirectorySlot

  /** A record of the image rewritten with data in the framing of its track. */
  function SectorWritten(p: DiskParams, img: Image, k: nat, data: seq<byte>): (r: Image)
    requires |data| == 128 && k * 137 + 137 <= |img|
    ensures |r| == |img|
  {
    ReplaceRecord(img, k, Frame(p, k, Record(img, k), data))
  }

  /** What every operation keeps of the image around the blocks it changes. */
  ghost predicate Preserved(p: DiskParams, before: Image, after: Image)
    requires p.boottrk <= p.tracks && Fits(p, before) && Fits(p, after)
  {
    && |after| == |before|
    && (Framed(p, before) ==> Framed(p, after))
    && BootArea(p, after) == BootArea(p, before)
  }

  lemma SectorWritePreserves(p: DiskParams, img: Image, n: nat, data: seq<byte>)
    requires p.boottrk <= p.tracks && Fits(p, img) && |data| == 128
    requires RecordIndex(p, n) * 137 + 137 <= |img|
    ensures Preserved(p, img, SectorWritten(p, img, RecordIndex(p, n), data))
    ensures SectorView(p, SectorWritten(p, img, RecordIndex(p, n), data))
            == if n < SectorCount(p) then SectorView(p, img)[n := data] else SectorView(p, img)
  {
    var k := RecordIndex(p, n);
    FrameCorrect(p, k, Record(img, k), data);
    if Framed(p, img) {
      FramedAfterReplace(p, img, k, Frame(p, k, Record(img, k), data));
    }
    SectorWriteKeepsBootArea(p, img, n, Frame(p, k, Record(img, k), data));
    SectorWriteIsolated(p, img, n, data);
  }

  lemma PreservedTrans(p: DiskParams, a: Image, b: Image, c: Image)
    requires p.boottrk <= p.tracks && Fits(p, a) && Fits(p, b) && Fits(p, c)
    requires Preserved(p, a, b) && Preserved(p, b, c)
    ensures Preserved(p, a, c)
  {
  }

  /** One more sector of the run written. */
  lemma NextSectorWritten(before: Sectors, mid: Sectors, after: Sectors, first: nat, data: seq<byte>, i: nat)
    requires (i + 1) * 128 <= |data| && RunWritten(before, mid, first, data, i)
    requires after == if first + i < |mid| then mid[first + i := data[i * 128..i * 128 + 128]] else mid
    ensures RunWritten(before, after, first, data, i + 1)
  {
  }

  /** The effect of an attempt to write CP/M sector n. */
  lemma WrittenOrNot(p: DiskParams, img: Image, after: Image, n: nat, data: seq<byte>, ok: bool)
    requires p.boottrk <= p.tracks && Fits(p, img) && |data| == 128
    requires ok <==> RecordIndex(p, n) * 137 + 137 <= |img|
    requires after == if ok then SectorWritten(p, img, RecordIndex(p, n), data) else img
    ensures Fits(p, after) && Preserved(p, img, after)
    ensures n < SectorCount(p) ==> ok && SectorView(p, after) == SectorView(p, img)[n := data]
    ensures n >= SectorCount(p) ==> SectorView(p, after) == SectorView(p, img)
  {
    if n < SectorCount(p) {
      RecordIndexFits(p, n);
    }
    if ok {
      SectorWritePreserves(p, img, n, data);
    }
  }

  lemma PayloadSlice(p: DiskParams, img: Image, k: nat)
    requires k * 137 + 137 <= |img|
    ensures var at := k * 137 + DataOffset(p, k / 32);
            at + 128 <= |img| && Payload(p, k, Record(img, k)) == img[at..at + 128]
  {
    var off := DataOffset(p, k / 32);
    SliceOfSlice(img, k * 137, k * 137 + 137, off, off + 128);
  }

  lemma SumThenMore(a: nat, b: nat)
    ensures (a % 256 + b) % 256 == (a + b) % 256
  {
    var q, r := a / 256, a % 256;
    assert a + b == r + b + 256 * q;
    WholeTurns(r + b, q);
  }

  lemma {:induction false} WholeTurns(n: nat, q: nat)
    ensures (n + 256 * q) % 256 == n % 256
  {
    if q > 0 {
      WholeTurns(n, q - 1);
    }
  }

  /** An image that has the record at base and is otherwise as before. */
  lemma Spliced(img: Image, after: Image, base: nat, record: seq<byte>)
    requires |after| == |img| && base + 137 <= |img| && |record| == 137
    requires forall i :: 0 <= i < 137 ==> after[base + i] == record[i]
    requires forall j :: 0 <= j < |img| && !(base <= j < base + 137) ==> after[j] == img[j]
    ensures after == img[..base] + record + img[base + 137..]
  {
    assert after[base..base + 137] == record;
    assert after == after[..base] + after[base..base + 137] + after[base + 137..];
    assert after[..base] == img[..base] && after[base + 137..] == img[base + 137..];
  }

  /** An image in which the bytes of a data frame were set, and no others, has its record replaced by the frame. */
  lemma DataFrameWritten(img: Image, after: Image, k: nat, track: nat, phys: nat, data: seq<byte>)
    requires |after| == |img| && k * 137 + 137 <= |img| && |data| == 128
    requires forall j :: 0 <= j < |img| && !(k * 137 <= j < k * 137 + 137) ==> after[j] == img[j]
    requires var base := k * 137;
             && after[base] == TrackByte(track) && after[base + 1] == SectorId(phys)
             && after[base + 2] == img[base + 2] && after[base + 3] == img[base + 3]
             && after[base + 5] == img[base + 5] && after[base + 6] == img[base + 6]
             && after[base + 135] == 255 && after[base + 136] == 0
             && after[base + 4] == (Sum(data) + img[base + 2] + img[base + 3] + img[base + 5] + img[base + 6]) % 256
             && forall j :: base + 7 <= j < base + 135 ==> after[j] == data[j - base - 7]
    ensures after == ReplaceRecord(img, k, DataFrame(track, phys, Record(img, k), data))
  {
    var base, r := k * 137, Record(img, k);
    DataFrameBytes(track, phys, r, data);
    var frame := DataFrame(track, phys, r, data);
    assert r[2] == img[base + 2] && r[3] == img[base + 3] && r[5] == img[base + 5] && r[6] == img[base + 6];
    forall i | 0 <= i < 137
      ensures after[base + i] == frame[i]
    {
    }
    Spliced(img, after, base, frame);
  }

  /** n sectors from one on, put together; nothing where there is no sector. */
  function Joined(sectors: Sectors, from: nat, n: nat): seq<byte> {
    if n == 0 then []
    else Joined(sectors, from, n - 1) + if from + n - 1 < |sectors| then sectors[from + n - 1] else []
  }

  lemma {:induction false} JoinedBytes(sectors: Sectors, from: nat, n: nat)
    requires from + n <= |sectors| && forall k :: 0 <= k < |sectors| ==> |sectors[k]| == 128
    ensures |Joined(sectors, from, n)| == n * 128
    ensures forall j :: 0 <= j < n * 128 ==> Joined(sectors, from, n)[j] == sectors[from + j / 128][j % 128]
  {
    if n > 0 {
      var last := n - 1;
      JoinedBytes(sectors, from, last);
      forall j | last * 128 <= j < n * 128
        ensures Joined(sectors, from, n)[j] == sectors[from + j / 128][j % 128]
      {
        assert j / 128 == last && j % 128 == j - last * 128;
      }
    }
  }

  /** A block of the disk is its sectors in order, all of them in the data area. */
  lemma BlockIsItsSectors(p: DiskParams, sectors: Sectors, b: nat)
    requires ValidParams(p) && b < TotalBlocks(p)
    requires |sectors| == SectorCount(p) && forall n :: 0 <= n < |sectors| ==> |sectors[n]| == 128
    ensures var first, spb := b * SectorsPerBlock(p), SectorsPerBlock(p);
            first + spb <= |sectors| && BlockView(p, sectors)[b] == Joined(sectors, first, spb)
  {
    BlockFits(p, b);
    var first, spb := b * SectorsPerBlock(p), SectorsPerBlock(p);
    assert first + spb <= |sectors| && spb * 128 == p.blocksize;
    JoinedBytes(sectors, first, spb);
    BlockInView(p, sectors, b);
    assert BlockAt(p, sectors, b) == Joined(sectors, first, spb);
  }

  /** First slot of directory block b, or the directory size when that is smaller. */
  function FirstSlot(p: DiskParams, b: nat): (k: nat)
    requires ValidParams(p)
    ensures k <= p.maxdir
  {
    if b == 0 then 0
    else if FirstSlot(p, b - 1) + EntriesPerBlock(p) <= p.maxdir then FirstSlot(p, b - 1) + EntriesPerBlock(p)
    else p.maxdir
  }

  lemma {:induction false} FirstSlotIsMultiple(p: DiskParams, b: nat)
    requires ValidParams(p)
    ensures FirstSlot(p, b) == if b * EntriesPerBlock(p) <= p.maxdir then b * EntriesPerBlock(p) else p.maxdir
  {
    if b > 0 {
      FirstSlotIsMultiple(p, b - 1);
      assert b * EntriesPerBlock(p) == (b - 1) * EntriesPerBlock(p) + EntriesPerBlock(p);
    }
  }

  /** A directory block starts inside the directory, and the last one ends with it. */
  lemma FirstSlotOfBlock(p: DiskParams, b: nat)
    requires ValidParams(p)
    ensures b < DirBlocks(p) ==> FirstSlot(p, b) == b * EntriesPerBlock(p) < p.maxdir
    ensures FirstSlot(p, DirBlocks(p)) == p.maxdir
  {
    FirstSlotIsMultiple(p, b);
    FirstSlotIsMultiple(p, DirBlocks(p));
    CeilDivBounds(p.maxdir, EntriesPerBlock(p));
    MultiplesApart(EntriesPerBlock(p), b, DirBlocks(p));
  }

  /** Entry e of directory block b is slot b * entriesPerBlock + e of the directory. */
  lemma EntryInBlock(p: DiskParams, s: Blocks, b: nat, e: nat, slot: nat)
    requires ValidParams(p) && IsStore(p, s) && b < DirBlocks(p) && e < EntriesPerBlock(p)
    requires slot == b * EntriesPerBlock(p) + e && slot < p.maxdir
    ensures |s[b]| == p.blocksize && e * 32 + 32 <= p.blocksize
    ensures DirView(p, s)[slot] == ParseEntry(UsesLargePointers(p), s[b][e * 32..e * 32 + 32])
  {
    var epb := EntriesPerBlock(p);
    assert epb * 32 == p.blocksize;
    DivModUnique(slot, epb, b, e);
    EntryInView(p, s, slot);
  }

  /** The lowest of first and the blocks held, those beyond the disk aside. */
  ghost predicate LowestOf(lowest: Option<nat>, first: Option<nat>, held: seq<nat>, total: nat) {
    && (lowest.None? ==> first.None? && forall b :: b in held ==> b >= total)
    && (lowest.Some? ==> first == lowest || (lowest.value in held && lowest.value < total))
    && (lowest.Some? ==> forall b :: b in held && b < total ==> lowest.value <= b)
    && (lowest.Some? && first.Some? ==> lowest.value <= first.value)
  }

  lemma LowestNext(lowest: Option<nat>, first: Option<nat>, held: seq<nat>, bp: nat, total: nat)
    requires LowestOf(lowest, first, held, total)
    ensures LowestOf(if bp < total && (lowest.None? || bp < lowest.value) then Some(bp) else lowest, first, held + [bp], total)
    ensures LowestOf(lowest, first, held, total)
  {
    forall b | b in held + [bp]
      ensures b in held || b == bp
    {
    }
  }

  /** Part of a directory, from slot at on. */
  ghost predicate IsPart(part: Dir, dir: Dir, at: nat) {
    at + |part| <= |dir| && forall e :: 0 <= e < |part| ==> part[e] == dir[at + e]
  }

  lemma PartGrows(part: Dir, dir: Dir, at: nat, entry: DirEntry)
    requires IsPart(part, dir, at) && at + |part| < |dir| && entry == dir[at + |part|]
    ensures IsPart(part + [entry], dir, at)
  {
  }

  lemma PartsJoin(a: Dir, b: Dir, dir: Dir, at: nat)
    requires IsPart(a, dir, at) && IsPart(b, dir, at + |a|)
    ensures IsPart(a + b, dir, at)
  {
    forall e | 0 <= e < |a + b|
      ensures (a + b)[e] == dir[at + e]
    {
      if e >= |a| { assert b[e - |a|] == dir[at + |a| + (e - |a|)]; }
    }
  }

  /** Directory block b with its first e entries serialised, 0xE5 after them. */
  ghost predicate FilledTo(p: DiskParams, entries: Dir, b: nat, block: seq<byte>, e: int)
    requires ValidParams(p)
  {
    |block| == p.blocksize
    && forall j :: 0 <= j < |block| ==> block[j] == if j < e * 32 then DirByte(p, entries, b, j) else DELETED
  }

  lemma FilledNext(p: DiskParams, entries: Dir, b: nat, before: seq<byte>, after: seq<byte>, e: nat, raw: seq<byte>)
    requires ValidParams(p) && FilledTo(p, entries, b, before, e) && |after| == |before|
    requires e * 32 + 32 <= |before| && b * EntriesPerBlock(p) + e < |entries|
    requires raw == EncodeEntry(UsesLargePointers(p), entries[b * EntriesPerBlock(p) + e])
    requires forall j :: 0 <= j < 32 ==> after[e * 32 + j] == raw[j]
    requires forall j :: 0 <= j < |before| && !(e * 32 <= j < e * 32 + 32) ==> after[j] == before[j]
    ensures FilledTo(p, entries, b, after, e + 1)
  {
    forall j | e * 32 <= j < e * 32 + 32
      ensures after[j] == DirByte(p, entries, b, j)
    {
      assert j / 32 == e && j % 32 == j - e * 32;
      assert after[e * 32 + (j - e * 32)] == raw[j - e * 32];
    }
  }

  /** Past its last entry a directory block is 0xE5 throughout. */
  lemma FilledIsBlock(p: DiskParams, entries: Dir, b: nat, block: seq<byte>, e: int)
    requires ValidParams(p) && FilledTo(p, entries, b, block, e)
    requires e >= EntriesPerBlock(p) || b * EntriesPerBlock(p) + (if e > 0 then e else 0) >= |entries|
    ensures block == DirBlock(p, entries, b)
  {
    forall j: nat | j < p.blocksize
      ensures block[j] == DirByte(p, entries, b, j)
    {
      if j >= e * 32 {
        assert j / 32 >= e;
      }
    }
  }

  function ResultOf(outcome: Outcome): Result<(), Error> {
    match outcome
    case Done => Ok(())
    case NotFound => Err(FileNotFound)
    case DiskFull => Err(NoSpace)
    case DirectoryFull => Err(NoDirectorySlot)
  }

  /** Each way an operation ends is reported as itself. */
  lemma ResultsTell(outcome: Outcome)
    ensures ResultOf(outcome) == Ok(()) <==> outcome == Done
    ensures ResultOf(outcome) == Err(FileNotFound) <==> outcome == NotFound
    ensures ResultOf(outcome) == Err(NoSpace) <==> outcome == DiskFull
    ensures ResultOf(outcome) == Err(NoDirectorySlot) <==> outcome == DirectoryFull
  {
  }

  datatype FreeSpace = FreeSpace(
    freeBlocks: nat,
    freeBytes: nat,
    totalBlocks: nat,
    totalBytes: nat,
    usedBlocks: nat,
    usedBytes: nat,
    directoryEntriesFree: nat,
    directoryEntriesTotal: nat)

  /** The report for these counts. */
  function SpaceOf(freeBlocks: nat, usedBlocks: nat, blocksize: nat, usedEntries: nat, maxdir: nat): (space: FreeSpace)
    requires usedEntries <= maxdir
    ensures space.freeBytes + space.usedBytes == space.totalBytes
  {
    var totalBlocks := freeBlocks + usedBlocks;
    assert freeBlocks * blocksize + usedBlocks * blocksize == totalBlocks * blocksize;
    FreeSpace(freeBlocks, freeBlocks * blocksize, totalBlocks, totalBlocks * blocksize,
              usedBlocks, usedBlocks * blocksize, maxdir - usedEntries, maxdir)
  }

  /** Directory slots that files use. */
  function CountLive(dir: Dir): nat {
    if dir == [] then 0 else CountLive(dir[..|dir| - 1]) + if Live(dir[|dir| - 1]) then 1 else 0
  }

  function LiveSlots(dir: Dir): set<nat> {
    set k: nat | k < |dir| && dir[k].status <= 31
  }

  /** Those are the slots of the 32 user areas. */
  lemma {:induction false} CountLiveIs(dir: Dir)
    ensures CountLive(dir) == |LiveSlots(dir)|
  {
    if dir != [] {
      var n := |dir| - 1;
      CountLiveIs(dir[..n]);
      assert LiveSlots(dir) == LiveSlots(dir[..n]) + if dir[n].status <= 31 then {n} else {};
    }
  }

  class CpmFilesystem {
    const imageData: array<byte>
    const params: DiskParams
    const useLargePointers: bool
    const collate: Collation

    ghost predicate Valid() {
      && ValidParams(params)
      && params.tracks * TRACK_SIZE <= imageData.Length
      && useLargePointers == UsesLargePointers(params)
    }

    /** The CP/M sectors the image holds. */
    ghost function SectorsHeld(): Sectors
      requires Valid()
      reads imageData
    {
      SectorView(params, imageData[..])
    }

    /** The allocation blocks the image holds. */
    ghost function Store(): (s: Blocks)
      requires Valid()
      reads imageData
      ensures IsStore(params, s)
    {
      BlockView(params, SectorsHeld())
    }

    constructor (image: array<byte>, p: DiskParams, collate: Collation)
      requires ValidParams(p) && p.tracks * TRACK_SIZE <= image.Length
      ensures Valid() && params == p && this.collate == collate
      ensures fresh(imageData) && imageData[..] == old(image[..])
    {
      var copy := new byte[image.Length](i requires 0 <= i < image.Length reads image => image[i]);
      imageData := copy;
      params := p;
      this.collate := collate;
      useLargePointers := UsesLargePointers(p);
    }

    // ---- sectors -----------------------------------------------------------

    method ReadSector(track: nat, logicalSector: nat) returns (r: Result<seq<byte>, Error>)
      requires Valid() && logicalSector < 32
      ensures var k, off := RecordOf(params, track, logicalSector), DataOffset(params, track);
              r == if k * 137 + off + 128 <= imageData.Length
                   then Ok(imageData[k * 137 + off..k * 137 + off + 128])
                   else Err(OutOfBounds)
    {
      var physSector := LogicalToPhysical(track, logicalSector, SystemTracks(params));
      var sectorBase := (track * SECTORS_PER_TRACK + physSector) * SECTOR_SIZE;
      var dataOff := DataOffset(params, track);
      if sectorBase + dataOff + DATA_SIZE > imageData.Length {
        return Err(OutOfBounds);
      }
      return Ok(imageData[sectorBase + dataOff..sectorBase + dataOff + DATA_SIZE]);
    }

    /** The 8-bit sum of a sector's data. */
    method DataSum(data: seq<byte>) returns (csum: byte)
      requires |data| == 128
      ensures csum == Sum(data) % 256
    {
      csum := 0;
      for i := 0 to 128
        invariant csum == Sum(data[..i]) % 256
      {
        assert data[..i + 1][..i] == data[..i];
        csum := (csum + data[i]) % 256;
      }
      assert data[..128] == data;
    }

    method WriteSector(track: nat, logicalSector: nat, data: seq<byte>) returns (r: Result<(), Error>)
      requires Valid() && logicalSector < 32
      modifies imageData
      ensures var k := RecordOf(params, track, logicalSector);
              && (r == if |data| != 128 then Err(BadSectorSize)
                       else if k * 137 + 137 > imageData.Length then Err(OutOfBounds) else Ok(()))
              && (imageData[..] == if r.Ok? then SectorWritten(params, old(imageData[..]), k, data) else old(imageData[..]))
    {
      if |data| != DATA_SIZE {
        return Err(BadSectorSize);
      }
      RecordOfTrack(params, track, logicalSector);
      var physSector := LogicalToPhysical(track, logicalSector, SystemTracks(params));
      var sectorBase := (track * SECTORS_PER_TRACK + physSector) * SECTOR_SIZE;
      if sectorBase + SECTOR_SIZE > imageData.Length {
        return Err(OutOfBounds);
      }
      if track < SystemTracks(params) {
        WriteBootFrame(track, sectorBase, data, RecordOf(params, track, logicalSector));
      } else {
        WriteDataFrame(track, physSector, sectorBase, data, RecordOf(params, track, logicalSector));
      }
      return Ok(());
    }

    method CopyBytes(at: nat, data: seq<byte>)
      requires at + |data| <= imageData.Length
      modifies imageData
      ensures forall j :: 0 <= j < imageData.Length ==>
                imageData[j] == if at <= j < at + |data| then data[j - at] else old(imageData[j])
    {
      forall i | 0 <= i < |data| {
        imageData[at + i] := data[i];
      }
    }

    /** Boot framing: data at 3, stop byte at 131, checksum at 132; the rest is left in place. */
    method WriteBootFrame(track: nat, sectorBase: nat, data: seq<byte>, ghost k: nat)
      requires sectorBase == k * 137 && sectorBase + 137 <= imageData.Length && |data| == 128
      modifies imageData
      ensures imageData[..] == var img := old(imageData[..]); ReplaceRecord(img, k, BootFrame(track, Record(img, k), data))
    {
      ghost var img := imageData[..];
      imageData[sectorBase] := TrackByte(track);
      CopyBytes(sectorBase + BOOT_DATA_OFFSET, data);
      imageData[sectorBase + BOOT_STOP_OFFSET] := 255;
      var csum := DataSum(data);
      imageData[sectorBase + BOOT_CSUM_OFFSET] := csum;
      ghost var frame := BootFrame(track, img[sectorBase..sectorBase + 137], data);
      BootFrameBytes(track, img[sectorBase..sectorBase + 137], data);
      forall i | 0 <= i < 137
        ensures imageData[sectorBase + i] == frame[i]
      {
      }
      Spliced(img, imageData[..], sectorBase, frame);
    }

    /** The checksum of a data-track record: over its data and over the bytes 2, 3, 5 and 6 it already has. */
    method DataFrameSum(sectorBase: nat, data: seq<byte>) returns (sum: byte)
      requires sectorBase + 137 <= imageData.Length && |data| == 128
      ensures sum == (Sum(data) + imageData[sectorBase + 2] + imageData[sectorBase + 3] + imageData[sectorBase + 5]
                      + imageData[sectorBase + 6]) % 256
    {
      var csum := DataSum(data);
      var total: int := csum;
      total := total + imageData[sectorBase + 2] + imageData[sectorBase + 3];
      total := total + imageData[sectorBase + 5] + imageData[sectorBase + 6];
      SumThenMore(Sum(data), total - csum);
      sum := total % 256;
    }

    /** Data framing: sector ID at 1, data at 7, stop and end bytes, and a checksum over bytes 2, 3, 5 and 6 as well. */
    method WriteDataFrame(track: nat, physSector: nat, sectorBase: nat, data: seq<byte>, ghost k: nat)
      requires sectorBase == k * 137 && sectorBase + 137 <= imageData.Length && |data| == 128
      modifies imageData
      ensures imageData[..]
              == var img := old(imageData[..]); ReplaceRecord(img, k, DataFrame(track, physSector, Record(img, k), data))
    {
      ghost var img := imageData[..];
      imageData[sectorBase] := TrackByte(track);
      CopyBytes(sectorBase + DATA_DATA_OFFSET, data);
      imageData[sectorBase + DATA_SECT_OFFSET] := SectorId(physSector);
      imageData[sectorBase + DATA_STOP_OFFSET] := 255;
      imageData[sectorBase + DATA_END_OFFSET] := 0;
      imageData[sectorBase + DATA_CSUM_OFFSET] := DataFrameSum(sectorBase, data);
      DataFrameWritten(img, imageData[..], k, track, physSector, data);
    }

    // ---- blocks ------------------------------------------------------------

    /** The track and sector a block loop visits for the absSec-th CP/M sector after the boot tracks. */
    method ReadAbsoluteSector(absSec: nat) returns (r: Result<seq<byte>, Error>)
      requires Valid()
      ensures r.Ok? ==> |r.value| == 128
      ensures absSec < SectorCount(params) ==> r == Ok(SectorsHeld()[absSec])
    {
      var track := params.boottrk + absSec / params.sectrk;
      var logSec := absSec % params.sectrk;
      r := ReadSector(track, logSec);
      if absSec < SectorCount(params) {
        RecordIndexFits(params, absSec);
        RecordOfTrack(params, track, logSec);
        PayloadSlice(params, imageData[..], RecordIndex(params, absSec));
        SectorInView(params, imageData[..], absSec);
      }
    }

    method WriteAbsoluteSector(absSec: nat, data: seq<byte>) returns (r: Result<(), Error>)
      requires Valid() && |data| == 128
      modifies imageData
      ensures absSec < SectorCount(params) ==> r.Ok? && SectorsHeld() == old(SectorsHeld())[absSec := data]
      ensures absSec >= SectorCount(params) ==> SectorsHeld() == old(SectorsHeld())
      ensures Preserved(params, old(imageData[..]), imageData[..])
    {
      var track := params.boottrk + absSec / params.sectrk;
      var logSec := absSec % params.sectrk;
      ghost var img, k := imageData[..], RecordIndex(params, absSec);
      assert k == RecordOf(params, track, logSec);
      r := WriteSector(track, logSec, data);
      WrittenOrNot(params, img, imageData[..], absSec, data, r.Ok?);
    }

    method ReadBlock(blockNumber: nat) returns (r: Result<seq<byte>, Error>)
      requires Valid()
      ensures r.Ok? ==> |r.value| == params.blocksize
      ensures blockNumber < TotalBlocks(params) ==> r == Ok(Store()[blockNumber])
    {
      var sectorsPerBlock := SectorsPerBlock(params);
      r := ReadSectors(blockNumber * sectorsPerBlock, sectorsPerBlock);
      assert sectorsPerBlock * 128 == params.blocksize;
      if blockNumber < TotalBlocks(params) {
        BlockFits(params, blockNumber);
        BlockIsItsSectors(params, SectorsHeld(), blockNumber);
      }
    }

    /** Consecutive CP/M sectors, one after the other. */
    method ReadSectors(absoluteSector: nat, count: nat) returns (r: Result<seq<byte>, Error>)
      requires Valid()
      ensures r.Ok? ==> |r.value| == count * 128
      ensures absoluteSector + count <= SectorCount(params) ==> r == Ok(Joined(SectorsHeld(), absoluteSector, count))
    {
      var result := [];
      ghost var held := SectorsHeld();
      for i := 0 to count
        invariant |result| == i * 128
        invariant absoluteSector + count <= |held| ==> result == Joined(held, absoluteSector, i)
      {
        var sectorData := ReadAbsoluteSector(absoluteSector + i);
        if sectorData.Err? {
          return Err(sectorData.error);
        }
        result := result + sectorData.value;
      }
      return Ok(result);
    }

    method WriteBlock(blockNumber: nat, data: seq<byte>) returns (r: Result<(), Error>)
      requires Valid()
      modifies imageData
      ensures |data| != params.blocksize ==> r == Err(BadBlockSize) && imageData[..] == old(imageData[..])
      ensures |data| == params.blocksize && blockNumber < TotalBlocks(params) ==>
                r.Ok? && Store() == old(Store())[blockNumber := data]
      ensures blockNumber >= TotalBlocks(params) ==> Store() == old(Store())
      ensures Preserved(params, old(imageData[..]), imageData[..])
    {
      if |data| != params.blocksize {
        return Err(BadBlockSize);
      }
      var sectorsPerBlock := SectorsPerBlock(params);
      ghost var before := SectorsHeld();
      ghost var done;
      r, done := WriteSectors(blockNumber * sectorsPerBlock, sectorsPerBlock, data);
      if blockNumber < TotalBlocks(params) {
        BlockFits(params, blockNumber);
      }
      BlockWritten(params, before, SectorsHeld(), blockNumber, data, done);
    }

    /** Writes the data to consecutive CP/M sectors, as far as they are on the disk. */
    method WriteSectors(absoluteSector: nat, count: nat, data: seq<byte>) returns (r: Result<(), Error>, ghost done: nat)
      requires Valid() && |data| == count * 128
      modifies imageData
      ensures done <= count && RunWritten(old(SectorsHeld()), SectorsHeld(), absoluteSector, data, done)
      ensures r.Ok? ==> done == count
      ensures absoluteSector + count <= SectorCount(params) ==> r.Ok?
      ensures Preserved(params, old(imageData[..]), imageData[..])
    {
      ghost var before := SectorsHeld();
      done := 0;
      for i := 0 to count
        invariant done == i && RunWritten(before, SectorsHeld(), absoluteSector, data, i)
        invariant Preserved(params, old(imageData[..]), imageData[..])
      {
        ghost var img, held := imageData[..], SectorsHeld();
        r := WriteAbsoluteSector(absoluteSector + i, data[i * 128..i * 128 + 128]);
        PreservedTrans(params, old(imageData[..]), img, imageData[..]);
        if r.Err? {
          return r, done;
        }
        NextSectorWritten(before, held, SectorsHeld(), absoluteSector, data, i);
        done := i + 1;
      }
      r := Ok(());
    }

    // ---- directory ---------------------------------------------------------

    method ParseDirEntry(buf: seq<byte>, off: nat) returns (e: DirEntry)
      requires Valid() && off + 32 <= |buf|
      ensures e == ParseEntry(UsesLargePointers(params), buf[off..off + 32])
    {
      var filename: seq<byte> := [];
      for i := 1 to 9
        invariant |filename| == i - 1
        invariant forall j :: 0 <= j < i - 1 ==> filename[j] == Masked(buf[off + 1 + j])
      {
        filename := filename + [Masked(buf[off + i])];
      }
      var rawExt0, rawExt1, rawExt2 := buf[off + 9], buf[off + 10], buf[off + 11];
      var extension := [Masked(rawExt0), Masked(rawExt1), Masked(rawExt2)];
      var blockPointers := ParseBlockPointers(buf, off);
      e := DirEntry(buf[off], filename, extension, buf[off + 12], buf[off + 13], buf[off + 14], buf[off + 15],
                    blockPointers, rawExt0 >= 128, rawExt1 >= 128, rawExt2 >= 128);
    }

    method ParseBlockPointers(buf: seq<byte>, off: nat) returns (blockPointers: seq<word>)
      requires Valid() && off + 32 <= |buf|
      ensures blockPointers == ParsePointers(UsesLargePointers(params), buf[off..off + 32][16..])
    {
      blockPointers := [];
      if useLargePointers {
        for i := 0 to 8
          invariant |blockPointers| == i
          invariant forall j :: 0 <= j < i ==> blockPointers[j] == Word(buf[off + 16 + 2 * j], buf[off + 16 + 2 * j + 1])
        {
          blockPointers := blockPointers + [Word(buf[off + 16 + i * 2], buf[off + 16 + i * 2 + 1])];
        }
      } else {
        for i := 0 to 16
          invariant |blockPointers| == i
          invariant forall j :: 0 <= j < i ==> blockPointers[j] == buf[off + 16 + j]
        {
          blockPointers := blockPointers + [buf[off + 16 + i]];
        }
      }
    }

    method SerializeDirEntry(entry: DirEntry, buf: array<byte>, off: nat)
      requires Valid() && off + 32 <= buf.Length
      modifies buf
      ensures forall j :: 0 <= j < 32 ==> buf[off + j] == EncodeEntry(UsesLargePointers(params), entry)[j]
      ensures forall j :: 0 <= j < buf.Length && !(off <= j < off + 32) ==> buf[j] == old(buf[j])
    {
      buf[off] := entry.status;
      var fname := PadEnd(entry.filename, 8);
      for i := 0 to 8
        invariant buf[off] == entry.status
        invariant forall j :: 0 <= j < i ==> buf[off + 1 + j] == Masked(fname[j])
        invariant forall j :: 0 <= j < buf.Length && !(off <= j < off + 32) ==> buf[j] == old(buf[j])
      {
        buf[off + 1 + i] := Masked(fname[i]);
      }
      var ext := PadEnd(entry.extension, 3);
      buf[off + 9] := WithFlag(ext[0], entry.readonly);
      buf[off + 10] := WithFlag(ext[1], entry.system);
      buf[off + 11] := WithFlag(ext[2], entry.archive);
      buf[off + 12] := entry.extentLow;
      buf[off + 13] := entry.bc;
      buf[off + 14] := entry.extentHigh;
      buf[off + 15] := entry.rc;
      SerializePointers(entry.blockPointers, buf, off);
    }

    method SerializePointers(ptrs: seq<word>, buf: array<byte>, off: nat)
      requires Valid() && off + 32 <= buf.Length
      modifies buf
      ensures forall j :: 0 <= j < 16 ==> buf[off + 16 + j] == EncodePointers(UsesLargePointers(params), ptrs)[j]
      ensures forall j :: 0 <= j < buf.Length && !(off + 16 <= j < off + 32) ==> buf[j] == old(buf[j])
    {
      if useLargePointers {
        for i := 0 to 8
          invariant forall j :: 0 <= j < 2 * i ==>
                      buf[off + 16 + j] == if j % 2 == 0 then Lsb(PointerAt(ptrs, j / 2)) else Msb(PointerAt(ptrs, j / 2))
          invariant forall j :: 0 <= j < buf.Length && !(off + 16 <= j < off + 32) ==> buf[j] == old(buf[j])
        {
          buf[off + 16 + i * 2] := Lsb(PointerAt(ptrs, i));
          buf[off + 16 + i * 2 + 1] := Msb(PointerAt(ptrs, i));
        }
      } else {
        for i := 0 to 16
          invariant forall j :: 0 <= j < i ==> buf[off + 16 + j] == Lsb(PointerAt(ptrs, j))
          invariant forall j :: 0 <= j < buf.Length && !(off + 16 <= j < off + 32) ==> buf[j] == old(buf[j])
        {
          buf[off + 16 + i] := Lsb(PointerAt(ptrs, i));
        }
      }
    }

    method ReadDirectory() returns (entries: seq<DirEntry>)
      requires Valid()
      ensures entries == DirView(params, Store())
    {
      var dirBlocks := DirBlocks(params);
      ghost var dir := DirView(params, Store());
      entries := [];
      FirstSlotOfBlock(params, 0);
      for b := 0 to dirBlocks
        invariant |entries| == FirstSlot(params, b) && IsPart(entries, dir, 0)
      {
        var inBlock := ReadDirectoryBlock(b);
        PartsJoin(entries, inBlock, dir, 0);
        entries := entries + inBlock;
      }
    }

    method ReadDirectoryBlock(b: nat) returns (entries: seq<DirEntry>)
      requires Valid() && b < DirBlocks(params)
      ensures |entries| == FirstSlot(params, b + 1) - FirstSlot(params, b)
      ensures IsPart(entries, DirView(params, Store()), FirstSlot(params, b))
    {
      FirstSlotOfBlock(params, b);
      var entriesPerBlock, start := EntriesPerBlock(params), FirstSlot(params, b);
      var blockData := ReadBlock(b);
      var left := params.maxdir - start;
      var entriesInBlock := if entriesPerBlock <= left then entriesPerBlock else left;
      entries := [];
      ghost var s, dir := Store(), DirView(params, Store());
      for e := 0 to entriesInBlock
        invariant |entries| == e && IsPart(entries, dir, start)
      {
        EntryInBlock(params, s, b, e, start + e);
        var entry := ParseDirEntry(blockData.value, e * 32);
        PartGrows(entries, dir, start, entry);
        entries := entries + [entry];
      }
    }

    method WriteDirectory(entries: seq<DirEntry>)
      requires Valid()
      modifies imageData
      ensures Store() == StoreDir(params, old(Store()), entries)
      ensures Preserved(params, old(imageData[..]), imageData[..])
    {
      var entriesPerBlock, dirBlocks := EntriesPerBlock(params), DirBlocks(params);
      for b := 0 to dirBlocks
        invariant forall c :: 0 <= c < TotalBlocks(params) ==>
                    Store()[c] == if c < b then DirBlock(params, entries, c) else old(Store())[c]
        invariant Preserved(params, old(imageData[..]), imageData[..])
      {
        ghost var img := imageData[..];
        var blockData := FillDirBlock(entries, b);
        var written := WriteBlock(b, blockData);
        PreservedTrans(params, old(imageData[..]), img, imageData[..]);
      }
    }

    /** Directory block b as it is written: 0xE5 wherever there is no entry. */
    method FillDirBlock(entries: seq<DirEntry>, b: nat) returns (data: seq<byte>)
      requires Valid()
      ensures data == DirBlock(params, entries, b)
    {
      var entriesPerBlock := EntriesPerBlock(params);
      var blockData := new byte[params.blocksize](i => DELETED);
      var startEntry := b * entriesPerBlock;
      var entriesInBlock := if entriesPerBlock <= |entries| - startEntry then entriesPerBlock else |entries| - startEntry;
      var e := 0;
      while e < entriesInBlock
        invariant 0 <= e && (e <= entriesInBlock || e == 0)
        invariant FilledTo(params, entries, b, blockData[..], e)
      {
        FillSlot(entries, b, startEntry + e, blockData, e);
        e := e + 1;
      }
      FilledIsBlock(params, entries, b, blockData[..], entriesInBlock);
      return blockData[..];
    }

    method FillSlot(entries: seq<DirEntry>, ghost b: nat, slot: nat, blockData: array<byte>, e: nat)
      requires Valid() && FilledTo(params, entries, b, blockData[..], e)
      requires slot == b * EntriesPerBlock(params) + e && slot < |entries| && e * 32 + 32 <= blockData.Length
      modifies blockData
      ensures FilledTo(params, entries, b, blockData[..], e + 1)
    {
      ghost var before := blockData[..];
      SerializeDirEntry(entries[slot], blockData, e * 32);
      FilledNext(params, entries, b, before, blockData[..], e, EncodeEntry(useLargePointers, entries[slot]));
    }

    // ---- files -------------------------------------------------------------

    /** The live entries by file, each file's entries in slot order. */
    method GroupEntries(entries: seq<DirEntry>) returns (fileMap: map<Key, seq<DirEntry>>)
      ensures Grouped(fileMap, entries)
    {
      fileMap := map[];
      for i := 0 to |entries|
        invariant Grouped(fileMap, entries[..i])
      {
        var entry := entries[i];
        GroupedNext(fileMap, entries, i);
        if Live(entry) {
          var key := KeyOf(entry);
          if key !in fileMap {
            fileMap := fileMap[key := []];
          }
          fileMap := fileMap[key := fileMap[key] + [entry]];
        }
      }
      assert entries[..|entries|] == entries;
    }

    method FileSizeOf(extents: seq<DirEntry>) returns (size: nat)
      requires extents != []
      ensures size == SizeOf(params, extents)
    {
      var last := extents[|extents| - 1];
      var totalRecords := 0;
      for i := 0 to |extents| - 1
        invariant totalRecords == RecordsOf(params, extents[..i])
      {
        RecordsNext(params, extents, i);
        totalRecords := totalRecords + |Allocated(extents[i].blockPointers)| * SectorsPerBlock(params);
      }
      var subExtent := last.extentLow % 32 % ExtentsPerEntry(params);
      totalRecords := totalRecords + (subExtent * 128 + last.rc);
      size := totalRecords * 128;
      if last.bc > 0 && last.rc > 0 {
        size := size - 128 + last.bc;
      }
    }

    /** Every live file once, by user and name. */
    method ListFiles() returns (files: seq<CpmFile>)
      requires Valid()
      ensures Collates(collate) ==> InOrder(collate, files)
      ensures exists keys :: ListedSo(params, DirView(params, Store()), files, keys, {})
    {
      var entries := ReadDirectory();
      var fileMap := GroupEntries(entries);
      files := [];
      ghost var keys: seq<Key> := [];
      forall key
        ensures key in fileMap <==> key in LiveKeys(entries)
      {
        LiveKeysHaveExtents(entries, key);
      }
      var left := fileMap.Keys;
      while left != {}
        invariant left <= fileMap.Keys
        invariant ListedSo(params, entries, files, keys, left)
        decreases |left|
      {
        var key :| key in left;
        var file := DescribeFile(key, fileMap[key], entries);
        ListedNext(params, entries, files, keys, left, key, file);
        files := files + [file];
        keys := keys + [key];
        left := left - {key};
      }
      ghost var order;
      ghost var listed := files;
      files, order := SortFiles(files, keys);
      PairsListed(params, entries, listed, keys, files, order);
      ListedInAnyOrder(params, entries, listed, keys, {}, files, order);
      assert ListedSo(params, DirView(params, Store()), files, order, {});
    }

    /** By user and then by name; the keys are rearranged with the files. */
    method SortFiles(files: seq<CpmFile>, ghost keys: seq<Key>) returns (sorted: seq<CpmFile>, ghost order: seq<Key>)
      requires |files| == |keys|
      ensures PairsOf(files, keys, sorted, order) && multiset(order) == multiset(keys)
      ensures Collates(collate) ==> InOrder(collate, sorted)
    {
      sorted, order := [], [];
      for i := 0 to |files|
        invariant PairsOf(files, keys, sorted, order) && multiset(order) == multiset(keys[..i])
        invariant Collates(collate) ==> InOrder(collate, sorted)
      {
        var pos := PlaceOf(collate, sorted, files[i]);
        if Collates(collate) { InsertKeepsListingOrder(collate, sorted, files[i]); }
        SortNext(files, keys, sorted, order, i, pos);
        sorted, order := InsertAt(sorted, pos, files[i]), InsertAt(order, pos, keys[i]);
      }
      assert keys[..|files|] == keys;
    }

    method DescribeFile(key: Key, found: seq<DirEntry>, ghost dir: Dir) returns (file: CpmFile)
      requires key in LiveKeys(dir) && found == ExtentsOf(dir, key)
      ensures ExtentsOf(dir, key) != [] && file == Listed(params, dir, key)
    {
      LiveKeysHaveExtents(dir, key);
      var extents := SortExtents(found);
      var first := extents[0];
      SortedMembers(dir, key, first);
      assert Matches(first, key);
      var size := FileSizeOf(extents);
      file := CpmFile(first.status, TrimEnd(first.filename), TrimEnd(first.extension), size, extents,
                      first.readonly, first.system, first.archive);
    }

    /** The blocks of a file, concatenated in extent order; zero pointers are skipped. */
    method ReadExtents(extents: seq<DirEntry>) returns (r: Result<seq<byte>, Error>)
      requires Valid()
      ensures AllBelow(FilePointers(extents), TotalBlocks(params)) ==> r == Ok(ReadBlocks(Store(), FilePointers(extents)))
    {
      var fullData := [];
      ghost var s, inRange := Store(), AllBelow(FilePointers(extents), TotalBlocks(params));
      for k := 0 to |extents|
        invariant inRange ==> AllBelow(FilePointers(extents[..k]), |s|) && fullData == ReadBlocks(s, FilePointers(extents[..k]))
      {
        if inRange {
          ReadNextExtent(s, extents, k);
        }
        var part := ReadPointers(extents[k].blockPointers);
        if part.Err? {
          return part;
        }
        fullData := fullData + part.value;
      }
      assert extents[..|extents|] == extents;
      return Ok(fullData);
    }

    method ReadPointers(ptrs: seq<word>) returns (r: Result<seq<byte>, Error>)
      requires Valid()
      ensures AllBelow(Allocated(ptrs), TotalBlocks(params)) ==> r == Ok(ReadBlocks(Store(), Allocated(ptrs)))
    {
      var data := [];
      ghost var s, inRange := Store(), AllBelow(Allocated(ptrs), TotalBlocks(params));
      for x := 0 to |ptrs|
        invariant inRange ==> AllBelow(Allocated(ptrs[..x]), |s|) && data == ReadBlocks(s, Allocated(ptrs[..x]))
      {
        if inRange {
          ReadNextPointer(s, ptrs, x);
        }
        if ptrs[x] != 0 {
          var block := ReadBlock(ptrs[x]);
          if block.Err? {
            return block;
          }
          data := data + block.value;
        }
      }
      assert ptrs[..|ptrs|] == ptrs;
      return Ok(data);
    }

    /** The image holds a sound volume whose file names are printable. */
    ghost predicate Readable()
      requires Valid()
      reads imageData
    {
      ReadableStore(params, Store())
    }

    method ReadFile(filename: seq<byte>, ext: seq<byte>, user: byte) returns (r: Result<seq<byte>, Error>)
      requires Valid()
      ensures Readable() ==>
                r == match ContentOf(params, Store(), FileKey(filename, ext, user))
                     case Some(content) => Ok(content)
                     case None => Err(FileNotFound)
    {
      var file := FindFile(filename, ext, user);
      if file.None? {
        return Err(FileNotFound);
      }
      r := ReadListed(file.value);
    }

    method FindIndex(files: seq<CpmFile>, filename: seq<byte>, ext: seq<byte>, user: byte) returns (i: nat)
      ensures i <= |files| && (i < |files| ==> Asked(files[i], filename, ext, user))
      ensures forall j :: 0 <= j < i ==> !Asked(files[j], filename, ext, user)
    {
      i := 0;
      while i < |files| && !Asked(files[i], filename, ext, user)
        invariant 0 <= i <= |files|
        invariant forall j :: 0 <= j < i ==> !Asked(files[j], filename, ext, user)
      {
        i := i + 1;
      }
    }

    /** The first listed file with the user and the trimmed names asked for. */
    method FindFile(filename: seq<byte>, ext: seq<byte>, user: byte) returns (file: Option<CpmFile>)
      requires Valid()
      ensures Readable() ==> FoundBy(params, Store(), FileKey(filename, ext, user), file)
    {
      var files := ListFiles();
      ghost var keys :| ListedSo(params, DirView(params, Store()), files, keys, {});
      ghost var s := Store();
      var i := FindIndex(files, filename, ext, user);
      if ReadableStore(params, s) {
        LookupFinds(params, s, files, keys, i, filename, ext, user);
      }
      file := if i < |files| then Some(files[i]) else None;
    }

    method ReadListed(file: CpmFile) returns (r: Result<seq<byte>, Error>)
      requires Valid()
      ensures DataOf(params, Store(), file).Some? ==> r == Ok(DataOf(params, Store(), file).value)
    {
      var fullData := ReadExtents(file.extents);
      if fullData.Err? {
        return fullData;
      }
      return Ok(CutTo(fullData.value, file.size));
    }

    method DeleteFile(filename: seq<byte>, ext: seq<byte>, user: byte) returns (r: Result<(), Error>)
      requires Valid()
      modifies imageData
      ensures var (outcome, after) := DeleteOp(params, old(Store()), FileKey(filename, ext, user));
              && Store() == after
              && r == if outcome == Done then Ok(()) else Err(FileNotFound)
      ensures Preserved(params, old(imageData[..]), imageData[..])
    {
      var entries := ReadDirectory();
      var key := FileKey(filename, ext, user);
      var erased, found := MarkDeleted(entries, key);
      if !found {
        return Err(FileNotFound);
      }
      WriteDirectory(erased);
      return Ok(());
    }

    /** Marks every entry of the file, and tells whether there was one. */
    method MarkDeleted(dir: seq<DirEntry>, key: Key) returns (entries: seq<DirEntry>, found: bool)
      ensures entries == EraseFile(dir, key)
      ensures found <==> Named(dir, key)
    {
      entries, found := dir, false;
      for k := 0 to |dir|
        invariant |entries| == |dir|
        invariant forall j :: 0 <= j < |dir| ==> entries[j] == if j < k then Erased(dir[j], key) else dir[j]
        invariant found <==> exists j :: 0 <= j < k && KeyOf(dir[j]) == key
      {
        var entry := entries[k];
        if entry.status == key.user && entry.filename == key.filename && entry.extension == key.extension {
          entries := entries[k := entry.(status := DELETED)];
          found := true;
        }
      }
    }

    // ---- allocation --------------------------------------------------------

    method MarkEntry(entry: DirEntry, bitmap: array<bool>, first: Option<nat>) returns (firstUsed: Option<nat>)
      requires Live(entry)
      modifies bitmap
      ensures forall b :: 0 <= b < bitmap.Length ==> (bitmap[b] <==> old(bitmap[b]) || Holds(entry, bitmap.Length, b))
      ensures firstUsed.None? ==> first.None? && forall b: nat :: !Holds(entry, bitmap.Length, b)
      ensures firstUsed.Some? ==> first == firstUsed || Holds(entry, bitmap.Length, firstUsed.value)
      ensures firstUsed.Some? ==> forall b: nat :: Holds(entry, bitmap.Length, b) || first == Some(b) ==> firstUsed.value <= b
    {
      var ptrs := entry.blockPointers;
      firstUsed := first;
      for x := 0 to |ptrs|
        invariant forall b :: 0 <= b < bitmap.Length ==> (bitmap[b] <==> old(bitmap[b]) || b in Allocated(ptrs[..x]))
        invariant LowestOf(firstUsed, first, Allocated(ptrs[..x]), bitmap.Length)
      {
        AllocatedPrefix(ptrs, x);
        var bp := ptrs[x];
        ghost var before := firstUsed;
        if 0 < bp < bitmap.Length {
          bitmap[bp] := true;
          if firstUsed.None? || bp < firstUsed.value {
            firstUsed := Some(bp);
          }
        }
        LowestNext(before, first, Allocated(ptrs[..x]), bp as nat, bitmap.Length);
      }
      assert ptrs[..|ptrs|] == ptrs;
    }

    method BuildAllocationBitmap() returns (bitmap: array<bool>)
      requires Valid()
      ensures fresh(bitmap) && bitmap[..] == Bitmap(params, DirView(params, Store()))
    {
      var totalBlocks, dirBlocks := TotalBlocks(params), DirBlocks(params);
      bitmap := new bool[totalBlocks](i => false);
      for i := 0 to dirBlocks
        invariant forall b :: 0 <= b < totalBlocks ==> (bitmap[b] <==> b < i)
      {
        bitmap[i] := true;
      }
      var entries := ReadDirectory();
      var firstUsed := MarkUsed(entries, bitmap);
      if firstUsed.Some? {
        for i := dirBlocks to if firstUsed.value > dirBlocks then firstUsed.value else dirBlocks
          invariant forall b :: 0 <= b < totalBlocks ==>
                      (bitmap[b] <==> b < dirBlocks || Marked(totalBlocks, entries, b) || dirBlocks <= b < i)
        {
          bitmap[i] := true;
        }
      }
      forall b: nat | b < totalBlocks
        ensures bitmap[b] <==> Reserved(params, entries, b)
      {
        GapIsBelowFirst(firstUsed, totalBlocks, entries, b);
      }
    }

    /** Sets the bit of every block a live entry names, and finds the lowest of them. */
    method MarkUsed(entries: seq<DirEntry>, bitmap: array<bool>) returns (firstUsed: Option<nat>)
      modifies bitmap
      ensures forall b :: 0 <= b < bitmap.Length ==> (bitmap[b] <==> old(bitmap[b]) || Marked(bitmap.Length, entries, b))
      ensures IsFirstUsed(firstUsed, bitmap.Length, entries)
    {
      var total := bitmap.Length;
      firstUsed := None;
      for i := 0 to |entries|
        invariant forall b :: 0 <= b < total ==> (bitmap[b] <==> old(bitmap[b]) || Marked(total, entries[..i], b))
        invariant IsFirstUsed(firstUsed, total, entries[..i])
      {
        forall b: nat {
          MarkedNext(total, entries, i, b);
        }
        if Live(entries[i]) {
          firstUsed := MarkEntry(entries[i], bitmap, firstUsed);
        }
      }
      assert entries[..|entries|] == entries;
    }

    method AllocateBlocks(count: nat) returns (r: Result<seq<nat>, Error>)
      requires Valid()
      ensures var alloc := FirstFree(Bitmap(params, DirView(params, Store())), count);
              r == if |alloc| < count then Err(NoSpace) else Ok(alloc)
    {
      var bitmap := BuildAllocationBitmap();
      var taken: seq<nat> := [];
      var i := 0;
      while i < bitmap.Length && |taken| < count
        invariant 0 <= i <= bitmap.Length
        invariant taken == FirstFree(bitmap[..i], count)
      {
        assert bitmap[..i + 1][..i] == bitmap[..i];
        if !bitmap[i] {
          taken := taken + [i];
        }
        i := i + 1;
      }
      FirstFreeStops(bitmap[..], i, count);
      assert bitmap[..][..i] == bitmap[..i];
      if |taken| < count {
        return Err(NoSpace);
      }
      return Ok(taken);
    }

    method GetFreeSpace() returns (space: FreeSpace)
      requires Valid()
      ensures space.freeBlocks == CountFree(Bitmap(params, DirView(params, Store())))
      ensures space.totalBlocks == TotalBlocks(params) == space.freeBlocks + space.usedBlocks
      ensures space.freeBytes + space.usedBytes == space.totalBytes == TotalBlocks(params) * params.blocksize
      ensures space.freeBytes == space.freeBlocks * params.blocksize
      ensures space.directoryEntriesFree == params.maxdir - CountLive(DirView(params, Store()))
      ensures space.directoryEntriesTotal == params.maxdir
    {
      var bitmap := BuildAllocationBitmap();
      var usedBlocks := CountUsed(bitmap);
      var freeBlocks := bitmap.Length - usedBlocks;
      var usedDirEntries := CountLiveEntries();
      space := SpaceOf(freeBlocks, usedBlocks, params.blocksize, usedDirEntries, params.maxdir);
    }

    static method CountUsed(bitmap: array<bool>) returns (used: nat)
      ensures used + CountFree(bitmap[..]) == bitmap.Length
    {
      used := 0;
      for i := 0 to bitmap.Length
        invariant used + CountFree(bitmap[..i]) == i
      {
        assert bitmap[..i + 1][..i] == bitmap[..i];
        if bitmap[i] {
          used := used + 1;
        }
      }
      assert bitmap[..bitmap.Length] == bitmap[..];
    }

    method CountLiveEntries() returns (live: nat)
      requires Valid()
      ensures live == CountLive(DirView(params, Store())) <= params.maxdir
    {
      var entries := ReadDirectory();
      live := 0;
      for i := 0 to |entries|
        invariant live == CountLive(entries[..i]) <= i
      {
        assert entries[..i + 1][..i] == entries[..i];
        if Live(entries[i]) {
          live := live + 1;
        }
      }
      assert entries[..|entries|] == entries;
    }

    // ---- writing -----------------------------------------------------------

    /** Block i of a file as it goes to the disk. */
    method FillBlock(data: seq<byte>, i: nat) returns (blockData: seq<byte>)
      requires Valid() && i < BlocksNeeded(params, data)
      ensures 0 <= i * params.blocksize < |data| && blockData == Chunk(params, data, i)
    {
      ChunkStart(params, data, i);
      var srcOff, blocksNeeded := i * params.blocksize, BlocksNeeded(params, data);
      var bytesInLastRecord := |data| % params.seclen;
      var copyLen := if params.blocksize <= |data| - srcOff then params.blocksize else |data| - srcOff;
      var buf := new byte[params.blocksize](j => 0);
      forall j | 0 <= j < copyLen {
        buf[j] := data[srcOff + j];
      }
      FillBlockCases(data, i);
      if i == blocksNeeded - 1 && bytesInLastRecord != 0 {
        var recordEnd := copyLen + (params.seclen - bytesInLastRecord);
        forall j | copyLen <= j < recordEnd {
          buf[j] := EOF_MARK;
        }
      }
      return buf[..];
    }

    /** Only the last block of a file that ends inside a record is completed with padding. */
    lemma FillBlockCases(data: seq<byte>, i: nat)
      requires Valid() && i < BlocksNeeded(params, data) && 0 <= i * params.blocksize < |data|
      ensures i < BlocksNeeded(params, data) - 1 ==> |data| - i * params.blocksize >= params.blocksize
      ensures i == BlocksNeeded(params, data) - 1 ==>
                |data| - i * params.blocksize <= params.blocksize
                && |data| - i * params.blocksize + PadLength(|data|) <= params.blocksize
    {
      var size, n := params.blocksize, BlocksNeeded(params, data);
      CeilDivBounds(|data|, size);
      assert (i + 1) * size == i * size + size;
      if i < n - 1 {
        MultiplesApart(size, i + 1, n);
        assert n * size < |data| + size;
      } else if |data| == i * size + size {
        WholeBlocksNeedNoPadding(n, params, data);
      } else {
        PadFits(params, i, |data|);
      }
    }

    method WriteData(data: seq<byte>, alloc: seq<nat>)
      requires Valid() && |alloc| == BlocksNeeded(params, data)
      requires forall i :: 0 <= i < |alloc| ==> alloc[i] < TotalBlocks(params)
      modifies imageData
      ensures Store() == PutBlocks(old(Store()), alloc, Chunks(params, data, |alloc|))
      ensures Preserved(params, old(imageData[..]), imageData[..])
    {
      ghost var before := Store();
      for i := 0 to |alloc|
        invariant Store() == PutBlocks(before, alloc[..i], Chunks(params, data, i))
        invariant Preserved(params, old(imageData[..]), imageData[..])
      {
        ghost var img := imageData[..];
        var blockData := FillBlock(data, i);
        var written := WriteBlock(alloc[i], blockData);
        PreservedTrans(params, old(imageData[..]), img, imageData[..]);
        assert alloc[..i + 1][..i] == alloc[..i];
        assert Chunks(params, data, i + 1)[..i] == Chunks(params, data, i);
      }
      assert alloc[..|alloc|] == alloc;
    }

    /** Record count of entry number d of a new file. */
    method EntryRecordCount(data: seq<byte>, d: nat) returns (rc: byte)
      requires Valid() && d < EntriesNeeded(params, data)
      ensures rc == RecordCount(params, data, d)
    {
      var recordsPerEntry := BLOCKS_PER_ENTRY * SectorsPerBlock(params);
      if d == EntriesNeeded(params, data) - 1 {
        var bytesInPrevEntries := d * BLOCKS_PER_ENTRY * params.blocksize;
        EntryStartsInData(params, data, d);
        RemainingRecords(params, data, d);
        var remainingBytes := |data| - bytesInPrevEntries;
        var records := CeilDiv(remainingBytes, params.seclen);
        if records > 128 {
          records := if records % 128 != 0 then records % 128 else 128;
        }
        rc := records;
      } else {
        rc := if recordsPerEntry > 128 then 128 else recordsPerEntry;
      }
    }

    /** The directory entry number d of a new file. */
    method MakeEntry(key: Key, data: seq<byte>, alloc: seq<word>, d: nat) returns (e: DirEntry)
      requires Valid() && |alloc| == BlocksNeeded(params, data) && d < EntriesNeeded(params, data)
      ensures e == EntryOf(params, key, data, alloc, d)
    {
      EntryStart(params, data, d);
      var extentBlocks := BlocksOfEntry(alloc, d);
      var rc := EntryRecordCount(data, d);
      var logicalExtent := d * ExtentsPerEntry(params);
      e := NewEntry(params, key, logicalExtent, rc, extentBlocks);
    }

    /** Enters the file's extents in free slots; None when the slots run out. */
    method AddExtents(dir: seq<DirEntry>, key: Key, data: seq<byte>, alloc: seq<word>) returns (r: Option<seq<DirEntry>>)
      requires Valid() && |alloc| == BlocksNeeded(params, data)
      ensures r == Place(dir, NewEntries(params, key, data, alloc, EntriesNeeded(params, data)))
    {
      var dirEntryCount := EntriesNeeded(params, data);
      ghost var all := NewEntries(params, key, data, alloc, dirEntryCount);
      var entries := dir;
      for d := 0 to dirEntryCount
        invariant Place(dir, all[..d]) == Some(entries)
      {
        PlaceNext(dir, all, d, entries);
        var freeSlot := FindDeleted(entries, 0);
        if freeSlot.None? {
          PlacePrefixFails(dir, all, d + 1);
          return None;
        }
        var entry := MakeEntry(key, data, alloc, d);
        entries := entries[freeSlot.value := entry];
      }
      assert all[..dirEntryCount] == all;
      return Some(entries);
    }

    method WriteFile(filename: seq<byte>, ext: seq<byte>, data: seq<byte>, user: byte) returns (r: Result<(), Error>)
      requires Valid() && Printable(filename) && Printable(ext)
      modifies imageData
      ensures var (outcome, after) := WriteOp(params, old(Store()), WriteKey(filename, ext, user), data);
              Store() == after && r == ResultOf(outcome)
      ensures Preserved(params, old(imageData[..]), imageData[..])
    {
      var (normName, normExt) := WriteName(filename, ext);
      var key := WriteKey(filename, ext, user);
      WriteKeyIsFileKey(filename, ext, user);
      var ignored := DeleteFile(normName, normExt, user);
      ghost var img := imageData[..];
      r := WriteCleared(key, data);
      PreservedTrans(params, old(imageData[..]), img, imageData[..]);
    }

    /** The rest of a write, once any file of the same name is gone. */
    method WriteCleared(key: Key, data: seq<byte>) returns (r: Result<(), Error>)
      requires Valid()
      modifies imageData
      ensures var (outcome, after) := WriteRest(params, old(Store()), key, data);
              Store() == after && r == ResultOf(outcome)
      ensures Preserved(params, old(imageData[..]), imageData[..])
    {
      if BlocksNeeded(params, data) == 0 {
        r := WriteEmpty(key, data);
        return;
      }
      r := WriteBlocks(key, data);
    }

    method WriteEmpty(key: Key, data: seq<byte>) returns (r: Result<(), Error>)
      requires Valid() && BlocksNeeded(params, data) == 0
      modifies imageData
      ensures var (outcome, after) := WriteRest(params, old(Store()), key, data);
              Store() == after && r == ResultOf(outcome)
      ensures Preserved(params, old(imageData[..]), imageData[..])
    {
      CeilDivBounds(|data|, params.blocksize);
      var entries := ReadDirectory();
      var freeSlot := FindDeleted(entries, 0);
      ghost var e := NewEntry(params, key, 0, 0, []);
      assert [e][..0] == [] && FileEntries(params, key, data, []) == [e];
      assert Place(entries, []) == Some(entries);
      if freeSlot.None? {
        return Err(NoDirectorySlot);
      }
      WriteDirectory(entries[freeSlot.value := NewEntry(params, key, 0, 0, [])]);
      return Ok(());
    }

    method WriteBlocks(key: Key, data: seq<byte>) returns (r: Result<(), Error>)
      requires Valid() && BlocksNeeded(params, data) > 0
      modifies imageData
      ensures var (outcome, after) := WriteRest(params, old(Store()), key, data);
              Store() == after && r == ResultOf(outcome)
      ensures Preserved(params, old(imageData[..]), imageData[..])
    {
      var alloc := AllocateBlocks(BlocksNeeded(params, data));
      if alloc.Err? {
        return Err(alloc.error);
      }
      r := WriteAllocated(key, data, alloc.value);
    }

    /** Fills the blocks and enters the file. */
    method WriteAllocated(key: Key, data: seq<byte>, alloc: seq<word>) returns (r: Result<(), Error>)
      requires Valid() && BlocksNeeded(params, data) > 0 && |alloc| == BlocksNeeded(params, data)
      requires alloc == AllocationFor(params, DirView(params, Store()), data)
      modifies imageData
      ensures var (outcome, after) := WriteRest(params, old(Store()), key, data);
              Store() == after && r == ResultOf(outcome)
      ensures Preserved(params, old(imageData[..]), imageData[..])
    {
      ghost var s := Store();
      WriteData(data, alloc);
      WriteRestWithSpace(params, s, key, data, alloc, Store());
      ghost var img := imageData[..];
      r := EnterFile(key, data, alloc);
      PreservedTrans(params, old(imageData[..]), img, imageData[..]);
    }

    /** Enters a file whose blocks are written in the directory. */
    method EnterFile(key: Key, data: seq<byte>, alloc: seq<word>) returns (r: Result<(), Error>)
      requires Valid() && BlocksNeeded(params, data) > 0 && |alloc| == BlocksNeeded(params, data)
      modifies imageData
      ensures match Place(DirView(params, old(Store())), FileEntries(params, key, data, alloc))
              case None => Store() == old(Store()) && r == Err(NoDirectorySlot)
              case Some(d) => Store() == StoreDir(params, old(Store()), d) && r == Ok(())
      ensures Preserved(params, old(imageData[..]), imageData[..])
    {
      var entries := ReadDirectory();
      var placed := AddExtents(entries, key, data, alloc);
      if placed.None? {
        return Err(NoDirectorySlot);
      }
      WriteDirectory(placed.value);
      return Ok(());
    }

    // ---- formatting --------------------------------------------------------

    /** 0xE5 throughout the record, then its track byte. */
    static method FillSector(image: array<byte>, base: nat, track: nat)
      requires base + 137 <= image.Length
      modifies image
      ensures image[base] == TrackByte(track)
      ensures forall j :: base < j < base + 137 ==> image[j] == FORMAT_FILL
      ensures forall j :: 0 <= j < image.Length && !(base <= j < base + 137) ==> image[j] == old(image[j])
    {
      forall j | 0 <= j < 137 {
        image[base + j] := FORMAT_FILL;
      }
      image[base] := TrackByte(track);
    }

    static method FormatBootSector(p: DiskParams, image: array<byte>, k: nat)
      requires k * 137 + 137 <= image.Length && k / 32 < SystemTracks(p)
      modifies image
      ensures forall j :: 0 <= j < 137 ==> image[k * 137 + j] == FormatRecord(p, k)[j]
      ensures forall j :: 0 <= j < image.Length && !(k * 137 <= j < k * 137 + 137) ==> image[j] == old(image[j])
    {
      var base := k * 137;
      FillSector(image, base, k / 32);
      image[base + 1] := 0;
      image[base + 2] := 1;
      image[base + BOOT_STOP_OFFSET] := 255;
      image[base + 133] := 0;
      image[base + 134] := 0;
      image[base + 135] := 0;
      image[base + 136] := 0;
      image[base + BOOT_CSUM_OFFSET] := 0xE5 * 128 % 256;
      FormatRecordBytes(p, k);
    }

    static method FormatDataSector(p: DiskParams, image: array<byte>, k: nat)
      requires k * 137 + 137 <= image.Length && k / 32 >= SystemTracks(p)
      modifies image
      ensures forall j :: 0 <= j < 137 ==> image[k * 137 + j] == FormatRecord(p, k)[j]
      ensures forall j :: 0 <= j < image.Length && !(k * 137 <= j < k * 137 + 137) ==> image[j] == old(image[j])
    {
      var base := k * 137;
      FillSector(image, base, k / 32);
      image[base + DATA_SECT_OFFSET] := SectorId(k % 32);
      image[base + 2] := 1;
      image[base + DATA_STOP_OFFSET] := 255;
      image[base + DATA_END_OFFSET] := 0;
      var total: int := 0xE5 * 128 % 256;
      total := total + image[base + 2] + image[base + 3];
      total := total + image[base + 5] + image[base + 6];
      image[base + DATA_CSUM_OFFSET] := total % 256;
      FormatRecordBytes(p, k);
    }

    static method FormatSector(p: DiskParams, image: array<byte>, k: nat)
      requires k * 137 + 137 <= image.Length
      modifies image
      ensures Record(image[..], k) == FormatRecord(p, k)
      ensures forall j :: 0 <= j < image.Length && !(k * 137 <= j < k * 137 + 137) ==> image[j] == old(image[j])
    {
      if k / 32 < SystemTracks(p) {
        FormatBootSector(p, image, k);
      } else {
        FormatDataSector(p, image, k);
      }
    }

    static method FormatImage(p: DiskParams) returns (image: array<byte>)
      ensures fresh(image) && image.Length == p.tracks * TRACK_SIZE
      ensures Formatted(p, image[..])
    {
      image := new byte[p.tracks * TRACK_SIZE](i => 0);
      for track := 0 to p.tracks
        invariant forall k: nat :: k < track * 32 ==> Record(image[..], k) == FormatRecord(p, k)
      {
        for phys := 0 to 32
          invariant forall k: nat :: k < track * 32 + phys ==> Record(image[..], k) == FormatRecord(p, k)
        {
          ghost var before := image[..];
          FormatSector(p, image, track * 32 + phys);
          forall k: nat | k < track * 32 + phys
            ensures Record(image[..], k) == Record(before, k)
          {
            assert k * 137 + 137 <= (track * 32 + phys) * 137;
          }
        }
      }
    }
  }
}
