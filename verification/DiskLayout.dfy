/** Where everything lies on a disk image: each byte by its literal place. */
module DiskLayout {
  import opened Bytes
  import opened DiskGeometry
  import opened SectorFraming
  import opened BlockStore
  import opened Directory
  import opened FileLayout

  // ---- the disk formats ----------------------------------------------------

  /** The tracks in the boot framing: the first six of an 8-inch disk, all of the others. */
  lemma SystemTracksOfFormats()
    ensures SystemTracks(PARAMS_8INCH) == 6 && SystemTracks(PARAMS_MINIDISK) == 17 && SystemTracks(PARAMS_8MB) == 2048
    ensures !UsesLargePointers(PARAMS_8INCH) && !UsesLargePointers(PARAMS_MINIDISK) && UsesLargePointers(PARAMS_8MB)
  {
    EightInchIsValid();
    MinidiskIsValid();
    EightMegabyteIsValid();
  }

  /** A block number takes two bytes as soon as there are 256 blocks. */
  lemma PointerWidth(p: DiskParams)
    requires ValidParams(p)
    ensures UsesLargePointers(p) <==> (p.tracks - p.boottrk) * 4096 >= 256 * p.blocksize
  {
    DivModSplit((p.tracks - p.boottrk) * 4096, p.blocksize);
    MultiplesApart(p.blocksize, TotalBlocks(p), 256);
    MultiplesApart(p.blocksize, 255, TotalBlocks(p));
  }

  // ---- bytes of the blocks -------------------------------------------------

  /** Where the data of a CP/M sector starts in the image, by the interleave table. */
  function DataStart(p: DiskParams, track: nat, logical: nat): int
    requires logical < 32
  {
    var system := match p.systemTracks case Some(n) => n case None => p.tracks;
    var sector := MITS_BASE_SKEW[logical] - 1;
    if track < system then track * 4384 + sector * 137 + 3 else track * 4384 + sector * 17 % 32 * 137 + 7
  }

  lemma RecordStart(p: DiskParams, track: nat, logical: nat)
    requires logical < 32
    ensures DataStart(p, track, logical) == RecordOf(p, track, logical) * 137 + DataOffset(p, track)
  {
    SkewTable(logical);
    DataSkewTable(logical);
  }

  lemma SectorByte(p: DiskParams, img: Image, n: nat, i: nat)
    requires ValidParams(p) && Fits(p, img) && n < SectorCount(p) && i < 128
    ensures var at := DataStart(p, p.boottrk + n / 32, n % 32) + i;
            0 <= at < |img| && SectorView(p, img)[n][i] == img[at]
  {
    SectorInView(p, img, n);
    RecordIndexFits(p, n);
    RecordStart(p, p.boottrk + n / 32, n % 32);
    RecordOfTrack(p, p.boottrk + n / 32, n % 32);
    ByteOfPayload(p, img, RecordIndex(p, n), i);
  }

  lemma ByteOfPayload(p: DiskParams, img: Image, k: nat, i: nat)
    requires k * 137 + 137 <= |img| && i < 128
    ensures Payload(p, k, Record(img, k))[i] == img[k * 137 + DataOffset(p, k / 32) + i]
  {
    var off := DataOffset(p, k / 32);
    assert Payload(p, k, Record(img, k))[i] == Record(img, k)[off + i];
  }

  lemma ByteOfBlock(p: DiskParams, sectors: Sectors, b: nat, j: nat, n: nat)
    requires ValidParams(p) && |sectors| == SectorCount(p) && (forall n :: 0 <= n < |sectors| ==> |sectors[n]| == 128)
    requires b < TotalBlocks(p) && j < p.blocksize && n == b * SectorsPerBlock(p) + j / 128
    ensures n < SectorCount(p) && BlockView(p, sectors)[b][j] == sectors[n][j % 128]
  {
    BlockFits(p, b);
    BlockInView(p, sectors, b);
    assert BlockAt(p, sectors, b)[j] == sectors[n][j % 128];
  }

  /** Byte j of block b, counted through the sectors of the tracks behind the boot tracks. */
  lemma BlockByte(p: DiskParams, img: Image, b: nat, j: nat, n: nat)
    requires ValidParams(p) && Fits(p, img) && b < TotalBlocks(p) && j < p.blocksize
    requires n == b * (p.blocksize / 128) + j / 128
    ensures var at := DataStart(p, p.boottrk + n / 32, n % 32) + j % 128;
            0 <= at < |img| && BlockView(p, SectorView(p, img))[b][j] == img[at]
  {
    ByteOfBlock(p, SectorView(p, img), b, j, n);
    SectorByte(p, img, n, j % 128);
  }

  // ---- the directory -------------------------------------------------------

  lemma SlotPlace(p: DiskParams, k: nat, b: nat, e: nat)
    requires ValidParams(p) && e < p.blocksize / 32 && k == b * (p.blocksize / 32) + e
    ensures SlotBlock(p, k) == b && SlotOffset(p, k) == e
  {
    DivModUnique(k, EntriesPerBlock(p), b, e);
  }

  /** Entry k lies 32 * k bytes into the directory, its blocks taken in order. */
  lemma EntryPlace(p: DiskParams, s: Blocks, k: nat, b: nat, e: nat)
    requires ValidParams(p) && IsStore(p, s) && k < p.maxdir && e < p.blocksize / 32 && k == b * (p.blocksize / 32) + e
    ensures b < |s| && DirView(p, s)[k] == ParseEntry(UsesLargePointers(p), s[b][e * 32..e * 32 + 32])
  {
    SlotInDirectory(p, k);
    SlotPlace(p, k, b, e);
    EntryInView(p, s, k);
  }

  /** Writing the directory leaves 0xE5 in the room behind its last entry. */
  lemma RoomBehindEntries(p: DiskParams, s: Blocks, dir: Dir, b: nat, j: nat)
    requires ValidParams(p) && IsStore(p, s) && b < DirBlocks(p) && j < p.blocksize
    requires b * (p.blocksize / 32) + j / 32 >= |dir|
    ensures StoreDir(p, s, dir)[b][j] == 229
  {
  }

  // ---- a formatted disk ----------------------------------------------------

  /** Every byte of a formatted record; the sums are those of the fill bytes around them. */
  lemma FormattedRecord(p: DiskParams, k: nat)
    requires k / 32 < 2048
    ensures var r := FormatRecord(p, k);
            && r[0] as int == 128 + k / 32 % 128
            && if k / 32 < SystemTracks(p) then
                 r == [r[0], 0, 1] + Repeat(0xE5, 128) + [255, 128, 0, 0, 0, 0]
               else
                 && r[1] < 32 && (r[1] as int) * 17 % 32 == k % 32
                 && r == [r[0], r[1], 1, 0xE5, 48, 0xE5, 0xE5] + Repeat(0xE5, 128) + [255, 0]
  {
    SectorFromId(k % 32);
  }

  // ---- a file in its blocks ------------------------------------------------

  /** Block i of a file: its bytes, 26 to the end of the last record, zeros to the end of the block. */
  lemma ChunkByte(p: DiskParams, data: seq<byte>, i: nat, j: nat)
    requires ValidParams(p) && i < BlocksNeeded(p, data) && j < p.blocksize
    ensures 0 <= i * p.blocksize <= |data| && i < |Chunks(p, data, BlocksNeeded(p, data))|
    ensures var at := i * p.blocksize + j;
            Chunks(p, data, BlocksNeeded(p, data))[i][j]
            == if at < |data| then data[at] else if at < (|data| + 127) / 128 * 128 then 26 else 0
  {
    ChunkStart(p, data, i);
    ChunkOfChunks(p, data, BlocksNeeded(p, data), i);
    var start, rest := i * p.blocksize, data[i * p.blocksize..];
    if |rest| < p.blocksize {
      PadFits(p, i, |data|);
      RecordsEnd(|data|);
    }
  }

  lemma RecordsEnd(n: nat)
    ensures n + PadLength(n) == (n + 127) / 128 * 128
  {
  }

  lemma {:induction false} ChunkOfChunks(p: DiskParams, data: seq<byte>, n: nat, i: nat)
    requires ValidParams(p) && i < n <= BlocksNeeded(p, data)
    ensures 0 <= i * p.blocksize <= |data| && Chunks(p, data, n)[i] == Chunk(p, data, i)
  {
    ChunkStart(p, data, i);
    if i < n - 1 { ChunkOfChunks(p, data, n - 1, i); }
  }
}
