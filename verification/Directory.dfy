/** The packed directory: 32-byte entries in the first blocks of the data area. */
module Directory {
  import opened Bytes
  import opened DiskGeometry
  import opened BlockStore

  const DELETED: byte := 0xE5
  const SPACE: byte := 0x20

  /** One directory entry; names hold seven-bit character codes. */
  datatype DirEntry = DirEntry(
    status: byte,
    filename: seq<byte>,
    extension: seq<byte>,
    extentLow: byte,
    bc: byte,
    extentHigh: byte,
    rc: byte,
    blockPointers: seq<word>,
    readonly: bool,
    system: bool,
    archive: bool)

  function PointerCount(large: bool): nat {
    if large then 8 else 16
  }

  /** `name.padEnd(n, ' ')`. */
  function PadEnd(name: seq<byte>, n: nat): (r: seq<byte>)
    ensures |r| >= n
    ensures |name| >= n ==> r == name
    ensures |name| <= n ==> |r| == n
  {
    if |name| >= n then name else name + Repeat(SPACE, n - |name|)
  }

  predicate SevenBit(name: seq<byte>) {
    forall i :: 0 <= i < |name| ==> name[i] < 128
  }

  /** The shape parsing yields: padded seven-bit names and exactly as many pointers as fit the width. */
  predicate WellFormedEntry(large: bool, e: DirEntry) {
    && |e.filename| == 8 && SevenBit(e.filename)
    && |e.extension| == 3 && SevenBit(e.extension)
    && |e.blockPointers| == PointerCount(large)
    && (!large ==> forall i :: 0 <= i < |e.blockPointers| ==> e.blockPointers[i] < 256)
  }

  // ---- one entry -----------------------------------------------------------

  function Masked(b: byte): byte {
    b % 128
  }

  function WithFlag(b: byte, flag: bool): byte {
    b % 128 + if flag then 128 else 0
  }

  function ParsePointers(large: bool, raw: seq<byte>): (ptrs: seq<word>)
    requires |raw| == 16
    ensures |ptrs| == PointerCount(large)
  {
    if large
    then seq(8, i requires 0 <= i < 8 => Word(raw[2 * i], raw[2 * i + 1]))
    else seq(16, i requires 0 <= i < 16 => raw[i])
  }

  function ParseEntry(large: bool, raw: seq<byte>): (e: DirEntry)
    requires |raw| == 32
    ensures WellFormedEntry(large, e)
  {
    DirEntry(
      raw[0],
      seq(8, i requires 0 <= i < 8 => Masked(raw[1 + i])),
      [Masked(raw[9]), Masked(raw[10]), Masked(raw[11])],
      raw[12], raw[13], raw[14], raw[15],
      ParsePointers(large, raw[16..]),
      raw[9] >= 128, raw[10] >= 128, raw[11] >= 128)
  }

  function PointerAt(ptrs: seq<word>, i: nat): word {
    if i < |ptrs| then ptrs[i] else 0
  }

  function EncodePointers(large: bool, ptrs: seq<word>): (raw: seq<byte>)
    ensures |raw| == 16
  {
    if large
    then seq(16, j requires 0 <= j < 16 =>
           if j % 2 == 0 then Lsb(PointerAt(ptrs, j / 2)) else Msb(PointerAt(ptrs, j / 2)))
    else seq(16, j requires 0 <= j < 16 => Lsb(PointerAt(ptrs, j)))
  }

  function EncodedByte(large: bool, e: DirEntry, i: nat): byte
    requires i < 32
  {
    if i == 0 then e.status
    else if i < 9 then Masked(PadEnd(e.filename, 8)[i - 1])
    else if i == 9 then WithFlag(PadEnd(e.extension, 3)[0], e.readonly)
    else if i == 10 then WithFlag(PadEnd(e.extension, 3)[1], e.system)
    else if i == 11 then WithFlag(PadEnd(e.extension, 3)[2], e.archive)
    else if i == 12 then e.extentLow
    else if i == 13 then e.bc
    else if i == 14 then e.extentHigh
    else if i == 15 then e.rc
    else EncodePointers(large, e.blockPointers)[i - 16]
  }

  function EncodeEntry(large: bool, e: DirEntry): (raw: seq<byte>)
    ensures |raw| == 32
  {
    seq(32, i requires 0 <= i < 32 => EncodedByte(large, e, i))
  }

  /** The two bytes of pointer i, and where they lie. */
  lemma PointerBytes(ptrs: seq<word>, i: nat)
    requires i < 8
    ensures EncodePointers(true, ptrs)[2 * i] == Lsb(PointerAt(ptrs, i))
    ensures EncodePointers(true, ptrs)[2 * i + 1] == Msb(PointerAt(ptrs, i))
  {
    HalfOf(i, 0);
    HalfOf(i, 1);
  }

  lemma HalfOf(i: nat, r: nat)
    requires r < 2
    ensures (2 * i + r) / 2 == i && (2 * i + r) % 2 == r
  {
  }

  lemma ParseEncodePointers(large: bool, ptrs: seq<word>)
    requires |ptrs| == PointerCount(large)
    requires !large ==> forall i :: 0 <= i < |ptrs| ==> ptrs[i] < 256
    ensures ParsePointers(large, EncodePointers(large, ptrs)) == ptrs
  {
    forall i | 0 <= i < |ptrs|
      ensures ParsePointers(large, EncodePointers(large, ptrs))[i] == ptrs[i]
    {
      if large {
        PointerBytes(ptrs, i);
        WordHalves(ptrs[i]);
      }
    }
  }

  lemma FlagRoundTrip(b: byte, flag: bool)
    requires b < 128
    ensures Masked(WithFlag(b, flag)) == b && (WithFlag(b, flag) >= 128 <==> flag)
  {
  }

  lemma FlagOfByte(b: byte)
    ensures WithFlag(Masked(b), b >= 128) == b
  {
  }

  /** Parsing a serialised well-formed entry gives the entry back. */
  lemma ParseEncode(large: bool, e: DirEntry)
    requires WellFormedEntry(large, e)
    ensures ParseEntry(large, EncodeEntry(large, e)) == e
  {
    var raw := EncodeEntry(large, e);
    assert raw[16..] == EncodePointers(large, e.blockPointers);
    ParseEncodePointers(large, e.blockPointers);
    assert PadEnd(e.filename, 8) == e.filename && PadEnd(e.extension, 3) == e.extension;
    forall i | 0 <= i < 8
      ensures Masked(raw[1 + i]) == e.filename[i]
    {
      assert raw[1 + i] == Masked(e.filename[i]);
    }
    FlagRoundTrip(e.extension[0], e.readonly);
    FlagRoundTrip(e.extension[1], e.system);
    FlagRoundTrip(e.extension[2], e.archive);
    assert ParseEntry(large, raw).filename == e.filename;
    assert ParseEntry(large, raw).extension == e.extension;
  }

  lemma EncodeParsePointers(large: bool, raw: seq<byte>)
    requires |raw| == 16
    ensures EncodePointers(large, ParsePointers(large, raw)) == raw
  {
    var ptrs := ParsePointers(large, raw);
    forall j | 0 <= j < 16
      ensures EncodePointers(large, ptrs)[j] == raw[j]
    {
      if large {
        var i := j / 2;
        PointerBytes(ptrs, i);
        assert PointerAt(ptrs, i) == Word(raw[2 * i], raw[2 * i + 1]);
        assert j == 2 * i || j == 2 * i + 1;
      }
    }
  }

  /** The entry's bytes with the high bits of the eight filename bytes cleared. */
  function ClearNameBits(raw: seq<byte>): (r: seq<byte>)
    requires |raw| == 32
    ensures |r| == 32
  {
    seq(32, i requires 0 <= i < 32 => if 1 <= i < 9 then raw[i] % 128 else raw[i])
  }

  /** Serialising a parsed entry reproduces its bytes but for the filename high bits. */
  lemma EncodeParse(large: bool, raw: seq<byte>)
    requires |raw| == 32
    ensures EncodeEntry(large, ParseEntry(large, raw)) == ClearNameBits(raw)
  {
    var e := ParseEntry(large, raw);
    forall i | 0 <= i < 32
      ensures EncodedByte(large, e, i) == ClearNameBits(raw)[i]
    {
      if i >= 16 {
        EncodeParsePointers(large, raw[16..]);
        assert EncodedByte(large, e, i) == raw[16..][i - 16];
      } else if 9 <= i < 12 {
        FlagOfByte(raw[i]);
        assert PadEnd(e.extension, 3)[i - 9] == Masked(raw[i]);
      } else if 1 <= i < 9 {
        assert PadEnd(e.filename, 8)[i - 1] == Masked(raw[i]);
      }
    }
  }

  // ---- the whole directory -------------------------------------------------

  type Dir = seq<DirEntry>

  ghost predicate WellFormedDir(p: DiskParams, dir: Dir)
    requires ValidParams(p)
  {
    && |dir| == p.maxdir
    && forall k :: 0 <= k < |dir| ==> WellFormedEntry(UsesLargePointers(p), dir[k])
  }

  function SlotBlock(p: DiskParams, k: nat): nat
    requires BlockSize(p.blocksize)
  {
    FloorDiv(k, EntriesPerBlock(p))
  }

  function SlotOffset(p: DiskParams, k: nat): nat
    requires BlockSize(p.blocksize)
  {
    FloorMod(k, EntriesPerBlock(p))
  }

  lemma SlotInDirectory(p: DiskParams, k: nat)
    requires ValidParams(p) && k < p.maxdir
    ensures SlotBlock(p, k) < DirBlocks(p)
    ensures SlotOffset(p, k) * 32 + 32 <= p.blocksize
  {
    var epb := EntriesPerBlock(p);
    DivModSplit(k, epb);
    CeilDivBounds(p.maxdir, epb);
    MultiplesApart(epb, DirBlocks(p), SlotBlock(p, k) + 1);
    assert epb * 32 == p.blocksize;
  }

  /** The bytes of entry e of directory block b. */
  function EntryBytesAt(p: DiskParams, s: Blocks, b: nat, e: nat): (raw: seq<byte>)
    requires ValidParams(p) && IsStore(p, s) && b < |s| && e * 32 + 32 <= p.blocksize
    ensures |raw| == 32
  {
    s[b][e * 32..e * 32 + 32]
  }

  function EntryBytes(p: DiskParams, s: Blocks, k: nat): (raw: seq<byte>)
    requires ValidParams(p) && IsStore(p, s) && k < p.maxdir
    ensures |raw| == 32
  {
    SlotInDirectory(p, k);
    EntryBytesAt(p, s, SlotBlock(p, k), SlotOffset(p, k))
  }

  /** The directory a store holds. */
  function DirView(p: DiskParams, s: Blocks): (dir: Dir)
    requires ValidParams(p) && IsStore(p, s)
    ensures WellFormedDir(p, dir)
  {
    FirstEntries(p, s, p.maxdir)
  }

  function EntryAt(p: DiskParams, s: Blocks, k: nat): (e: DirEntry)
    requires ValidParams(p) && IsStore(p, s) && k < p.maxdir
    ensures WellFormedEntry(UsesLargePointers(p), e)
  {
    ParseEntry(UsesLargePointers(p), EntryBytes(p, s, k))
  }

  function FirstEntries(p: DiskParams, s: Blocks, count: nat): (dir: Dir)
    requires ValidParams(p) && IsStore(p, s) && count <= p.maxdir
    ensures |dir| == count && forall k :: 0 <= k < count ==> WellFormedEntry(UsesLargePointers(p), dir[k])
  {
    if count == 0 then []
    else FirstEntries(p, s, count - 1) + [EntryAt(p, s, count - 1)]
  }

  lemma {:induction false} EntryOfFirst(p: DiskParams, s: Blocks, count: nat, k: nat)
    requires ValidParams(p) && IsStore(p, s) && k < count <= p.maxdir
    ensures FirstEntries(p, s, count)[k] == EntryAt(p, s, k)
  {
    if k < count - 1 { EntryOfFirst(p, s, count - 1, k); }
  }

  lemma EntryInView(p: DiskParams, s: Blocks, k: nat)
    requires ValidParams(p) && IsStore(p, s) && k < p.maxdir
    ensures DirView(p, s)[k] == ParseEntry(UsesLargePointers(p), EntryBytes(p, s, k))
  {
    EntryOfFirst(p, s, p.maxdir, k);
  }

  /** Byte j of directory block b when the directory holds dir: 0xE5 past its end. */
  function DirByte(p: DiskParams, dir: Dir, b: nat, j: nat): byte
    requires ValidParams(p)
  {
    var k := b * EntriesPerBlock(p) + j / 32;
    if k < |dir| then EncodeEntry(UsesLargePointers(p), dir[k])[j % 32] else DELETED
  }

  function DirBlock(p: DiskParams, dir: Dir, b: nat): (data: seq<byte>)
    requires ValidParams(p)
    ensures |data| == p.blocksize
  {
    seq(p.blocksize, j requires 0 <= j < p.blocksize => DirByte(p, dir, b, j))
  }

  /** The store after the directory has been written to it. */
  function StoreDir(p: DiskParams, s: Blocks, dir: Dir): (r: Blocks)
    requires ValidParams(p) && IsStore(p, s)
    ensures IsStore(p, r)
    ensures forall b :: DirBlocks(p) <= b < |s| ==> r[b] == s[b]
  {
    seq(|s|, b requires 0 <= b < |s| => if b < DirBlocks(p) then DirBlock(p, dir, b) else s[b])
  }

  lemma DirBlockAt(p: DiskParams, dir: Dir, b: nat, e: nat, i: nat)
    requires ValidParams(p) && e * 32 + 32 <= p.blocksize && i < 32
    requires b * EntriesPerBlock(p) + e < |dir|
    ensures DirBlock(p, dir, b)[e * 32 + i] == EncodeEntry(UsesLargePointers(p), dir[b * EntriesPerBlock(p) + e])[i]
  {
    assert (e * 32 + i) / 32 == e && (e * 32 + i) % 32 == i;
  }

  lemma EntryBytesAtStoreDir(p: DiskParams, s: Blocks, dir: Dir, b: nat, e: nat)
    requires ValidParams(p) && IsStore(p, s)
    requires b < DirBlocks(p) && e * 32 + 32 <= p.blocksize
    requires b * EntriesPerBlock(p) + e < |dir|
    ensures EntryBytesAt(p, StoreDir(p, s, dir), b, e)
            == EncodeEntry(UsesLargePointers(p), dir[b * EntriesPerBlock(p) + e])
  {
    var block := StoreDir(p, s, dir)[b];
    assert block == DirBlock(p, dir, b);
    var entry := EncodeEntry(UsesLargePointers(p), dir[b * EntriesPerBlock(p) + e]);
    forall i | 0 <= i < 32
      ensures block[e * 32..e * 32 + 32][i] == entry[i]
    {
      DirBlockAt(p, dir, b, e, i);
    }
  }

  lemma EntryBytesOfStoreDir(p: DiskParams, s: Blocks, dir: Dir, k: nat)
    requires ValidParams(p) && IsStore(p, s) && |dir| == p.maxdir && k < p.maxdir
    ensures EntryBytes(p, StoreDir(p, s, dir), k) == EncodeEntry(UsesLargePointers(p), dir[k])
  {
    SlotInDirectory(p, k);
    DivModSplit(k, EntriesPerBlock(p));
    EntryBytesAtStoreDir(p, s, dir, SlotBlock(p, k), SlotOffset(p, k));
  }

  /** Reading the directory just written gives it back, for both pointer widths and any number of blocks. */
  lemma DirRoundTrip(p: DiskParams, s: Blocks, dir: Dir)
    requires ValidParams(p) && IsStore(p, s) && WellFormedDir(p, dir)
    ensures DirView(p, StoreDir(p, s, dir)) == dir
  {
    forall k: nat | k < p.maxdir
      ensures DirView(p, StoreDir(p, s, dir))[k] == dir[k]
    {
      EntryInView(p, StoreDir(p, s, dir), k);
      EntryBytesOfStoreDir(p, s, dir, k);
      ParseEncode(UsesLargePointers(p), dir[k]);
    }
  }

  /** Writing back the directory just read clears filename high bits and changes no other entry byte. */
  lemma DirRewrite(p: DiskParams, s: Blocks, k: nat)
    requires ValidParams(p) && IsStore(p, s) && k < p.maxdir
    ensures EntryBytes(p, StoreDir(p, s, DirView(p, s)), k) == ClearNameBits(EntryBytes(p, s, k))
  {
    EntryInView(p, s, k);
    EntryBytesOfStoreDir(p, s, DirView(p, s), k);
    EncodeParse(UsesLargePointers(p), EntryBytes(p, s, k));
  }

  /** The directory depends on the directory blocks alone. */
  lemma DirViewFrame(p: DiskParams, s: Blocks, t: Blocks)
    requires ValidParams(p) && IsStore(p, s) && IsStore(p, t)
    requires forall b :: 0 <= b < DirBlocks(p) ==> s[b] == t[b]
    ensures DirView(p, s) == DirView(p, t)
  {
    forall k: nat | k < p.maxdir
      ensures DirView(p, s)[k] == DirView(p, t)[k]
    {
      SlotInDirectory(p, k);
      EntryInView(p, s, k);
      EntryInView(p, t, k);
    }
  }

  // ---- where the fields lie ------------------------------------------------

  /**
   The fields of an entry by their bytes on the disk, in the order of a file
   control block: user, name, type with the three attribute bits on top, extent
   low, S1, extent high, record count, and the allocation, low byte first.
   */
  lemma EntryLayout(large: bool, raw: seq<byte>)
    requires |raw| == 32
    ensures var e := ParseEntry(large, raw);
            && e.status == raw[0]
            && (forall i :: 0 <= i < 8 ==> e.filename[i] == raw[1 + i] % 128)
            && (forall i :: 0 <= i < 3 ==> e.extension[i] == raw[9 + i] % 128)
            && (e.readonly <==> raw[9] / 128 == 1) && (e.system <==> raw[10] / 128 == 1) && (e.archive <==> raw[11] / 128 == 1)
            && e.extentLow == raw[12] && e.bc == raw[13] && e.extentHigh == raw[14] && e.rc == raw[15]
    ensures var ptrs := ParseEntry(large, raw).blockPointers;
            if large then |ptrs| == 8 && forall i :: 0 <= i < 8 ==> ptrs[i] as int == (raw[16 + 2 * i] as int) + 256 * (raw[17 + 2 * i] as int)
            else |ptrs| == 16 && forall i :: 0 <= i < 16 ==> ptrs[i] == raw[16 + i]
  {
  }

  /** Pointers an entry does not have are written as zeros. */
  lemma MissingPointersAreZero(large: bool, e: DirEntry, i: nat)
    requires |e.blockPointers| <= i < PointerCount(large)
    ensures if large then EncodeEntry(large, e)[16 + 2 * i] == 0 && EncodeEntry(large, e)[17 + 2 * i] == 0
            else EncodeEntry(large, e)[16 + i] == 0
  {
    if large {
      PointerBytes(e.blockPointers, i);
    }
  }
}
