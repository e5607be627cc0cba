/**
 Disk parameters, sector skew and the map from CP/M sectors to 137-byte
 records of the image file.
 */
module DiskGeometry {
  import opened Bytes

  const SECTOR_SIZE: nat := 137
  const DATA_SIZE: nat := 128
  const SECTORS_PER_TRACK: nat := 32
  const TRACK_SIZE: nat := 4384
  const BOOT_DATA_OFFSET: nat := 3
  const BOOT_STOP_OFFSET: nat := 131
  const BOOT_CSUM_OFFSET: nat := 132
  const DATA_DATA_OFFSET: nat := 7
  const DATA_STOP_OFFSET: nat := 135
  const DATA_END_OFFSET: nat := 136
  const DATA_CSUM_OFFSET: nat := 4
  const DATA_SECT_OFFSET: nat := 1

  datatype DiskParams = DiskParams(
    seclen: nat,
    tracks: nat,
    sectrk: nat,
    blocksize: nat,
    maxdir: nat,
    boottrk: nat,
    systemTracks: Option<nat>)

  const PARAMS_8INCH := DiskParams(128, 77, 32, 2048, 64, 2, Some(6))
  const PARAMS_MINIDISK := DiskParams(128, 17, 32, 1024, 32, 2, None)
  const PARAMS_8MB := DiskParams(128, 2048, 32, 4096, 1024, 6, None)

  function SystemTracks(p: DiskParams): nat {
    match p.systemTracks
    case Some(n) => n
    case None => p.tracks
  }

  /** CP/M sectors outside the reserved boot tracks. */
  function SectorCount(p: DiskParams): nat
    requires p.boottrk <= p.tracks
  {
    (p.tracks - p.boottrk) * 32
  }

  function SectorsPerBlock(p: DiskParams): nat {
    p.blocksize / 128
  }

  function TotalBlocks(p: DiskParams): nat
    requires p.boottrk <= p.tracks && p.blocksize > 0
  {
    FloorDiv((p.tracks - p.boottrk) * 4096, p.blocksize)
  }

  function EntriesPerBlock(p: DiskParams): nat {
    p.blocksize / 32
  }

  function DirBlocks(p: DiskParams): nat
    requires p.blocksize >= 32
  {
    CeilDiv(p.maxdir, EntriesPerBlock(p))
  }

  predicate UsesLargePointers(p: DiskParams)
    requires p.boottrk <= p.tracks && p.blocksize > 0
  {
    TotalBlocks(p) > 255
  }

  /** Logical 16K extents described by one directory entry (the extent mask plus one). */
  function ExtentsPerEntry(p: DiskParams): nat {
    if 8 * SectorsPerBlock(p) / 128 < 1 then 1 else 8 * SectorsPerBlock(p) / 128
  }

  predicate BlockSize(n: nat) {
    n == 1024 || n == 2048 || n == 4096 || n == 8192 || n == 16384
  }

  /**
   The disk formats the filesystem can describe: 128-byte records, 32 to a
   track, one of CP/M's five block sizes, a directory that lies on the disk,
   and a size at which block numbers fit two bytes and extent numbers the
   eleven bits of the two extent bytes.
   */
  predicate ValidParams(p: DiskParams) {
    && p.seclen == 128
    && p.sectrk == 32
    && BlockSize(p.blocksize)
    && p.boottrk < p.tracks
    && p.maxdir > 0
    && DirBlocks(p) <= TotalBlocks(p) <= MostBlocks(p.blocksize)
  }

  /** The number of blocks whose extents can still be numbered. */
  function MostBlocks(blocksize: nat): nat {
    if blocksize <= 2048 then 16384 else if blocksize <= 4096 then 8192 else if blocksize <= 8192 then 4096 else 2048
  }

  lemma ExtentNumbersFit(p: DiskParams)
    requires ValidParams(p)
    ensures CeilDiv(TotalBlocks(p), 8) * ExtentsPerEntry(p) <= 2048
  {
    var e, n := ExtentsPerEntry(p), CeilDiv(TotalBlocks(p), 8);
    CeilDivBounds(TotalBlocks(p), 8);
    assert e == 1 || e == 2 || e == 4 || e == 8;
  }

  lemma EightInchIsValid()
    ensures ValidParams(PARAMS_8INCH)
    ensures TotalBlocks(PARAMS_8INCH) == 150 && DirBlocks(PARAMS_8INCH) == 1
    ensures ExtentsPerEntry(PARAMS_8INCH) == 1
  {
    DivModUnique(75 * 4096, 2048, 150, 0);
    DivModUnique(64 + 63, 64, 1, 63);
    DivModUnique(150 + 7, 8, 19, 5);
  }

  lemma MinidiskIsValid()
    ensures ValidParams(PARAMS_MINIDISK)
    ensures TotalBlocks(PARAMS_MINIDISK) == 60 && DirBlocks(PARAMS_MINIDISK) == 1
    ensures ExtentsPerEntry(PARAMS_MINIDISK) == 1
  {
    DivModUnique(15 * 4096, 1024, 60, 0);
    DivModUnique(32 + 31, 32, 1, 31);
    DivModUnique(60 + 7, 8, 8, 3);
  }

  lemma EightMegabyteIsValid()
    ensures ValidParams(PARAMS_8MB)
    ensures TotalBlocks(PARAMS_8MB) == 2042 && DirBlocks(PARAMS_8MB) == 8
    ensures ExtentsPerEntry(PARAMS_8MB) == 2
  {
    DivModUnique(2042 * 4096, 4096, 2042, 0);
    DivModUnique(1024 + 127, 128, 8, 127);
    DivModUnique(2042 + 7, 8, 256, 1);
  }

  // ---- sector skew ---------------------------------------------------------

  const MITS_BASE_SKEW: seq<nat> := [
    1, 9, 17, 25, 3, 11, 19, 27, 5, 13, 21, 29, 7, 15, 23, 31,
    2, 10, 18, 26, 4, 12, 20, 28, 6, 14, 22, 30, 8, 16, 24, 32]

  /** The 0-based boot skew in closed form; SkewTable ties it to the table above. */
  function BootSkew(logical: nat): nat
    requires logical < 32
  {
    if logical < 16 then HalfSkew(logical) else HalfSkew(logical - 16) + 1
  }

  function HalfSkew(n: nat): nat
    requires n < 16
  {
    if n < 4 then 8 * n else if n < 8 then 8 * n - 30 else if n < 12 then 8 * n - 60 else 8 * n - 90
  }

  /** `b * 17 % 32` for `b < 32`, its own inverse; DataSkewTable ties it to the formula. */
  function Times17(b: nat): nat {
    if b % 2 == 0 then b else if b < 16 then b + 16 else b - 16
  }

  function DataSkew(logical: nat): nat
    requires logical < 32
  {
    Times17(BootSkew(logical))
  }

  function LogicalToPhysical(track: nat, logical: nat, systemTracks: nat): nat
    requires logical < 32
  {
    if track < systemTracks then BootSkew(logical) else DataSkew(logical)
  }

  /** The closed form is the published interleave table. */
  lemma SkewTable(logical: nat)
    requires logical < 32
    ensures MITS_BASE_SKEW[logical] == BootSkew(logical) + 1
  {
  }

  function BootUnskew(phys: nat): nat
    requires phys < 32
  {
    phys % 2 * 16 + phys % 8 / 2 * 4 + phys / 8
  }

  /** The logical sector found at a physical position: the inverse of both skews. */
  function PhysicalToLogical(track: nat, phys: nat, systemTracks: nat): nat
    requires phys < 32
  {
    if track < systemTracks then BootUnskew(phys) else BootUnskew(Times17(phys))
  }

  lemma BootSkewInverse(x: nat)
    requires x < 32
    ensures BootSkew(x) < 32 && BootUnskew(BootSkew(x)) == x
  {
    var c, b, a := x / 16, x % 16 / 4, x % 4;
    assert x == 16 * c + 4 * b + a;
    SkewParts(a, b, c);
    UnskewParts(a, b, c);
  }

  lemma SkewParts(a: nat, b: nat, c: nat)
    requires a < 4 && b < 4 && c < 2
    ensures BootSkew(16 * c + 4 * b + a) == 8 * a + 2 * b + c
  {
  }

  lemma UnskewParts(a: nat, b: nat, c: nat)
    requires a < 4 && b < 4 && c < 2
    ensures BootUnskew(8 * a + 2 * b + c) == 16 * c + 4 * b + a
  {
    var y := 8 * a + 2 * b + c;
    assert y / 8 == a && y % 8 == 2 * b + c && y % 2 == c;
  }

  lemma BootUnskewInverse(y: nat)
    requires y < 32
    ensures BootUnskew(y) < 32 && BootSkew(BootUnskew(y)) == y
  {
    BitsOfSector(y);
    UnskewParts(y / 8, y % 8 / 2, y % 2);
    SkewParts(y / 8, y % 8 / 2, y % 2);
  }

  lemma BitsOfSector(y: nat)
    requires y < 32
    ensures y == 8 * (y / 8) + 2 * (y % 8 / 2) + y % 2 && y / 8 < 4 && y % 8 / 2 < 4
  {
  }

  lemma Times17Formula(b: nat)
    requires b < 32
    ensures Times17(b) == b * 17 % 32
  {
    var h := b / 2;
    assert b * 17 == 32 * h + (if b % 2 == 0 then b else b + 16);
  }

  /** The data-track skew is `((base - 1) * 17) mod 32` over the same table. */
  lemma DataSkewTable(logical: nat)
    requires logical < 32
    ensures MITS_BASE_SKEW[logical] >= 1
    ensures DataSkew(logical) == (MITS_BASE_SKEW[logical] - 1) * 17 % 32
  {
    SkewTable(logical);
    BootSkewInverse(logical);
    Times17Formula(BootSkew(logical));
  }

  lemma Times17Inverse(b: nat)
    requires b < 32
    ensures Times17(b) < 32 && Times17(Times17(b)) == b
  {
  }

  lemma LogicalToPhysicalInverse(track: nat, x: nat, systemTracks: nat)
    requires x < 32
    ensures LogicalToPhysical(track, x, systemTracks) < 32
    ensures PhysicalToLogical(track, LogicalToPhysical(track, x, systemTracks), systemTracks) == x
  {
    BootSkewInverse(x);
    var b := BootSkew(x);
    if track >= systemTracks {
      Times17Inverse(b);
    }
  }

  lemma PhysicalToLogicalInverse(track: nat, y: nat, systemTracks: nat)
    requires y < 32
    ensures PhysicalToLogical(track, y, systemTracks) < 32
    ensures LogicalToPhysical(track, PhysicalToLogical(track, y, systemTracks), systemTracks) == y
  {
    Times17Inverse(y);
    var b := if track < systemTracks then y else Times17(y);
    BootUnskewInverse(b);
  }

  /** Both skew tables are permutations of 0..31, and PhysicalToLogical inverts them. */
  lemma SkewIsPermutation(track: nat, x: nat, systemTracks: nat)
    requires x < 32
    ensures LogicalToPhysical(track, x, systemTracks) < 32
    ensures PhysicalToLogical(track, x, systemTracks) < 32
    ensures PhysicalToLogical(track, LogicalToPhysical(track, x, systemTracks), systemTracks) == x
    ensures LogicalToPhysical(track, PhysicalToLogical(track, x, systemTracks), systemTracks) == x
  {
    LogicalToPhysicalInverse(track, x, systemTracks);
    PhysicalToLogicalInverse(track, x, systemTracks);
  }

  // ---- records of the image ------------------------------------------------

  function RecordOf(p: DiskParams, track: nat, logical: nat): (k: nat)
    requires logical < 32
  {
    track * 32 + LogicalToPhysical(track, logical, SystemTracks(p))
  }

  /** The image record that holds the n-th CP/M sector after the boot tracks. */
  function RecordIndex(p: DiskParams, n: nat): (k: nat) {
    RecordOf(p, p.boottrk + n / 32, n % 32)
  }

  function DataOffset(p: DiskParams, track: nat): nat {
    if track < SystemTracks(p) then BOOT_DATA_OFFSET else DATA_DATA_OFFSET
  }

  lemma RecordOfTrack(p: DiskParams, track: nat, logical: nat)
    requires logical < 32
    ensures RecordOf(p, track, logical) / 32 == track
    ensures RecordOf(p, track, logical) % 32 == LogicalToPhysical(track, logical, SystemTracks(p)) < 32
  {
    SkewIsPermutation(track, logical, SystemTracks(p));
  }

  lemma SplitUnique(t1: nat, l1: nat, t2: nat, l2: nat)
    requires l1 < 32 && l2 < 32 && t1 * 32 + l1 == t2 * 32 + l2
    ensures t1 == t2 && l1 == l2
  {
  }

  /** No two CP/M sectors share a record, and none lies on a boot track. */
  lemma RecordIndexInjective(p: DiskParams, n: nat, m: nat)
    requires RecordIndex(p, n) == RecordIndex(p, m)
    ensures n == m
  {
    var sys, tn, tm := SystemTracks(p), p.boottrk + n / 32, p.boottrk + m / 32;
    SkewIsPermutation(tn, n % 32, sys);
    SkewIsPermutation(tm, m % 32, sys);
    SplitUnique(tn, LogicalToPhysical(tn, n % 32, sys), tm, LogicalToPhysical(tm, m % 32, sys));
    assert n % 32 == m % 32;
  }

  lemma RecordIndexTrack(p: DiskParams, n: nat)
    ensures RecordIndex(p, n) / 32 == p.boottrk + n / 32
  {
    RecordOfTrack(p, p.boottrk + n / 32, n % 32);
  }

  lemma RecordIndexAt(p: DiskParams, t: nat, logical: nat)
    requires logical < 32
    ensures RecordIndex(p, t * 32 + logical) == RecordOf(p, p.boottrk + t, logical)
  {
    var n := t * 32 + logical;
    SplitUnique(n / 32, n % 32, t, logical);
  }

  /** The record at a physical position of a track. */
  lemma RecordAtPhysical(p: DiskParams, track: nat, phys: nat)
    requires phys < 32
    ensures PhysicalToLogical(track, phys, SystemTracks(p)) < 32
    ensures RecordOf(p, track, PhysicalToLogical(track, phys, SystemTracks(p))) == track * 32 + phys
  {
    PhysicalToLogicalInverse(track, phys, SystemTracks(p));
  }

  lemma RecordIndexOfPhysical(p: DiskParams, t: nat, phys: nat) returns (n: nat)
    requires phys < 32
    ensures RecordIndex(p, n) == (p.boottrk + t) * 32 + phys
  {
    RecordAtPhysical(p, p.boottrk + t, phys);
    var logical := PhysicalToLogical(p.boottrk + t, phys, SystemTracks(p));
    n := t * 32 + logical;
    RecordIndexAt(p, t, logical);
  }

  /** Every record past the boot tracks holds a CP/M sector. */
  lemma RecordIndexSurjective(p: DiskParams, k: nat) returns (n: nat)
    requires p.boottrk * 32 <= k
    ensures RecordIndex(p, n) == k
  {
    n := RecordIndexOfPhysical(p, k / 32 - p.boottrk, k % 32);
    TrackAndSector(k);
  }

  lemma TrackAndSector(k: nat)
    ensures k / 32 * 32 + k % 32 == k
  {
  }
}
