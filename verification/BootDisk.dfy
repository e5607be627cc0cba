/** Boot disk images with interleaved sectors, as the boot loader reads them. */
module BootDisk {
  import opened Bytes

  const SECTOR_SIZE: nat := 137
  const SECTORS_PER_TRACK: nat := 32
  const DATA_PER_SECTOR: nat := 128
  const TRACK_SIZE: nat := 4384

  // ---- the order of sectors ------------------------------------------------

  /** The place of sector q of the image in loading order: on each track the even sectors, then the odd ones. */
  function RankOf(q: nat): (n: nat) {
    q / 32 * 32 + q % 2 * 16 + q % 32 / 2
  }

  /** The sector loaded n-th. */
  function SlotOf(n: nat): (q: nat) {
    n / 32 * 32 + if n % 32 < 16 then n % 32 * 2 else (n % 32 - 16) * 2 + 1
  }

  /** Loading order visits every sector once, track by track. */
  lemma RankAndSlot(n: nat)
    ensures RankOf(SlotOf(n)) == n && SlotOf(RankOf(n)) == n
    ensures SlotOf(n) / 32 == n / 32 && RankOf(n) / 32 == n / 32
  {
    var t, r := n / 32, n % 32;
    RankByParts(t, r % 16, r / 16);
    RankByParts(t, r / 2, r % 2);
  }

  /** On track t, the k-th sector of a pass. */
  lemma RankByParts(t: nat, k: nat, pass: nat)
    requires k < 16 && pass < 2
    ensures var q, n := 32 * t + 2 * k + pass, 32 * t + 16 * pass + k;
            RankOf(q) == n && SlotOf(n) == q && q / 32 == t && n / 32 == t
  {
    var q, n := 32 * t + 2 * k + pass, 32 * t + 16 * pass + k;
    Parts32(t, 2 * k + pass);
    Parts32(t, 16 * pass + k);
    Parts2(16 * t + k, pass);
    Parts2(k, pass);
  }

  lemma Parts32(t: nat, r: nat)
    requires r < 32
    ensures (32 * t + r) / 32 == t && (32 * t + r) % 32 == r
  {
  }

  lemma Parts2(t: nat, r: nat)
    requires r < 2
    ensures (2 * t + r) / 2 == t && (2 * t + r) % 2 == r
  {
  }

  // ---- what a sector holds -------------------------------------------------

  /** The boot code continued with zeros. */
  function CodeByte(code: seq<byte>, i: nat): byte {
    if i < |code| then code[i] else 0
  }

  function Payload(code: seq<byte>, n: nat): (r: seq<byte>)
    ensures |r| == DATA_PER_SECTOR
  {
    seq<byte>(DATA_PER_SECTOR, i requires 0 <= i < DATA_PER_SECTOR => CodeByte(code, n * DATA_PER_SECTOR + i))
  }

  /** Track with its top bit set, byte count, data, marker, checksum, spare. */
  predicate IsBootSector(s: seq<byte>, track: nat, count: nat, payload: seq<byte>)
    requires |payload| == DATA_PER_SECTOR
  {
    && |s| == SECTOR_SIZE
    && s[0] == track % 128 + 128
    && s[1] == count % 256 && s[2] == count / 256 % 256
    && s[3..131] == payload
    && s[131] == 0xFF && s[132] == Sum(payload) % 256
    && s[133..] == [0, 0, 0, 0]
  }

  function SectorOf(disk: seq<byte>, q: nat): (s: seq<byte>)
    requires (q + 1) * SECTOR_SIZE <= |disk|
    ensures |s| == SECTOR_SIZE
  {
    disk[q * SECTOR_SIZE..(q + 1) * SECTOR_SIZE]
  }

  predicate Written(disk: seq<byte>, code: seq<byte>, q: nat)
    requires (q + 1) * SECTOR_SIZE <= |disk|
  {
    IsBootSector(SectorOf(disk, q), q / 32, |code|, Payload(code, RankOf(q)))
  }

  predicate Blank(disk: seq<byte>, q: nat)
    requires (q + 1) * SECTOR_SIZE <= |disk|
  {
    forall i :: 0 <= i < SECTOR_SIZE ==> SectorOf(disk, q)[i] == 0
  }

  /** The first n sectors of the loading order are written, the others blank. */
  ghost predicate Filled(disk: seq<byte>, code: seq<byte>, tracks: nat, n: nat) {
    && |disk| == TRACK_SIZE * tracks
    && forall q: nat :: q < 32 * tracks ==> if RankOf(q) < n then Written(disk, code, q) else Blank(disk, q)
  }

  // ---- making the image ----------------------------------------------------

  datatype BootError = TooLong(needed: nat, available: nat)

  method CreateDiskImage(code: seq<byte>, tracks: nat) returns (r: Result<array<byte>, BootError>)
    ensures r.Ok? <==> |code| <= 4096 * tracks
    ensures r.Ok? ==> fresh(r.value) && Filled(r.value[..], code, tracks, 32 * tracks)
    ensures r.Err? ==> r.error == TooLong(CeilDiv(|code|, 4096), tracks)
  {
    if |code| > DATA_PER_SECTOR * SECTORS_PER_TRACK * tracks {
      return Err(TooLong(CeilDiv(|code|, 4096), tracks));
    }
    var disk := new byte[TRACK_SIZE * tracks](_ => 0);
    var bootOffset := 0;
    for track := 0 to tracks
      invariant Filled(disk[..], code, tracks, 32 * track) && bootOffset == 32 * track * DATA_PER_SECTOR
    {
      bootOffset := FillTrack(disk, code, tracks, track, bootOffset);
    }
    return Ok(disk);
  }

  /** One track in two passes over its sectors. */
  method FillTrack(disk: array<byte>, code: seq<byte>, tracks: nat, track: nat, start: nat) returns (bootOffset: nat)
    requires track < tracks && Filled(disk[..], code, tracks, 32 * track) && start == 32 * track * DATA_PER_SECTOR
    modifies disk
    ensures Filled(disk[..], code, tracks, 32 * (track + 1)) && bootOffset == 32 * (track + 1) * DATA_PER_SECTOR
  {
    bootOffset := start;
    for pass := 0 to 2
      invariant Filled(disk[..], code, tracks, 32 * track + 16 * pass) && bootOffset == (32 * track + 16 * pass) * DATA_PER_SECTOR
    {
      var s: nat := pass;
      ghost var k := 0;
      while s < SECTORS_PER_TRACK
        invariant s == pass + 2 * k && k <= 16
        invariant Filled(disk[..], code, tracks, 32 * track + 16 * pass + k)
        invariant bootOffset == (32 * track + 16 * pass + k) * DATA_PER_SECTOR
        decreases 16 - k
      {
        ghost var before := disk[..];
        var q := track * SECTORS_PER_TRACK + s;
        RankByParts(track, k, pass);
        FillSector(disk, q, track, code, bootOffset);
        OneMoreFilled(before, disk[..], code, tracks, q);
        s, bootOffset := s + 2, bootOffset + DATA_PER_SECTOR;
        k := k + 1;
      }
    }
  }

  lemma OneMoreFilled(before: seq<byte>, after: seq<byte>, code: seq<byte>, tracks: nat, q: nat)
    requires q < 32 * tracks && Filled(before, code, tracks, RankOf(q)) && |after| == |before|
    requires Written(after, code, q)
    requires forall i :: 0 <= i < |after| && !(q * SECTOR_SIZE <= i < (q + 1) * SECTOR_SIZE) ==> after[i] == before[i]
    ensures Filled(after, code, tracks, RankOf(q) + 1)
  {
    forall p: nat | p < 32 * tracks
      ensures if RankOf(p) < RankOf(q) + 1 then Written(after, code, p) else Blank(after, p)
    {
      if p != q {
        assert RankOf(p) != RankOf(q) by { RankAndSlot(p); RankAndSlot(q); }
        assert SectorOf(after, p) == SectorOf(before, p);
      }
    }
  }

  /** Writes one blank sector; the running offset is where its data begins in the code. */
  method FillSector(disk: array<byte>, q: nat, track: nat, code: seq<byte>, bootOffset: nat)
    requires (q + 1) * SECTOR_SIZE <= disk.Length && Blank(disk[..], q)
    requires track == q / 32 && bootOffset == RankOf(q) * DATA_PER_SECTOR
    modifies disk
    ensures Written(disk[..], code, q)
    ensures forall i :: 0 <= i < disk.Length && !(q * SECTOR_SIZE <= i < (q + 1) * SECTOR_SIZE) ==> disk[i] == old(disk[i])
  {
    var base := q * SECTOR_SIZE;
    assert forall j :: base <= j < base + SECTOR_SIZE ==> disk[j] == SectorOf(disk[..], q)[j - base];
    disk[base] := track % 128 + 128;
    disk[base + 1] := |code| % 256;
    disk[base + 2] := |code| / 256 % 256;
    var checksum := CopyData(disk, base + 3, code, bootOffset, Payload(code, RankOf(q)));
    disk[base + 131] := 0xFF;
    disk[base + 132] := checksum;
    IsWritten(disk[..], code, q);
  }

  lemma IsWritten(disk: seq<byte>, code: seq<byte>, q: nat)
    requires (q + 1) * SECTOR_SIZE <= |disk|
    requires var base := q * SECTOR_SIZE;
             var payload := Payload(code, RankOf(q));
             && disk[base] == q / 32 % 128 + 128 && disk[base + 1] == |code| % 256 && disk[base + 2] == |code| / 256 % 256
             && (forall j :: base + 3 <= j < base + 131 ==> disk[j] == payload[j - base - 3])
             && disk[base + 131] == 0xFF && disk[base + 132] == Sum(payload) % 256
             && (forall j :: base + 133 <= j < base + SECTOR_SIZE ==> disk[j] == 0)
    ensures Written(disk, code, q)
  {
    var s, base, payload := SectorOf(disk, q), q * SECTOR_SIZE, Payload(code, RankOf(q));
    assert forall i :: 0 <= i < SECTOR_SIZE ==> s[i] == disk[base + i];
    assert s[3..131] == payload;
    assert s[133..] == [0, 0, 0, 0];
  }

  /** The data of a sector, and its checksum. */
  method CopyData(disk: array<byte>, at: nat, code: seq<byte>, bootOffset: nat, ghost payload: seq<byte>) returns (checksum: byte)
    requires at + DATA_PER_SECTOR <= disk.Length && |payload| == DATA_PER_SECTOR
    requires forall i :: 0 <= i < DATA_PER_SECTOR ==> payload[i] == CodeByte(code, bootOffset + i)
    modifies disk
    ensures checksum == Sum(payload) % 256
    ensures forall j :: at <= j < at + DATA_PER_SECTOR ==> disk[j] == payload[j - at]
    ensures forall j :: 0 <= j < disk.Length && !(at <= j < at + DATA_PER_SECTOR) ==> disk[j] == old(disk[j])
  {
    checksum := 0;
    for i := 0 to DATA_PER_SECTOR
      invariant checksum == Sum(payload[..i]) % 256
      invariant forall j :: at <= j < at + i ==> disk[j] == payload[j - at]
      invariant forall j :: 0 <= j < disk.Length && !(at <= j < at + i) ==> disk[j] == old(disk[j])
    {
      var dataByte := if bootOffset + i < |code| then code[bootOffset + i] else 0;
      assert payload[..i + 1][..i] == payload[..i] && payload[i] == dataByte;
      disk[at + i] := dataByte;
      checksum := ((checksum as int) + (dataByte as int)) % 256;
    }
    assert payload[..DATA_PER_SECTOR] == payload;
  }

  // ---- reading it back -----------------------------------------------------

  /** The data of sector q; nothing beyond the end of the disk. */
  function DataAt(disk: seq<byte>, q: nat): seq<byte> {
    if (q + 1) * SECTOR_SIZE <= |disk| then SectorOf(disk, q)[3..131] else []
  }

  /** The data of the first n sectors as the loader takes them. */
  function Loaded(disk: seq<byte>, n: nat): seq<byte> {
    if n == 0 then [] else Loaded(disk, n - 1) + DataAt(disk, SlotOf(n - 1))
  }

  lemma DataOfSlot(disk: seq<byte>, code: seq<byte>, tracks: nat, n: nat)
    requires Filled(disk, code, tracks, 32 * tracks) && n < 32 * tracks
    ensures DataAt(disk, SlotOf(n)) == Payload(code, n)
  {
    SlotInside(n, tracks);
    FilledIsWritten(disk, code, tracks, SlotOf(n));
  }

  /** The front of the code, continued with zeros, in whole sectors. */
  ghost predicate IsFront(bytes: seq<byte>, code: seq<byte>, n: nat) {
    |bytes| == n * DATA_PER_SECTOR && forall i :: 0 <= i < |bytes| ==> bytes[i] == CodeByte(code, i)
  }

  lemma {:induction false} LoadedBytes(disk: seq<byte>, code: seq<byte>, tracks: nat, n: nat)
    requires Filled(disk, code, tracks, 32 * tracks) && n <= 32 * tracks
    ensures IsFront(Loaded(disk, n), code, n)
  {
    if n > 0 {
      LoadedBytes(disk, code, tracks, n - 1);
      DataOfSlot(disk, code, tracks, n - 1);
      FrontGrows(Loaded(disk, n - 1), code, n - 1);
    }
  }

  lemma FrontGrows(bytes: seq<byte>, code: seq<byte>, n: nat)
    requires IsFront(bytes, code, n)
    ensures IsFront(bytes + Payload(code, n), code, n + 1)
  {
  }

  lemma FilledIsWritten(disk: seq<byte>, code: seq<byte>, tracks: nat, q: nat)
    requires Filled(disk, code, tracks, 32 * tracks) && q < 32 * tracks
    ensures (q + 1) * SECTOR_SIZE <= |disk| && Written(disk, code, q)
  {
    RankInside(q, tracks);
  }

  lemma SlotInside(n: nat, tracks: nat)
    requires n < 32 * tracks
    ensures SlotOf(n) < 32 * tracks && RankOf(SlotOf(n)) == n
  {
    RankAndSlot(n);
  }

  lemma RankInside(q: nat, tracks: nat)
    requires q < 32 * tracks
    ensures RankOf(q) < 32 * tracks
  {
    RankAndSlot(q);
  }

  /** The byte count in a sector. */
  function StoredCount(disk: seq<byte>, q: nat): word
    requires (q + 1) * SECTOR_SIZE <= |disk|
  {
    Word(SectorOf(disk, q)[1], SectorOf(disk, q)[2])
  }

  /** The stored count is the length of the code exactly below 65536 bytes; from there on a loader stops early. */
  lemma CountIsLength(disk: seq<byte>, code: seq<byte>, tracks: nat, q: nat)
    requires Filled(disk, code, tracks, 32 * tracks) && q < 32 * tracks
    ensures StoredCount(disk, q) == |code| <==> |code| < 65536
  {
    FilledIsWritten(disk, code, tracks, q);
    WordOfCount(|code|);
  }

  lemma WordOfCount(n: nat)
    ensures Word(n % 256, n / 256 % 256) == n <==> n < 65536
  {
  }

  /**
   The loader gets the code back: it takes the data in even-then-odd order
   and stops at the byte count stored in any of the sectors.
   */
  lemma BootRoundTrip(disk: seq<byte>, code: seq<byte>, tracks: nat, q: nat)
    requires Filled(disk, code, tracks, 32 * tracks) && q < 32 * tracks
    requires |code| <= 4096 * tracks && |code| < 65536
    ensures StoredCount(disk, q) <= |Loaded(disk, 32 * tracks)|
    ensures Loaded(disk, 32 * tracks)[..StoredCount(disk, q)] == code
  {
    LoadedBytes(disk, code, tracks, 32 * tracks);
    CountIsLength(disk, code, tracks, q);
  }

  /** Every sector's checksum is the sum of its data, and its first byte names its track. */
  lemma ChecksumsValid(disk: seq<byte>, code: seq<byte>, tracks: nat, q: nat)
    requires Filled(disk, code, tracks, 32 * tracks) && q < 32 * tracks && tracks <= 128
    ensures (q + 1) * SECTOR_SIZE <= |disk|
    ensures var s := SectorOf(disk, q);
            s[132] == Sum(s[3..131]) % 256 && s[0] == 128 + q / 32 && s[131] == 0xFF
  {
    FilledIsWritten(disk, code, tracks, q);
  }

  // ---- byte by byte --------------------------------------------------------

  /**
   The bytes of the image: on each track 16 even sectors, then 16 odd ones take
   up the code. Each begins with its track under a set top bit and the length
   of the code, low byte first; behind its data are a stop byte, the sum of the
   data and four zeros.
   */
  lemma SectorBytes(disk: seq<byte>, code: seq<byte>, tracks: nat, t: nat, k: nat, odd: nat, base: nat, first: nat)
    requires Filled(disk, code, tracks, 32 * tracks) && t < tracks && k < 16 && odd < 2
    requires base == t * 4384 + (2 * k + odd) * 137 && first == (32 * t + 16 * odd + k) * 128
    ensures base + 137 <= |disk| == 4384 * tracks
    ensures && disk[base] as int == t % 128 + 128
            && disk[base + 1] == |code| % 256 && disk[base + 2] == |code| / 256 % 256
            && (forall i :: base + 3 <= i < base + 131 ==> disk[i] == if first + i - base - 3 < |code| then code[first + i - base - 3] else 0)
            && disk[base + 131] == 255 && disk[base + 132] == Sum(disk[base + 3..base + 131]) % 256
            && disk[base + 133] == disk[base + 134] == disk[base + 135] == disk[base + 136] == 0
  {
    var q := 32 * t + 2 * k + odd;
    RankByParts(t, k, odd);
    FilledIsWritten(disk, code, tracks, q);
    assert base == q * SECTOR_SIZE;
    BytesOfSector(disk, q, base);
    WrittenBytes(SectorOf(disk, q), t, |code|, Payload(code, RankOf(q)));
    assert disk[base + 3..base + 131] == Payload(code, RankOf(q)) by {
      assert SectorOf(disk, q)[3..131] == disk[base + 3..base + 131];
    }
    forall i | base + 3 <= i < base + 131
      ensures disk[i] == CodeByte(code, first + i - base - 3)
    {
      assert disk[i] == disk[base + 3..base + 131][i - base - 3];
    }
  }

  lemma BytesOfSector(disk: seq<byte>, q: nat, base: nat)
    requires (q + 1) * SECTOR_SIZE <= |disk| && base == q * SECTOR_SIZE
    ensures base + 137 <= |disk| && SectorOf(disk, q) == disk[base..base + 137]
    ensures forall i :: base <= i < base + 137 ==> SectorOf(disk, q)[i - base] == disk[i]
  {
  }

  lemma WrittenBytes(s: seq<byte>, t: nat, count: nat, payload: seq<byte>)
    requires |payload| == DATA_PER_SECTOR && IsBootSector(s, t, count, payload)
    ensures |s| == 137 && s[0] as int == t % 128 + 128 && s[1] == count % 256 && s[2] == count / 256 % 256
    ensures s[131] == 255 && s[132] == Sum(s[3..131]) % 256 && s[3..131] == payload
    ensures s[133] == s[134] == s[135] == s[136] == 0
  {
    assert s[133..][0] == s[133] && s[133..][1] == s[134] && s[133..][2] == s[135] && s[133..][3] == s[136];
  }
}
