/**
 The two physical framings of a 137-byte record, and the image seen as a
 sequence of CP/M sectors.
 */
module SectorFraming {
  import opened Bytes
  import opened DiskGeometry

  type Image = seq<byte>

  /** The image is long enough for every track the parameters promise. */
  predicate Fits(p: DiskParams, img: Image) {
    p.tracks * TRACK_SIZE <= |img|
  }

  function Record(img: Image, k: nat): (r: seq<byte>)
    requires k * 137 + 137 <= |img|
    ensures |r| == 137
  {
    img[k * 137..k * 137 + 137]
  }

  function ReplaceRecord(img: Image, k: nat, r: seq<byte>): (result: Image)
    requires k * 137 + 137 <= |img| && |r| == 137
    ensures |result| == |img|
  {
    img[..k * 137] + r + img[k * 137 + 137..]
  }

  lemma RecordAfterReplace(img: Image, k: nat, r: seq<byte>, j: nat)
    requires k * 137 + 137 <= |img| && |r| == 137 && j * 137 + 137 <= |img|
    ensures Record(ReplaceRecord(img, k, r), j) == if j == k then r else Record(img, j)
  {
    var after := ReplaceRecord(img, k, r);
    if j < k {
      assert j * 137 + 137 <= k * 137;
    } else if j > k {
      assert j * 137 >= k * 137 + 137;
    }
    assert forall i :: 0 <= i < 137 ==> Record(after, j)[i] == if j == k then r[i] else Record(img, j)[i];
  }

  // ---- framing bytes -------------------------------------------------------

  /** `track | 0x80` as stored in one byte. */
  function TrackByte(track: nat): byte {
    track % 128 + 128
  }

  /** `(physSector * 17) & 31`. */
  function SectorId(phys: nat): byte {
    phys * 17 % 32
  }

  function Payload(p: DiskParams, k: nat, r: seq<byte>): (data: seq<byte>)
    requires |r| == 137
    ensures |data| == 128
  {
    var off := DataOffset(p, k / 32);
    r[off..off + 128]
  }

  /** Sum over a data-track record that its checksum byte stores modulo 256. */
  function DataTrackSum(r: seq<byte>): nat
    requires |r| == 137
  {
    Sum(r[7..135]) + r[2] + r[3] + r[5] + r[6]
  }

  function BootFrame(track: nat, r: seq<byte>, data: seq<byte>): (f: seq<byte>)
    requires |r| == 137 && |data| == 128
    ensures |f| == 137
  {
    [TrackByte(track)] + r[1..3] + data + [255, Sum(data) % 256] + r[133..]
  }

  function DataFrame(track: nat, phys: nat, r: seq<byte>, data: seq<byte>): (f: seq<byte>)
    requires |r| == 137 && |data| == 128
    ensures |f| == 137
  {
    [TrackByte(track), SectorId(phys)] + r[2..4] + [(Sum(data) + r[2] + r[3] + r[5] + r[6]) % 256]
      + r[5..7] + data + [255, 0]
  }

  lemma BootFrameBytes(track: nat, r: seq<byte>, data: seq<byte>)
    requires |r| == 137 && |data| == 128
    ensures var f := BootFrame(track, r, data);
            && f[0] == TrackByte(track) && f[131] == 255 && f[132] == Sum(data) % 256
            && (forall i :: 3 <= i < 131 ==> f[i] == data[i - 3])
            && (forall i :: 0 < i < 137 && !(3 <= i < 133) ==> f[i] == r[i])
  {
  }

  lemma DataFrameBytes(track: nat, phys: nat, r: seq<byte>, data: seq<byte>)
    requires |r| == 137 && |data| == 128
    ensures var f := DataFrame(track, phys, r, data);
            && f[0] == TrackByte(track) && f[1] == SectorId(phys) && f[135] == 255 && f[136] == 0
            && f[4] == (Sum(data) + r[2] + r[3] + r[5] + r[6]) % 256
            && (forall i :: 7 <= i < 135 ==> f[i] == data[i - 7])
            && f[2] == r[2] && f[3] == r[3] && f[5] == r[5] && f[6] == r[6]
  {
  }

  /** What a sector write leaves in record k that held r before. */
  function Frame(p: DiskParams, k: nat, r: seq<byte>, data: seq<byte>): (f: seq<byte>)
    requires |r| == 137 && |data| == 128
    ensures |f| == 137
  {
    if k / 32 < SystemTracks(p) then BootFrame(k / 32, r, data) else DataFrame(k / 32, k % 32, r, data)
  }

  /** Record k carries the framing the controller expects of its track. */
  predicate WellFramed(p: DiskParams, k: nat, r: seq<byte>) {
    && |r| == 137
    && r[0] == TrackByte(k / 32)
    && if k / 32 < SystemTracks(p) then
         && r[BOOT_STOP_OFFSET] == 255
         && r[BOOT_CSUM_OFFSET] == Sum(r[3..131]) % 256
       else
         && r[DATA_SECT_OFFSET] == SectorId(k % 32)
         && r[DATA_STOP_OFFSET] == 255
         && r[DATA_END_OFFSET] == 0
         && r[DATA_CSUM_OFFSET] == DataTrackSum(r) % 256
  }

  ghost predicate Framed(p: DiskParams, img: Image)
    requires Fits(p, img)
  {
    forall k: nat :: k < p.tracks * 32 ==> WellFramed(p, k, Record(img, k))
  }

  /** A sector write produces a well-framed record that carries its data, whatever was there before. */
  lemma FrameCorrect(p: DiskParams, k: nat, r: seq<byte>, data: seq<byte>)
    requires |r| == 137 && |data| == 128
    ensures WellFramed(p, k, Frame(p, k, r, data))
    ensures Payload(p, k, Frame(p, k, r, data)) == data
  {
    var f := Frame(p, k, r, data);
    if k / 32 < SystemTracks(p) {
      assert f[3..131] == data;
    } else {
      assert f[7..135] == data;
      assert f[2] == r[2] && f[3] == r[3] && f[5] == r[5] && f[6] == r[6];
    }
  }

  lemma FramedAfterReplace(p: DiskParams, img: Image, k: nat, r: seq<byte>)
    requires Fits(p, img) && Framed(p, img)
    requires k * 137 + 137 <= |img| && WellFramed(p, k, r)
    ensures Framed(p, ReplaceRecord(img, k, r))
  {
    forall j: nat | j < p.tracks * 32
      ensures WellFramed(p, j, Record(ReplaceRecord(img, k, r), j))
    {
      RecordAfterReplace(img, k, r, j);
      assert WellFramed(p, j, Record(img, j));
    }
  }

  // ---- the image as CP/M sectors -------------------------------------------

  type Sectors = seq<seq<byte>>

  lemma RecordIndexFits(p: DiskParams, n: nat)
    requires p.boottrk <= p.tracks && n < SectorCount(p)
    ensures RecordIndex(p, n) < p.tracks * 32
    ensures RecordIndex(p, n) * 137 + 137 <= p.tracks * TRACK_SIZE
  {
    RecordOfTrack(p, p.boottrk + n / 32, n % 32);
  }

  function SectorAt(p: DiskParams, img: Image, n: nat): (data: seq<byte>)
    requires p.boottrk <= p.tracks && n < SectorCount(p) && Fits(p, img)
    ensures |data| == 128
  {
    RecordIndexFits(p, n);
    var k := RecordIndex(p, n);
    Payload(p, k, Record(img, k))
  }

  function SectorView(p: DiskParams, img: Image): (s: Sectors)
    requires p.boottrk <= p.tracks && Fits(p, img)
    ensures |s| == SectorCount(p)
    ensures forall n :: 0 <= n < |s| ==> |s[n]| == 128
  {
    FirstSectors(p, img, SectorCount(p))
  }

  function FirstSectors(p: DiskParams, img: Image, count: nat): (s: Sectors)
    requires p.boottrk <= p.tracks && Fits(p, img) && count <= SectorCount(p)
    ensures |s| == count
    ensures forall n :: 0 <= n < |s| ==> |s[n]| == 128
  {
    if count == 0 then [] else FirstSectors(p, img, count - 1) + [SectorAt(p, img, count - 1)]
  }

  lemma {:induction false} SectorOfFirst(p: DiskParams, img: Image, count: nat, n: nat)
    requires p.boottrk <= p.tracks && Fits(p, img) && n < count <= SectorCount(p)
    ensures FirstSectors(p, img, count)[n] == SectorAt(p, img, n)
  {
    if n < count - 1 { SectorOfFirst(p, img, count - 1, n); }
  }

  lemma SectorInView(p: DiskParams, img: Image, n: nat)
    requires p.boottrk <= p.tracks && Fits(p, img) && n < SectorCount(p)
    ensures SectorView(p, img)[n] == SectorAt(p, img, n)
  {
    SectorOfFirst(p, img, SectorCount(p), n);
  }

  /** Writing data to the record of CP/M sector n changes that sector and no other. */
  lemma SectorWriteIsolated(p: DiskParams, img: Image, n: nat, data: seq<byte>)
    requires p.boottrk <= p.tracks && Fits(p, img) && |data| == 128
    requires RecordIndex(p, n) * 137 + 137 <= |img|
    ensures var k := RecordIndex(p, n);
            SectorView(p, ReplaceRecord(img, k, Frame(p, k, Record(img, k), data)))
            == if n < SectorCount(p) then SectorView(p, img)[n := data] else SectorView(p, img)
  {
    var k := RecordIndex(p, n);
    var after := ReplaceRecord(img, k, Frame(p, k, Record(img, k), data));
    FrameCorrect(p, k, Record(img, k), data);
    forall m: nat | m < SectorCount(p)
      ensures SectorView(p, after)[m] == if m == n then data else SectorView(p, img)[m]
    {
      SectorInView(p, img, m);
      SectorInView(p, after, m);
      RecordIndexFits(p, m);
      RecordAfterReplace(img, k, Frame(p, k, Record(img, k), data), RecordIndex(p, m));
      if RecordIndex(p, m) == k {
        RecordIndexInjective(p, m, n);
      }
    }
  }

  /** The bytes of the reserved boot tracks. */
  function BootArea(p: DiskParams, img: Image): seq<byte>
    requires p.boottrk <= p.tracks && Fits(p, img)
  {
    img[..p.boottrk * TRACK_SIZE]
  }

  lemma SectorWriteKeepsBootArea(p: DiskParams, img: Image, n: nat, r: seq<byte>)
    requires p.boottrk <= p.tracks && Fits(p, img) && |r| == 137
    requires RecordIndex(p, n) * 137 + 137 <= |img|
    ensures BootArea(p, ReplaceRecord(img, RecordIndex(p, n), r)) == BootArea(p, img)
  {
    RecordIndexTrack(p, n);
    var k := RecordIndex(p, n);
    FrontKept(img, k, r, p.boottrk * TRACK_SIZE);
  }

  lemma FrontKept(img: Image, k: nat, r: seq<byte>, n: nat)
    requires k * 137 + 137 <= |img| && |r| == 137 && n <= k * 137
    ensures ReplaceRecord(img, k, r)[..n] == img[..n]
  {
  }

  // ---- formatting ----------------------------------------------------------

  const FORMAT_FILL: byte := 0xE5

  /** Record k of a freshly formatted image. */
  function FormatRecord(p: DiskParams, k: nat): (r: seq<byte>)
    ensures |r| == 137
  {
    var csum: int := 0xE5 * 128 % 256;
    if k / 32 < SystemTracks(p) then
      [TrackByte(k / 32), 0, 1] + Repeat(FORMAT_FILL, 128) + [255, csum, 0, 0, 0, 0]
    else
      [TrackByte(k / 32), SectorId(k % 32), 1, FORMAT_FILL, (csum + 1 + 3 * 0xE5) % 256, FORMAT_FILL, FORMAT_FILL]
        + Repeat(FORMAT_FILL, 128) + [255, 0]
  }

  lemma FormatRecordBytes(p: DiskParams, k: nat)
    ensures var r := FormatRecord(p, k);
            && r[0] == TrackByte(k / 32)
            && if k / 32 < SystemTracks(p) then
                 && r[1] == 0 && r[2] == 1 && r[131] == 255 && r[132] == 128
                 && (forall i :: 3 <= i < 131 ==> r[i] == FORMAT_FILL)
                 && (forall i :: 133 <= i < 137 ==> r[i] == 0)
               else
                 && r[1] == SectorId(k % 32) && r[2] == 1 && r[4] == (128 + 1 + 3 * 0xE5) % 256 && r[135] == 255 && r[136] == 0
                 && (forall i :: 5 <= i < 135 || i == 3 ==> r[i] == FORMAT_FILL)
  {
  }

  lemma {:induction false} SumOfFill(n: nat)
    ensures Sum(Repeat(FORMAT_FILL, n)) == 0xE5 * n
  {
    if n > 0 {
      assert Repeat(FORMAT_FILL, n)[..n - 1] == Repeat(FORMAT_FILL, n - 1);
      SumOfFill(n - 1);
    }
  }

  /** Formatting leaves the right framing on either kind of track, and 0xE5 for data. */
  lemma FormatRecordCorrect(p: DiskParams, k: nat)
    ensures WellFramed(p, k, FormatRecord(p, k))
    ensures Payload(p, k, FormatRecord(p, k)) == Repeat(FORMAT_FILL, 128)
  {
    SumOfFill(128);
    var r := FormatRecord(p, k);
    if k / 32 < SystemTracks(p) {
      assert r[3..131] == Repeat(FORMAT_FILL, 128);
    } else {
      assert r[7..135] == Repeat(FORMAT_FILL, 128);
    }
  }

  ghost predicate Formatted(p: DiskParams, img: Image) {
    Fits(p, img) && forall k: nat :: k < p.tracks * 32 ==> Record(img, k) == FormatRecord(p, k)
  }

  lemma FormattedIsFramed(p: DiskParams, img: Image)
    requires Formatted(p, img)
    ensures Framed(p, img)
  {
    forall k: nat | k < p.tracks * 32
      ensures WellFramed(p, k, Record(img, k))
    {
      FormatRecordCorrect(p, k);
    }
  }

  lemma FormattedSectors(p: DiskParams, img: Image, n: nat)
    requires Formatted(p, img) && p.boottrk <= p.tracks && n < SectorCount(p)
    ensures SectorView(p, img)[n] == Repeat(0xE5, 128)
  {
    RecordIndexFits(p, n);
    FormatRecordCorrect(p, RecordIndex(p, n));
    SectorInView(p, img, n);
  }

  // ---- what the controller finds -------------------------------------------

  /**
   The bytes of a record after a sector write, whatever it held: the track
   under a set top bit first, then, on a boot track, the data from byte 3, a
   stop byte and the sum of the data; on a data track the sector number, from
   which 17 times gives the physical sector back, the sum over data and
   preserved bytes, the data from byte 7, a stop byte and a zero.
   */
  lemma FrameLayout(p: DiskParams, k: nat, r: seq<byte>, data: seq<byte>)
    requires |r| == 137 && |data| == 128 && k / 32 < 128
    ensures var f := Frame(p, k, r, data);
            && f[0] == 128 + k / 32
            && if k / 32 < SystemTracks(p) then
                 && f[3..131] == data && f[131] == 255 && f[132] == Sum(data) % 256
                 && f[1..3] == r[1..3] && f[133..] == r[133..]
               else
                 && f[1] < 32 && (f[1] as int) * 17 % 32 == k % 32 && f[7..135] == data && f[135] == 255 && f[136] == 0
                 && f[4] == (Sum(data) + f[2] + f[3] + f[5] + f[6]) % 256
                 && f[2..4] == r[2..4] && f[5..7] == r[5..7]
  {
    if k / 32 < SystemTracks(p) {
      BootFrameBytes(k / 32, r, data);
    } else {
      DataFrameBytes(k / 32, k % 32, r, data);
      SectorFromId(k % 32);
    }
  }

  lemma SectorFromId(phys: nat)
    requires phys < 32
    ensures (SectorId(phys) as int) * 17 % 32 == phys
  {
    var id: nat, d := phys * 17 % 32, phys * 17 / 32;
    assert id * 17 == phys + 32 * (9 * phys - 17 * d);
    ModuloOfSum(phys, 9 * phys - 17 * d);
  }

  lemma ModuloOfSum(r: nat, q: int)
    requires r < 32
    ensures (r + 32 * q) % 32 == r
  {
  }
}
