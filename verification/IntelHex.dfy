/** Intel HEX files made into a memory image. */
module IntelHex {
  import opened Bytes

  // ---- records as lines ----------------------------------------------------

  datatype Record = Record(address: word, kind: byte, data: seq<byte>)

  function DigitValue(c: char): Option<nat> {
    if '0' <= c <= '9' then Some(c as nat - '0' as nat)
    else if 'A' <= c <= 'F' then Some(c as nat - 'A' as nat + 10)
    else if 'a' <= c <= 'f' then Some(c as nat - 'a' as nat + 10)
    else None
  }

  lemma DigitBelow16(c: char)
    ensures DigitValue(c).Some? ==> DigitValue(c).value < 16
  {
  }

  function Digit(n: nat): (c: char)
    requires n < 16
    ensures DigitValue(c) == Some(n)
  {
    if n < 10 then (n + '0' as nat) as char else (n - 10 + 'A' as nat) as char
  }

  /** Two hexadecimal digits at a position. */
  predicate HexAt(line: string, i: nat) {
    i + 1 < |line| && DigitValue(line[i]).Some? && DigitValue(line[i + 1]).Some?
  }

  function ByteAt(line: string, i: nat): byte
    requires HexAt(line, i)
  {
    DigitBelow16(line[i]);
    DigitBelow16(line[i + 1]);
    DigitValue(line[i]).value * 16 + DigitValue(line[i + 1]).value
  }

  /** A colon, then pairs of digits for count, address, kind, as many data bytes as counted, and checksum. */
  predicate WellFormed(line: string) {
    && line != "" && line[0] == ':' && HexAt(line, 1)
    && forall k: nat :: k < ByteAt(line, 1) + 5 ==> HexAt(line, 1 + 2 * k)
  }

  /** The bytes a well-formed line spells, checksum included. */
  function LineBytes(line: string): (r: seq<byte>)
    requires WellFormed(line)
    ensures |r| == (ByteAt(line, 1) as int) + 5 && r[0] == ByteAt(line, 1)
  {
    seq(ByteAt(line, 1) + 5, k requires 0 <= k < ByteAt(line, 1) + 5 => ByteAt(line, 1 + 2 * k))
  }

  function RecordBytes(r: Record): seq<byte>
    requires |r.data| < 256
  {
    [|r.data|, Msb(r.address), Lsb(r.address), r.kind] + r.data
  }

  /** The two's complement of the sum of the other bytes. */
  function LineChecksum(bytes: seq<byte>): byte {
    Complement(Sum(bytes))
  }

  function Complement(sum: nat): byte {
    (256 - sum % 256) % 256
  }

  function Spelled(bytes: seq<byte>): string {
    if bytes == [] then "" else Spelled(bytes[..|bytes| - 1]) + [Digit(bytes[|bytes| - 1] / 16), Digit(bytes[|bytes| - 1] % 16)]
  }

  function LineOf(r: Record): string
    requires |r.data| < 256
  {
    ":" + Spelled(RecordBytes(r) + [LineChecksum(RecordBytes(r))])
  }

  datatype HexError = ChecksumError(line: nat) | NoData | BadAddress

  predicate IsRecordLine(line: string) {
    line != "" && line[0] == ':'
  }

  predicate BadLine(line: string)
    requires WellFormed(line)
  {
    var b := LineBytes(line);
    b[|b| - 1] != LineChecksum(b[..|b| - 1])
  }

  /** The line spells this record, with a right checksum. */
  predicate Spells(line: string, r: Record)
    requires WellFormed(line)
  {
    BytesSpell(LineBytes(line), r)
  }

  predicate BytesSpell(b: seq<byte>, r: Record) {
    |r.data| < 256 && b == RecordBytes(r) + [LineChecksum(RecordBytes(r))]
  }

  /** The record of a line whose checksum is right. */
  method ParseLine(line: string) returns (r: Option<Record>)
    requires WellFormed(line)
    ensures r.Some? <==> !BadLine(line)
    ensures r.Some? ==> Spells(line, r.value)
  {
    var byteCount: nat := ByteAt(line, 1);
    var high, low, kind := ByteAt(line, 1 + 2 * 1), ByteAt(line, 1 + 2 * 2), ByteAt(line, 1 + 2 * 3);
    var checksum := ByteAt(line, 1 + 2 * (byteCount + 4));
    var data, sum := ReadData(line, byteCount);
    sum := sum + (byteCount as int) + (high as int) + (low as int) + (kind as int);
    PartsOfBytes(LineBytes(line), byteCount, high, low, kind, data, checksum, sum);
    if Complement(sum) != checksum {
      return None;
    }
    r := Some(Record(Word(low, high), kind, data));
  }

  /** The bytes are bad exactly when the sum of their parts does not match, and else are those of their record. */
  lemma PartsOfBytes(b: seq<byte>, byteCount: byte, high: byte, low: byte, kind: byte, data: seq<byte>, checksum: byte, sum: nat)
    requires |b| == (byteCount as int) + 5 && b[0] == byteCount && b[1] == high && b[2] == low && b[3] == kind
    requires data == b[4..|b| - 1] && checksum == b[|b| - 1]
    requires sum == Sum(data) + (byteCount as int) + (high as int) + (low as int) + (kind as int)
    ensures b[|b| - 1] != LineChecksum(b[..|b| - 1]) <==> Complement(sum) != checksum
    ensures Complement(sum) == checksum ==> BytesSpell(b, Record(Word(low, high), kind, data))
  {
    BytesOfParts(b, byteCount, high, low, kind, data, checksum);
    ChecksumOfSum(b[..|b| - 1], sum);
    if Complement(sum) == checksum {
      SpelledBy(b, Record(Word(low, high), kind, data));
    }
  }

  lemma ChecksumOfSum(bytes: seq<byte>, sum: nat)
    requires Sum(bytes) == sum
    ensures LineChecksum(bytes) == Complement(sum)
  {
  }

  lemma SpelledBy(b: seq<byte>, r: Record)
    requires |r.data| < 256 && b != [] && RecordBytes(r) == b[..|b| - 1] && b[|b| - 1] == LineChecksum(b[..|b| - 1])
    ensures BytesSpell(b, r)
  {
    assert b == b[..|b| - 1] + [b[|b| - 1]];
  }

  lemma BytesOfParts(b: seq<byte>, byteCount: byte, high: byte, low: byte, kind: byte, data: seq<byte>, checksum: byte)
    requires |b| == (byteCount as int) + 5 && b[0] == byteCount && b[1] == high && b[2] == low && b[3] == kind
    requires data == b[4..|b| - 1] && checksum == b[|b| - 1]
    ensures RecordBytes(Record(Word(low, high), kind, data)) == b[..|b| - 1]
    ensures b == b[..|b| - 1] + [checksum]
    ensures Sum(b[..|b| - 1]) == Sum(data) + (byteCount as int) + (high as int) + (low as int) + (kind as int)
  {
    HeadSum(byteCount, high, low, kind);
    assert b[..|b| - 1] == [byteCount, high, low, kind] + data;
    SumConcat([byteCount, high, low, kind], data);
  }

  /** The data bytes of a line, and their sum. */
  method ReadData(line: string, byteCount: nat) returns (data: seq<byte>, sum: nat)
    requires WellFormed(line) && byteCount == ByteAt(line, 1)
    ensures data == LineBytes(line)[4..|LineBytes(line)| - 1] && sum == Sum(data)
  {
    ghost var b := LineBytes(line);
    data, sum := [], 0;
    for i := 0 to byteCount
      invariant data == b[4..4 + i] && sum == Sum(data)
    {
      var d := ByteAt(line, 1 + 2 * (4 + i));
      assert d == b[4 + i];
      assert (data + [d])[..|data|] == data;
      data, sum := data + [d], sum + d;
    }
  }

  lemma HeadSum(a: byte, b: byte, c: byte, d: byte)
    ensures Sum([a, b, c, d]) == (a as int) + (b as int) + (c as int) + (d as int)
  {
    assert [a][..0] == [];
    assert Sum([a]) == a;
    assert [a, b][..1] == [a];
    assert Sum([a, b]) == (a as int) + (b as int);
    assert [a, b, c][..2] == [a, b];
    assert Sum([a, b, c]) == (a as int) + (b as int) + (c as int);
    assert [a, b, c, d][..3] == [a, b, c];
  }

  // ---- the image -----------------------------------------------------------

  /** Data at an absolute address. */
  datatype Piece = Piece(address: int, data: seq<byte>)

  /** A 32-bit signed shift, as the program computes it. */
  function ToInt32(n: nat): int {
    var w := n % 0x1_0000_0000;
    if w >= 0x8000_0000 then w - 0x1_0000_0000 else w
  }

  /** The first two data bytes as the value of an address record; of more, the value is read whole. */
  function DataValue(data: seq<byte>): nat {
    if data == [] then 0 else DataValue(data[..|data| - 1]) * 256 + data[|data| - 1]
  }

  /** The base address after a record. */
  function NextBase(base: int, r: Record): int {
    if r.kind == 2 then ToInt32(DataValue(r.data) * 16)
    else if r.kind == 4 then ToInt32(DataValue(r.data) * 65536)
    else base
  }

  function BaseAfter(rs: seq<Record>): int {
    if rs == [] then 0 else NextBase(BaseAfter(rs[..|rs| - 1]), rs[|rs| - 1])
  }

  /** The data records at their absolute addresses, in file order; what follows an end record counts too. */
  function Pieces(rs: seq<Record>): seq<Piece> {
    if rs == [] then []
    else
      var before, r := rs[..|rs| - 1], rs[|rs| - 1];
      Pieces(before) + if r.kind == 0 then [Piece(BaseAfter(before) + r.address, r.data)] else []
  }

  function EndOf(p: Piece): int {
    p.address + |p.data|
  }

  predicate Covers(p: Piece, a: int) {
    p.address <= a < EndOf(p)
  }

  /** The byte of the last piece covering an address, or zero. */
  function LastByte(ps: seq<Piece>, a: int): byte {
    if ps == [] then 0
    else if Covers(ps[|ps| - 1], a) then ps[|ps| - 1].data[a - ps[|ps| - 1].address]
    else LastByte(ps[..|ps| - 1], a)
  }

  /** One past the highest address. */
  function Top(ps: seq<Piece>): nat {
    if ps == [] then 0
    else if EndOf(ps[|ps| - 1]) > Top(ps[..|ps| - 1]) then EndOf(ps[|ps| - 1]) else Top(ps[..|ps| - 1])
  }

  /** The records of the record lines; other lines are skipped. */
  ghost predicate ReadsAs(lines: seq<string>, rs: seq<Record>) {
    if lines == [] then rs == []
    else
      var last := lines[|lines| - 1];
      if !IsRecordLine(last) then ReadsAs(lines[..|lines| - 1], rs)
      else
        && WellFormed(last) && rs != [] && Spells(last, rs[|rs| - 1])
        && ReadsAs(lines[..|lines| - 1], rs[..|rs| - 1])
  }

  ghost predicate RecordLinesWellFormed(lines: seq<string>) {
    forall i :: 0 <= i < |lines| && IsRecordLine(lines[i]) ==> WellFormed(lines[i])
  }

  /** The lines before this one read as records, and its checksum is wrong. */
  ghost predicate StopsAt(lines: seq<string>, line: nat)
    requires RecordLinesWellFormed(lines)
  {
    line < |lines| && IsRecordLine(lines[line]) && BadLine(lines[line]) && exists rs :: ReadsAs(lines[..line], rs)
  }

  /** The memory image of data records: at each address the last byte written to it, or zero. */
  ghost predicate IsImageOf(image: seq<byte>, rs: seq<Record>) {
    && Pieces(rs) != [] && |image| == Top(Pieces(rs))
    && forall a :: 0 <= a < |image| ==> image[a] == LastByte(Pieces(rs), a)
  }

  predicate BelowZero(ps: seq<Piece>) {
    exists i :: 0 <= i < |ps| && ps[i].address < 0
  }

  /** What parsing makes of lines that read as these records. */
  ghost predicate Parsed(rs: seq<Record>, r: Result<seq<byte>, HexError>) {
    match r
    case Ok(image) => IsImageOf(image, rs) && !BelowZero(Pieces(rs))
    case Err(NoData) => Pieces(rs) == []
    case Err(BadAddress) => BelowZero(Pieces(rs))
    case Err(ChecksumError(_)) => false
  }

  /** Parses the trimmed lines of a file. */
  method ParseIntelHex(lines: seq<string>) returns (r: Result<seq<byte>, HexError>)
    requires RecordLinesWellFormed(lines)
    ensures if r.Err? && r.error.ChecksumError? then StopsAt(lines, r.error.line)
            else exists rs :: ReadsAs(lines, rs) && Parsed(rs, r)
  {
    var bad, pieces, top, rs := Scan(lines);
    if bad.Some? {
      return Err(ChecksumError(bad.value));
    }
    if |pieces| == 0 {
      r := Err(NoData);
    } else {
      r := Assemble(pieces, top);
    }
    assert ReadsAs(lines, rs) && Parsed(rs, r);
  }

  /** Reads the lines up to the first with a wrong checksum. */
  method Scan(lines: seq<string>) returns (bad: Option<nat>, pieces: seq<Piece>, top: nat, ghost rs: seq<Record>)
    requires RecordLinesWellFormed(lines)
    ensures bad.Some? ==> bad.value < |lines| && IsRecordLine(lines[bad.value]) && BadLine(lines[bad.value])
    ensures bad.Some? ==> ReadsAs(lines[..bad.value], rs)
    ensures bad.None? ==> ReadsAs(lines, rs) && pieces == Pieces(rs) && top == Top(pieces)
  {
    var base: int := 0;
    bad, pieces, top, rs := None, [], 0, [];
    assert lines[..0] == [];
    for i := 0 to |lines|
      invariant bad.None? && Accumulated(lines[..i], rs, pieces, base, top)
    {
      assert lines[..i + 1] == lines[..i] + [lines[i]];
      if IsRecordLine(lines[i]) {
        var record := ParseLine(lines[i]);
        if record.None? {
          return Some(i), pieces, top, rs;
        }
        pieces, top, base, rs := AddRecord(lines[..i], lines[i], rs, pieces, top, base, record.value);
      } else {
        Skipped(lines[..i], lines[i], rs, pieces, base, top);
      }
    }
    assert lines[..|lines|] == lines;
  }

  lemma Skipped(lines: seq<string>, line: string, rs: seq<Record>, pieces: seq<Piece>, base: int, top: nat)
    requires Accumulated(lines, rs, pieces, base, top) && !IsRecordLine(line)
    ensures Accumulated(lines + [line], rs, pieces, base, top)
  {
    assert (lines + [line])[..|lines|] == lines;
  }

  method AddRecord(ghost lines: seq<string>, ghost line: string, ghost rs: seq<Record>, pieces: seq<Piece>, top: nat, base: int, r: Record)
    returns (after: seq<Piece>, newTop: nat, next: int, ghost records: seq<Record>)
    requires Accumulated(lines, rs, pieces, base, top) && IsRecordLine(line) && WellFormed(line) && Spells(line, r)
    ensures Accumulated(lines + [line], records, after, next, newTop) && records == rs + [r]
  {
    OneMore(lines, line, rs, r, pieces, base, top);
    after, newTop, records := pieces, top, rs + [r];
    if r.kind == 0 {
      var piece := Piece(base + r.address, r.data);
      after := pieces + [piece];
      newTop := if EndOf(piece) > top then EndOf(piece) else top;
    }
    next := NextBase(base, r);
  }

  /** What the scan has gathered from the lines so far. */
  ghost predicate Accumulated(lines: seq<string>, rs: seq<Record>, pieces: seq<Piece>, base: int, top: nat) {
    ReadsAs(lines, rs) && pieces == Pieces(rs) && base == BaseAfter(rs) && top == Top(pieces)
  }

  lemma OneMore(lines: seq<string>, line: string, rs: seq<Record>, r: Record, pieces: seq<Piece>, base: int, top: nat)
    requires Accumulated(lines, rs, pieces, base, top) && IsRecordLine(line) && WellFormed(line) && Spells(line, r)
    ensures var piece := Piece(base + r.address, r.data);
            Accumulated(lines + [line], rs + [r], if r.kind == 0 then pieces + [piece] else pieces, NextBase(base, r),
                        if r.kind == 0 && EndOf(piece) > top then EndOf(piece) else top)
  {
    var piece := Piece(base + r.address, r.data);
    assert (rs + [r])[..|rs|] == rs && (lines + [line])[..|lines|] == lines;
    assert (pieces + [piece])[..|pieces|] == pieces;
    assert pieces + [] == pieces;
  }

  /** Copies the pieces into zeroed memory, in order. */
  method Assemble(pieces: seq<Piece>, top: nat) returns (r: Result<seq<byte>, HexError>)
    requires top == Top(pieces)
    ensures r.Ok? || r == Err(BadAddress)
    ensures r.Err? <==> BelowZero(pieces)
    ensures r.Ok? ==> |r.value| == top && forall a :: 0 <= a < top ==> r.value[a] == LastByte(pieces, a)
  {
    var binary := new byte[top](_ => 0);
    for i := 0 to |pieces|
      invariant forall k :: 0 <= k < i ==> pieces[k].address >= 0
      invariant forall a :: 0 <= a < top ==> binary[a] == LastByte(pieces[..i], a)
    {
      if pieces[i].address < 0 {
        return Err(BadAddress);
      }
      TopBounds(pieces, i);
      assert pieces[..i + 1][..i] == pieces[..i];
      CopyInto(binary, pieces[i]);
    }
    assert pieces[..|pieces|] == pieces;
    return Ok(binary[..]);
  }

  method CopyInto(binary: array<byte>, p: Piece)
    requires 0 <= p.address && EndOf(p) <= binary.Length
    modifies binary
    ensures forall a :: 0 <= a < binary.Length ==> binary[a] == if Covers(p, a) then p.data[a - p.address] else old(binary[a])
  {
    for k := 0 to |p.data|
      invariant forall a :: 0 <= a < binary.Length ==>
                  binary[a] == if p.address <= a < p.address + k then p.data[a - p.address] else old(binary[a])
    {
      binary[p.address + k] := p.data[k];
    }
  }

  lemma {:induction false} TopBounds(ps: seq<Piece>, i: nat)
    requires i < |ps|
    ensures EndOf(ps[i]) <= Top(ps)
  {
    if i < |ps| - 1 {
      assert ps[..|ps| - 1][i] == ps[i];
      TopBounds(ps[..|ps| - 1], i);
    }
  }

  /** What LastByte means: the byte of a covering piece that no later piece covers, and zero where none does. */
  lemma {:induction false} LastByteIsLast(ps: seq<Piece>, a: int, i: nat)
    requires i < |ps| && ps[i].address <= a < ps[i].address + |ps[i].data|
    requires forall k :: i < k < |ps| ==> a < ps[k].address || ps[k].address + |ps[k].data| <= a
    ensures LastByte(ps, a) == ps[i].data[a - ps[i].address]
  {
    if i < |ps| - 1 {
      assert ps[..|ps| - 1][i] == ps[i];
      LastByteIsLast(ps[..|ps| - 1], a, i);
    }
  }

  lemma {:induction false} UncoveredIsZero(ps: seq<Piece>, a: int)
    requires forall k :: 0 <= k < |ps| ==> a < ps[k].address || ps[k].address + |ps[k].data| <= a
    ensures LastByte(ps, a) == 0
  {
    if ps != [] {
      UncoveredIsZero(ps[..|ps| - 1], a);
    }
  }

  // ---- round trip ----------------------------------------------------------

  lemma {:induction false} SpelledHex(bytes: seq<byte>, k: nat)
    requires k < |bytes|
    ensures |Spelled(bytes)| == 2 * |bytes|
    ensures HexAt(Spelled(bytes), 2 * k) && ByteAt(Spelled(bytes), 2 * k) == bytes[k]
  {
    var front := bytes[..|bytes| - 1];
    SpelledLength(front);
    if k < |bytes| - 1 {
      SpelledHex(front, k);
    }
  }

  lemma {:induction false} SpelledLength(bytes: seq<byte>)
    ensures |Spelled(bytes)| == 2 * |bytes|
  {
    if bytes != [] { SpelledLength(bytes[..|bytes| - 1]); }
  }

  /** A line made of a record spells that record, with a right checksum. */
  lemma LineRoundTrip(r: Record)
    requires |r.data| < 256
    ensures WellFormed(LineOf(r)) && !BadLine(LineOf(r)) && Spells(LineOf(r), r)
  {
    var bytes, line := RecordBytes(r) + [LineChecksum(RecordBytes(r))], LineOf(r);
    forall k: nat | k < |bytes|
      ensures HexAt(line, 1 + 2 * k) && ByteAt(line, 1 + 2 * k) == bytes[k]
    {
      SpelledHex(bytes, k);
    }
    assert HexAt(line, 1 + 2 * 0) && ByteAt(line, 1 + 2 * 0) == bytes[0];
    assert LineBytes(line) == bytes;
    assert bytes[..|bytes| - 1] == RecordBytes(r);
  }

  /** A line spells one record at most. */
  lemma SpelledRecordIsUnique(line: string, r: Record, q: Record)
    requires WellFormed(line) && Spells(line, r) && Spells(line, q)
    ensures r == q
  {
    assert RecordBytes(r) == LineBytes(line)[..|LineBytes(line)| - 1] == RecordBytes(q);
    assert RecordBytes(r)[4..] == r.data && RecordBytes(q)[4..] == q.data;
    assert RecordBytes(r)[1] == RecordBytes(q)[1] && RecordBytes(r)[2] == RecordBytes(q)[2] && RecordBytes(r)[3] == RecordBytes(q)[3];
    assert Word(Lsb(r.address), Msb(r.address)) == Word(Lsb(q.address), Msb(q.address));
  }

  /** Lines read as one list of records at most. */
  lemma {:induction false} RecordsAreUnique(lines: seq<string>, rs: seq<Record>, qs: seq<Record>)
    requires ReadsAs(lines, rs) && ReadsAs(lines, qs)
    ensures rs == qs
  {
    if lines != [] {
      var last := lines[|lines| - 1];
      if IsRecordLine(last) {
        SpelledRecordIsUnique(last, rs[|rs| - 1], qs[|qs| - 1]);
        RecordsAreUnique(lines[..|lines| - 1], rs[..|rs| - 1], qs[..|qs| - 1]);
        assert rs == rs[..|rs| - 1] + [rs[|rs| - 1]] && qs == qs[..|qs| - 1] + [qs[|qs| - 1]];
      } else {
        RecordsAreUnique(lines[..|lines| - 1], rs, qs);
      }
    }
  }

  ghost predicate ShortRecords(rs: seq<Record>) {
    forall i :: 0 <= i < |rs| ==> |rs[i].data| < 256
  }

  ghost function LinesOf(rs: seq<Record>): seq<string>
    requires ShortRecords(rs)
  {
    if rs == [] then [] else LinesOf(rs[..|rs| - 1]) + [LineOf(rs[|rs| - 1])]
  }

  /** A file written from records reads as those records. */
  lemma {:induction false} FileRoundTrip(rs: seq<Record>)
    requires ShortRecords(rs)
    ensures RecordLinesWellFormed(LinesOf(rs)) && ReadsAs(LinesOf(rs), rs)
  {
    if rs != [] {
      var front, last := rs[..|rs| - 1], rs[|rs| - 1];
      FileRoundTrip(front);
      LineRoundTrip(last);
      assert (LinesOf(front) + [LineOf(last)])[..|LinesOf(front)|] == LinesOf(front);
    }
  }

  // ---- the format ----------------------------------------------------------

  /** The hexadecimal digits, in either case. */
  lemma HexDigits(k: nat)
    requires k < 16
    ensures Digit(k) == "0123456789ABCDEF"[k]
    ensures DigitValue("0123456789ABCDEF"[k]) == Some(k) && DigitValue("0123456789abcdef"[k]) == Some(k)
  {
  }

  /** Of a good line all bytes add up to zero in eight bits, of a bad line they do not. */
  lemma GoodLineSumsToZero(line: string)
    requires WellFormed(line)
    ensures !BadLine(line) <==> Sum(LineBytes(line)) % 256 == 0
  {
    var b := LineBytes(line);
    ComplementCloses(Sum(b[..|b| - 1]), b[|b| - 1]);
  }

  lemma ComplementCloses(sum: nat, last: byte)
    ensures last == Complement(sum) <==> (sum + last) % 256 == 0
  {
  }

  /** The bytes a line spells for its record: how many, the address high byte first, the kind, the data. */
  lemma LineLayout(line: string, r: Record)
    requires WellFormed(line) && Spells(line, r)
    ensures var b := LineBytes(line);
            && |b| == |r.data| + 5 && b[0] == |r.data| && (b[1] as int) * 256 + (b[2] as int) == r.address && b[3] == r.kind
            && b[4..4 + |r.data|] == r.data
  {
  }

  /** An address record of kind 2 gives bits 4 to 19 of the base, one of kind 4 its bits 16 to 30 and the sign; no other kind moves it. */
  lemma AddressRecords(base: int, r: Record, high: byte, low: byte)
    requires r.data == [high, low]
    ensures r.kind == 2 ==> NextBase(base, r) == ((high as int) * 256 + (low as int)) * 16
    ensures r.kind == 4 ==> NextBase(base, r) == ((high as int) * 256 + (low as int)) * 65536 - if high >= 128 then 0x1_0000_0000 else 0
    ensures r.kind != 2 && r.kind != 4 ==> NextBase(base, r) == base
  {
    assert [high, low][..1] == [high] && [high][..0] == [];
    assert DataValue([high]) == high;
    assert DataValue([high, low]) == (high as int) * 256 + (low as int);
  }

  /** The end of the image is the highest end of a data record. */
  lemma {:induction false} TopIsHighest(ps: seq<Piece>)
    ensures forall i :: 0 <= i < |ps| ==> EndOf(ps[i]) <= Top(ps)
    ensures Top(ps) == 0 || exists i :: 0 <= i < |ps| && EndOf(ps[i]) == Top(ps)
  {
    if ps != [] {
      var front := ps[..|ps| - 1];
      TopIsHighest(front);
      assert forall i :: 0 <= i < |front| ==> front[i] == ps[i];
      if Top(ps) != 0 && EndOf(ps[|ps| - 1]) != Top(ps) {
        var i :| 0 <= i < |front| && EndOf(front[i]) == Top(front);
        assert EndOf(ps[i]) == Top(ps);
      }
    }
  }

  /** Lines that do not begin with a colon count for nothing. */
  lemma OtherLinesAreSkipped(lines: seq<string>, line: string, rs: seq<Record>)
    requires line == "" || line[0] != ':'
    ensures RecordLinesWellFormed(lines + [line]) <==> RecordLinesWellFormed(lines)
    ensures ReadsAs(lines + [line], rs) <==> ReadsAs(lines, rs)
  {
    assert (lines + [line])[..|lines|] == lines;
    if RecordLinesWellFormed(lines + [line]) {
      forall i | 0 <= i < |lines| && IsRecordLine(lines[i])
        ensures WellFormed(lines[i])
      {
        assert (lines + [line])[i] == lines[i];
      }
    }
  }

  predicate MovesBase(r: Record) {
    r.kind == 2 || r.kind == 4
  }

  /** The base is zero up to the first address record, and then what the last one so far made it. */
  lemma {:induction false} BaseIsLastSet(rs: seq<Record>, i: nat)
    requires i <= |rs| && forall k :: i <= k < |rs| ==> !MovesBase(rs[k])
    ensures i == 0 ==> BaseAfter(rs) == 0
    ensures i > 0 && MovesBase(rs[i - 1]) ==> BaseAfter(rs) == NextBase(0, rs[i - 1])
    decreases |rs|
  {
    if i < |rs| { BaseIsLastSet(rs[..|rs| - 1], i); }
  }

  /** A data record covers the addresses from the base before it on; one below zero is an error. */
  lemma {:induction false} PiecesAre(rs: seq<Record>, r: Record)
    ensures Pieces(rs + [r]) == Pieces(rs) + if r.kind == 0 then [Piece(BaseAfter(rs) + r.address, r.data)] else []
    ensures !BelowZero(Pieces(rs)) <==> forall i :: 0 <= i < |Pieces(rs)| ==> Pieces(rs)[i].address >= 0
  {
    assert (rs + [r])[..|rs|] == rs;
  }
}
