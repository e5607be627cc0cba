/** The controller's commands: blocks on the wire, and what STAT, READ and WRIT do to the drives. */
module FdcServer {
  import opened Bytes
  import opened FileStore
  import opened DriveSession
  import Engine = DriveManager
  import TrackRuns
  import opened Wire

  // ---- command blocks ------------------------------------------------------

  /** A command or response: four ASCII characters and two words. */
  datatype Block = Block(cmd: seq<byte>, param1: word, param2: word)

  predicate WellFormed(b: Block) {
    |b.cmd| == 4 && forall i :: 0 <= i < 4 ==> b.cmd[i] < 128
  }

  const STAT: seq<byte> := [0x53, 0x54, 0x41, 0x54]
  const READ: seq<byte> := [0x52, 0x45, 0x41, 0x44]
  const WRIT: seq<byte> := [0x57, 0x52, 0x49, 0x54]
  const WSTA: seq<byte> := [0x57, 0x53, 0x54, 0x41]

  function ToBuffer(b: Block): (r: seq<byte>)
    requires |b.cmd| == 4
    ensures |r| == 8
  {
    b.cmd + [Lsb(b.param1), Msb(b.param1), Lsb(b.param2), Msb(b.param2)]
  }

  /** Decoding as ASCII drops the high bit of each character. */
  function FromBuffer(buffer: seq<byte>): (r: Result<Block, int>)
    ensures r.Ok? <==> |buffer| >= 8
    ensures r.Ok? ==> WellFormed(r.value)
  {
    if |buffer| < 8 then Err(|buffer|)
    else
      Ok(Block([buffer[0] % 128, buffer[1] % 128, buffer[2] % 128, buffer[3] % 128], Word(buffer[4], buffer[5]), Word(buffer[6], buffer[7])))
  }

  lemma BlockRoundTrip(b: Block)
    requires WellFormed(b)
    ensures FromBuffer(ToBuffer(b)) == Ok(b)
  {
    var r := FromBuffer(ToBuffer(b)).value;
    assert r.cmd == b.cmd;
  }

  /** Decoding and encoding again gives the eight bytes back but for the high bits of the first four. */
  lemma BufferRoundTrip(buffer: seq<byte>)
    requires |buffer| == 8
    ensures var again := ToBuffer(FromBuffer(buffer).value);
            forall i :: 0 <= i < 8 ==> again[i] == if i < 4 then buffer[i] % 128 else buffer[i]
  {
  }

  /** The eight bytes of a block: four characters and two words, low byte first. */
  lemma BlockLayout(buffer: seq<byte>)
    requires |buffer| == 8
    ensures var b := FromBuffer(buffer).value;
            && |b.cmd| == 4 && (forall i :: 0 <= i < 4 ==> b.cmd[i] == buffer[i] % 128)
            && b.param1 as int == (buffer[4] as int) + 256 * (buffer[5] as int)
            && b.param2 as int == (buffer[6] as int) + 256 * (buffer[7] as int)
  {
  }

  /** The commands are spelled as their names. */
  lemma CommandNames()
    ensures |STAT| == |READ| == |WRIT| == |WSTA| == 4
    ensures forall i :: 0 <= i < 4 ==>
              STAT[i] == "STAT"[i] as nat && READ[i] == "READ"[i] as nat && WRIT[i] == "WRIT"[i] as nat && WSTA[i] == "WSTA"[i] as nat
  {
  }

  // ---- the status word -----------------------------------------------------

  predicate BitOf(w: nat, i: nat)
    decreases i
  {
    if i == 0 then w % 2 == 1 else BitOf(w / 2, i - 1)
  }

  /** Adding a power of two above a number sets that bit and no other. */
  lemma {:induction false} AddTopBit(w: nat, n: nat, i: nat)
    requires w < Power2(n)
    ensures BitOf(w + Power2(n), i) <==> i == n || BitOf(w, i)
    ensures i >= n ==> !BitOf(w, i)
    decreases n, i
  {
    if n == 0 {
      assert w == 0;
      if i > 0 { ZeroHasNoBits(i - 1); }
    } else if i > 0 {
      assert (w + Power2(n)) / 2 == w / 2 + Power2(n - 1);
      AddTopBit(w / 2, n - 1, i - 1);
    }
  }

  lemma {:induction false} ZeroHasNoBits(i: nat)
    ensures !BitOf(0, i)
  {
    if i > 0 { ZeroHasNoBits(i - 1); }
  }

  // ---- handling ------------------------------------------------------------

  function Code(e: FdcError): word {
    match e
    case OK => 0
    case NOT_READY => 1
    case CHKSUM_ERR => 2
    case WRITE_ERR => 3
  }

  /** READ and WRIT name the drive in the top four bits and the track in the other twelve. */
  function DriveOf(param1: word): (r: nat)
    ensures r < MAX_DRIVES
  {
    Msb(param1) / 16
  }

  function TrackOf(param1: word): nat {
    param1 % 4096
  }

  /** Drive and track make up the word. */
  lemma DriveAndTrack(param1: word)
    ensures param1 == DriveOf(param1) * 4096 + TrackOf(param1) && TrackOf(param1) < 4096 && DriveOf(param1) < 16
  {
  }

  /** Zero is the code of success and of nothing else. */
  lemma CodesDiffer(e: FdcError)
    ensures (Code(e) == 0 <==> e == OK) && (Code(e) == 1 <==> e == NOT_READY)
    ensures (Code(e) == 2 <==> e == CHKSUM_ERR) && (Code(e) == 3 <==> e == WRITE_ERR)
  {
  }

  function AtTrack(bay: Engine.Bay, track: nat): Engine.Bay {
    bay.(state := bay.state.(track := track))
  }

  /** The drive, the files, the error code and the responses after a WRIT. */
  datatype Written = Written(bay: Engine.Bay, files: Files, errno: FdcError, sent: seq<seq<byte>>)

  /** The response block with the given code. */
  function Response(b: Block, cmd: seq<byte>, e: FdcError): seq<byte>
    requires |cmd| == 4
  {
    ToBuffer(Block(cmd, Code(e), b.param2))
  }

  /** Whether the drive takes writes, the data, the write, and the final status. */
  function HandledWrit(bay: Engine.Bay, files: Files, errno: FdcError, b: Block, data: Result<seq<byte>, WireError>,
                       now: int, later: int, io: Engine.WriteIo): (r: Written)
    requires |b.cmd| == 4
  {
    var at := AtTrack(bay, TrackOf(b.param1));
    if !Engine.CanWriteBay(at, now) then Written(at, files, errno, [Response(b, b.cmd, NOT_READY)])
    else
      var first := Response(b, b.cmd, OK);
      match data
      case Err(_) => Written(at, files, errno, [first, Response(b, WSTA, errno)])
      case Ok(bytes) =>
        var (next, after, r) := Engine.WriteBay(at, files, TrackOf(b.param1), b.param2, bytes, later, io);
        var e := match r case Done(_) => OK case Refused(e) => e case IoError => WRITE_ERR;
        Written(next, after, e, [first, Response(b, WSTA, e)])
  }

  class FdcServer {
    const manager: Engine.DriveManager

    constructor (manager: Engine.DriveManager)
      ensures this.manager == manager
    {
      this.manager := manager;
    }

    /** Sets the head of one drive, or lifts all heads, and reports which drives are ready. */
    method HandleStat(b: Block, now: int) returns (sent: seq<byte>)
      requires manager.Valid() && |b.cmd| == 4
      modifies manager`drives
      ensures manager.Valid()
      ensures forall d :: d in manager.drives ==>
                manager.drives[d] == HeadSet(old(manager.drives)[d], d, b)
      ensures exists status: word ::
                && sent == ToBuffer(b.(param2 := status))
                && forall d: nat :: d < MAX_DRIVES ==> (BitOf(status, d) <==> Engine.Ready(manager.drives[d], now))
    {
      SetHeads(b);
      var status := StatusWord(now);
      return ToBuffer(b.(param2 := status));
    }

    method SetHeads(b: Block)
      requires manager.Valid()
      modifies manager`drives
      ensures manager.Valid()
      ensures forall d :: d in manager.drives ==> manager.drives[d] == HeadSet(old(manager.drives)[d], d, b)
    {
      var drive: nat := Lsb(b.param1);
      if drive < MAX_DRIVES {
        manager.drives := manager.drives[drive := HeadSet(manager.drives[drive], drive, b)];
        return;
      }
      for i := 0 to MAX_DRIVES
        invariant manager.Valid()
        invariant forall d :: d in manager.drives ==>
                    manager.drives[d] == if d < i then HeadSet(old(manager.drives)[d], d, b) else old(manager.drives)[d]
      {
        manager.drives := manager.drives[i := manager.drives[i].(hdld := false)];
      }
    }

    method StatusWord(now: int) returns (status: word)
      requires manager.Valid()
      ensures forall d: nat :: d < MAX_DRIVES ==> (BitOf(status, d) <==> Engine.Ready(manager.drives[d], now))
    {
      var w: nat := 0;
      for i := 0 to MAX_DRIVES
        invariant StatusOfFirst(w, manager.drives, now, i)
      {
        StatusNext(w, manager.drives, now, i);
        if Engine.Ready(manager.drives[i], now) {
          w := w + Power2(i);
        }
      }
      Power2Of16();
      return w;
    }

    /** Sends the track, or nothing when it cannot be read. */
    method HandleRead(b: Block, now: int, ioWorks: bool) returns (sent: seq<seq<byte>>)
      requires manager.Valid()
      modifies manager
      ensures manager.Valid() && manager.fileHandles == old(manager.fileHandles)
      ensures var (bay, r) := Engine.ReadBay(AtTrack(old(manager.BayAt(DriveOf(b.param1))), TrackOf(b.param1)), manager.store.files,
                                           TrackOf(b.param1), b.param2, now, ioWorks);
              && manager.BayAt(DriveOf(b.param1)) == bay
              && sent == (if r.Done? then [r.value] else [])
              && manager.fdcErrno == (if r.Done? then OK else NOT_READY)
    {
      var drive, track := DriveOf(b.param1), TrackOf(b.param1);
      manager.drives := manager.drives[drive := manager.drives[drive].(track := track)];
      var r := manager.Read(drive, track, b.param2, now, ioWorks);
      return if r.Done? then [r.value] else [];
    }

    /** The data is what the transport receives for the block's length. */
    method HandleWrite(b: Block, data: Result<seq<byte>, WireError>, now: int, later: int, io: Engine.WriteIo)
      returns (sent: seq<seq<byte>>)
      requires manager.Valid() && |b.cmd| == 4
      modifies manager, manager.store`files
      ensures manager.Valid()
      ensures Written(manager.BayAt(DriveOf(b.param1)), manager.store.files, manager.fdcErrno, sent)
              == HandledWrit(old(manager.BayAt(DriveOf(b.param1))), old(manager.store.files), old(manager.fdcErrno), b, data, now, later, io)
    {
      var drive, track := DriveOf(b.param1), TrackOf(b.param1);
      manager.drives := manager.drives[drive := manager.drives[drive].(track := track)];
      var canWrite := manager.CanWrite(drive, now);
      if !canWrite {
        return [Response(b, b.cmd, NOT_READY)];
      }
      sent := [Response(b, b.cmd, OK)];
      if data.Ok? {
        var r := manager.Write(drive, track, b.param2, data.value, later, io);
      }
      sent := sent + [Response(b, WSTA, manager.fdcErrno)];
    }
  }

  /** The status word of the first n drives. */
  ghost predicate StatusOfFirst(w: nat, drives: map<nat, Engine.DriveState>, now: int, n: nat) {
    w < Power2(n) && forall d: nat :: d < n && d in drives ==> (BitOf(w, d) <==> Engine.Ready(drives[d], now))
  }

  lemma StatusNext(w: nat, drives: map<nat, Engine.DriveState>, now: int, n: nat)
    requires StatusOfFirst(w, drives, now, n) && n in drives
    ensures StatusOfFirst(if Engine.Ready(drives[n], now) then w + Power2(n) else w, drives, now, n + 1)
  {
    forall d: nat | d <= n
      ensures BitOf(w + Power2(n), d) <==> d == n || BitOf(w, d)
      ensures d == n ==> !BitOf(w, d)
    {
      AddTopBit(w, n, d);
    }
  }

  /** The head bit and track a STAT leaves a drive with. */
  function HeadSet(s: Engine.DriveState, drive: nat, b: Block): Engine.DriveState {
    if Lsb(b.param1) == drive then s.(hdld := Msb(b.param1) != 0, track := b.param2)
    else if Lsb(b.param1) >= MAX_DRIVES then s.(hdld := false)
    else s
  }

  lemma Power2Of16()
    ensures Power2(16) == 65536
  {
    assert Power2(4) == 16 && Power2(8) == 256 && Power2(12) == 4096;
  }

  // ---- what the controller can rely on -------------------------------------

  /**
   A WRIT past its first response ends with the error code as final status.
   That is OK exactly when the data arrived and was written, or when it did
   not arrive and the command before had left no error.
   */
  lemma FinalStatusOk(bay: Engine.Bay, files: Files, errno: FdcError, b: Block, data: Result<seq<byte>, WireError>,
                      now: int, later: int, io: Engine.WriteIo)
    requires |b.cmd| == 4 && Engine.CanWriteBay(AtTrack(bay, TrackOf(b.param1)), now)
    ensures var w := HandledWrit(bay, files, errno, b, data, now, later, io);
            && w.sent == [Response(b, b.cmd, OK), Response(b, WSTA, w.errno)]
            && (data.Err? ==> w.files == files)
            && (w.errno == OK <==>
                  if data.Err? then errno == OK
                  else Engine.WriteBay(AtTrack(bay, TrackOf(b.param1)), files, TrackOf(b.param1), b.param2, data.value, later, io).2.Done?)
  {
  }

  // ---- the error code over a run --------------------------------------------

  /** The drives, the files and the one error code they share. */
  datatype Serving = Serving(bays: map<nat, Engine.Bay>, files: Files, errno: FdcError)

  /** A READ, a WRIT with what comes of its data, or any command of the operator, which leaves the error code. */
  datatype Transaction =
    | Reading(b: Block, now: int, ioWorks: bool)
    | Writing(b: Block, data: Result<seq<byte>, WireError>, now: int, later: int, io: Engine.WriteIo)
    | Operating(bays: map<nat, Engine.Bay>, files: Files)

  predicate Addressed(s: Serving, t: Transaction) {
    match t
    case Operating(_, _) => true
    case _ => DriveOf(t.b.param1) in s.bays && |t.b.cmd| == 4
  }

  function Served(s: Serving, t: Transaction): Serving
    requires Addressed(s, t)
  {
    match t
    case Reading(b, now, ioWorks) =>
      var d := DriveOf(b.param1);
      var (bay, r) := Engine.ReadBay(AtTrack(s.bays[d], TrackOf(b.param1)), s.files, TrackOf(b.param1), b.param2, now, ioWorks);
      Serving(s.bays[d := bay], s.files, if r.Done? then OK else NOT_READY)
    case Writing(b, data, now, later, io) =>
      var d := DriveOf(b.param1);
      var w := HandledWrit(s.bays[d], s.files, s.errno, b, data, now, later, io);
      Serving(s.bays[d := w.bay], w.files, w.errno)
    case Operating(bays, files) => Serving(bays, files, s.errno)
  }

  ghost predicate Serves(states: seq<Serving>, ts: seq<Transaction>) {
    && |states| == |ts| + 1
    && forall i :: 0 <= i < |ts| ==> Addressed(states[i], ts[i]) && states[i + 1] == Served(states[i], ts[i])
  }

  /** The WRIT gets past its first response. */
  predicate Accepted(s: Serving, t: Transaction)
    requires Addressed(s, t) && t.Writing?
  {
    Engine.CanWriteBay(AtTrack(s.bays[DriveOf(t.b.param1)], TrackOf(t.b.param1)), t.now)
  }

  /** The drive is read or written: every READ, and a WRIT that is accepted and whose data arrive. */
  predicate ReachesDrive(s: Serving, t: Transaction)
    requires Addressed(s, t)
  {
    t.Reading? || (t.Writing? && Accepted(s, t) && t.data.Ok?)
  }

  /** Whether that read or write works. */
  predicate Works(s: Serving, t: Transaction)
    requires Addressed(s, t) && ReachesDrive(s, t)
  {
    var bay := AtTrack(s.bays[DriveOf(t.b.param1)], TrackOf(t.b.param1));
    if t.Reading? then Engine.ReadBay(bay, s.files, TrackOf(t.b.param1), t.b.param2, t.now, t.ioWorks).1.Done?
    else Engine.WriteBay(bay, s.files, TrackOf(t.b.param1), t.b.param2, t.data.value, t.later, t.io).2.Done?
  }

  /** Of the first n transactions, the last that reached a drive worked; if there is none, there was no error at the start. */
  ghost predicate LastWorked(states: seq<Serving>, ts: seq<Transaction>, n: nat)
    requires Serves(states, ts) && n <= |ts|
  {
    if n == 0 then states[0].errno == OK
    else if ReachesDrive(states[n - 1], ts[n - 1]) then Works(states[n - 1], ts[n - 1])
    else LastWorked(states, ts, n - 1)
  }

  lemma {:induction false} ErrnoIsLast(states: seq<Serving>, ts: seq<Transaction>, n: nat)
    requires Serves(states, ts) && n <= |ts|
    ensures states[n].errno == OK <==> LastWorked(states, ts, n)
  {
    if n > 0 { ErrnoIsLast(states, ts, n - 1); }
  }

  lemma WordCarried(cmd: seq<byte>, w: word, v: word)
    requires |cmd| == 4
    ensures FromBuffer(ToBuffer(Block(cmd, w, v))).value.param1 == w
  {
    var buffer := ToBuffer(Block(cmd, w, v));
    assert buffer[4] == Lsb(w) && buffer[5] == Msb(w);
    WordHalves(w);
  }

  /** What the controller reads in a response: the code in its first word. */
  function CodeTold(response: seq<byte>): word
    requires |response| == 8
  {
    FromBuffer(response).value.param1
  }

  lemma ToldIsCode(b: Block, cmd: seq<byte>, e: FdcError)
    requires |cmd| == 4
    ensures CodeTold(Response(b, cmd, e)) == Code(e)
  {
    WordCarried(cmd, Code(e), b.param2);
  }

  /** A WRIT to a drive that does not take writes is answered with not ready and changes nothing. */
  lemma RefusedWrit(s: Serving, t: Transaction)
    requires Addressed(s, t) && t.Writing? && !Accepted(s, t)
    ensures HandledWrit(s.bays[DriveOf(t.b.param1)], s.files, s.errno, t.b, t.data, t.now, t.later, t.io).sent
            == [Response(t.b, t.b.cmd, NOT_READY)]
    ensures Served(s, t).files == s.files && Served(s, t).errno == s.errno
  {
  }

  /** The heads after a STAT: of the drive it names, as it says, and at its track; if it names none, all are lifted. */
  lemma HeadsAfterStat(s: Engine.DriveState, drive: nat, b: Block)
    requires drive < 16
    ensures var after := HeadSet(s, drive, b);
            && after == s.(hdld := after.hdld, track := after.track)
            && (b.param1 % 256 == drive ==> (after.hdld <==> b.param1 / 256 > 0) && after.track == b.param2)
            && (b.param1 % 256 >= 16 ==> !after.hdld && after.track == s.track)
            && (b.param1 % 256 < 16 && b.param1 % 256 != drive ==> after == s)
  {
  }

  /**
   The final status of a WRIT in any run of READs, WRITs and operator commands
   is OK exactly when the data arrived and was written, or when it did not
   arrive and the last transaction before it that reached any drive had worked:
   in that case the controller is told that the track was written, and it was not.
   */
  lemma StatusOkExactly(states: seq<Serving>, ts: seq<Transaction>, i: nat)
    requires Serves(states, ts) && i < |ts| && ts[i].Writing? && Accepted(states[i], ts[i])
    ensures var t, s := ts[i], states[i];
            var w := HandledWrit(s.bays[DriveOf(t.b.param1)], s.files, s.errno, t.b, t.data, t.now, t.later, t.io);
            && w.sent == [Response(t.b, t.b.cmd, OK), Response(t.b, WSTA, w.errno)]
            && (w.errno == OK <==> if t.data.Ok? then Works(s, t) else LastWorked(states, ts, i))
            && (t.data.Err? ==> states[i + 1].files == s.files)
  {
    var t, s := ts[i], states[i];
    ErrnoIsLast(states, ts, i);
    FinalStatusOk(s.bays[DriveOf(t.b.param1)], s.files, s.errno, t.b, t.data, t.now, t.later, t.io);
    assert states[i + 1] == Served(s, t);
  }

  // ---- tracks over a run ----------------------------------------------------

  /**
   Transactions that leave what a track of a drive holds: all but WRITs of it,
   WRITs of its file by another drive, and operator commands that change either.
   */
  predicate SparesTrack(s: Serving, t: Transaction, d: nat, handle: Engine.Handle, at: TrackRuns.Place, data: seq<byte>)
    requires Addressed(s, t)
  {
    match t
    case Reading(_, _, _) => true
    case Writing(b, _, _, _, _) =>
      var other := s.bays[DriveOf(b.param1)].handle;
      if DriveOf(b.param1) == d then TrackOf(b.param1) != at.track && b.param2 == at.length
      else other.None? || other.value.path != handle.path
    case Operating(bays, files) => d in bays && TrackRuns.OnDrive(bays[d], files, handle, at, data)
  }

  lemma WritSpares(bay: Engine.Bay, files: Files, errno: FdcError, b: Block, data: Result<seq<byte>, WireError>,
                   now: int, later: int, io: Engine.WriteIo, handle: Engine.Handle, at: TrackRuns.Place, held: seq<byte>)
    requires |b.cmd| == 4 && TrackRuns.OnDrive(bay, files, handle, at, held)
    requires TrackOf(b.param1) != at.track && b.param2 == at.length
    ensures var w := HandledWrit(bay, files, errno, b, data, now, later, io);
            TrackRuns.OnDrive(w.bay, w.files, handle, at, held)
  {
    if data.Ok? && b.param2 <= |data.value| {
      TrackRuns.OtherTrackSpared(files[handle.path], at, held, TrackOf(b.param1), data.value[..at.length], io);
    }
  }

  lemma ServedSpares(s: Serving, t: Transaction, d: nat, handle: Engine.Handle, at: TrackRuns.Place, data: seq<byte>)
    requires Addressed(s, t) && SparesTrack(s, t, d, handle, at, data)
    requires d in s.bays && TrackRuns.OnDrive(s.bays[d], s.files, handle, at, data)
    ensures d in Served(s, t).bays && TrackRuns.OnDrive(Served(s, t).bays[d], Served(s, t).files, handle, at, data)
  {
    if t.Writing? && DriveOf(t.b.param1) == d {
      WritSpares(s.bays[d], s.files, s.errno, t.b, t.data, t.now, t.later, t.io, handle, at, data);
    }
  }

  lemma {:induction false} TrackStays(states: seq<Serving>, ts: seq<Transaction>, i: nat, j: nat, d: nat, handle: Engine.Handle,
                                      at: TrackRuns.Place, data: seq<byte>)
    requires Serves(states, ts) && i <= j <= |ts|
    requires d in states[i].bays && TrackRuns.OnDrive(states[i].bays[d], states[i].files, handle, at, data)
    requires forall k :: i <= k < j ==> SparesTrack(states[k], ts[k], d, handle, at, data)
    ensures d in states[j].bays && TrackRuns.OnDrive(states[j].bays[d], states[j].files, handle, at, data)
    decreases j
  {
    if i < j {
      TrackStays(states, ts, i, j - 1, d, handle, at, data);
      ServedSpares(states[j - 1], ts[j - 1], d, handle, at, data);
    }
  }

  /**
   The data of a WRIT acknowledged as written is what any later READ of that
   track and length sends, whatever READs, WRITs of other tracks and drives, and
   harmless operator commands come in between; unless the drive is in a swap
   window then, or the read itself fails.
   */
  lemma WrittenTrackIsRead(states: seq<Serving>, ts: seq<Transaction>, i: nat, j: nat)
    requires Serves(states, ts) && i < j < |ts| && ts[i].Writing? && Accepted(states[i], ts[i]) && ts[i].data.Ok?
    requires Works(states[i], ts[i]) && |ts[i].data.value| == ts[i].b.param2
    requires ts[j].Reading? && ts[j].b.param1 == ts[i].b.param1 && ts[j].b.param2 == ts[i].b.param2
    requires var d := DriveOf(ts[i].b.param1);
             var at := TrackRuns.Place(TrackOf(ts[i].b.param1), ts[i].b.param2);
             forall k :: i < k < j ==> SparesTrack(states[k], ts[k], d, states[i].bays[d].handle.value, at, ts[i].data.value)
    ensures var d, track := DriveOf(ts[j].b.param1), TrackOf(ts[j].b.param1);
            && d in states[j].bays
            && Engine.ReadBay(AtTrack(states[j].bays[d], track), states[j].files, track, ts[j].b.param2, ts[j].now, ts[j].ioWorks).1
               == if Engine.InWindow(states[j].bays[d].state, ts[j].now) || !ts[j].ioWorks then Refused(NOT_READY) else Done(ts[i].data.value)
  {
    var s, t := states[i], ts[i];
    var d, track := DriveOf(t.b.param1), TrackOf(t.b.param1);
    var at := TrackRuns.Place(track, t.b.param2);
    var handle := s.bays[d].handle.value;
    assert t.data.value[..t.b.param2] == t.data.value;
    TrackRuns.WriteHolds(AtTrack(s.bays[d], track), s.files, at, t.data.value, t.later, t.io);
    assert states[i + 1] == Served(s, t);
    TrackStays(states, ts, i + 1, j, d, handle, at, t.data.value);
  }

  /** A write to a track, whatever becomes of it, leaves what a READ of another track of that length sends. */
  lemma OtherTracksUnchanged(bay: Engine.Bay, files: Files, track: nat, other: nat, length: int, buffer: seq<byte>,
                             now: int, io: Engine.WriteIo, readAt: int)
    requires track != other && Engine.ReadBay(bay, files, other, length, readAt, true).1.Done?
    ensures var (after, written, _) := Engine.WriteBay(bay, files, track, length, buffer, now, io);
            Engine.ReadBay(after, written, other, length, readAt, true).1 == Engine.ReadBay(bay, files, other, length, readAt, true).1
  {
    MultiplesApart(length, track, other);
    MultiplesApart(length, other, track);
    if 0 < length <= |buffer| {
      Engine.AttemptsMiss(files[bay.handle.value.path], track * length, buffer[..length], io, other * length, length);
    }
  }

  /** Whatever comes of a READ or WRIT, the drive it names is at the track it names, and no other drive changes. */
  lemma TrackNoted(s: Serving, t: Transaction, d: nat)
    requires Addressed(s, t) && !t.Operating? && d in s.bays
    ensures d in Served(s, t).bays
    ensures t.b.param1 / 4096 == d ==> Served(s, t).bays[d].state.track == t.b.param1 % 4096
    ensures t.b.param1 / 4096 != d ==> Served(s, t).bays[d] == s.bays[d]
  {
  }

  /** A write to a drive that took writes before is done or a write error. */
  lemma DoneOrWriteError(bay: Engine.Bay, files: Files, track: int, length: int, buffer: seq<byte>, now: int, later: int, io: Engine.WriteIo)
    requires Engine.CanWriteBay(bay, now) && now <= later
    ensures var r := Engine.WriteBay(bay, files, track, length, buffer, later, io).2; r.Done? || r == Refused(WRITE_ERR)
  {
  }

  /** Two responses, of the readiness and of the write. */
  lemma WritSent(bay: Engine.Bay, files: Files, errno: FdcError, b: Block, bytes: seq<byte>, now: int, later: int, io: Engine.WriteIo)
    requires |b.cmd| == 4 && Engine.CanWriteBay(AtTrack(bay, TrackOf(b.param1)), now) && now <= later
    ensures var r := Engine.WriteBay(AtTrack(bay, TrackOf(b.param1)), files, TrackOf(b.param1), b.param2, bytes, later, io).2;
            HandledWrit(bay, files, errno, b, Ok(bytes), now, later, io).sent
            == [Response(b, b.cmd, OK), Response(b, WSTA, if r.Done? then OK else WRITE_ERR)]
  {
    DoneOrWriteError(AtTrack(bay, TrackOf(b.param1)), files, TrackOf(b.param1), b.param2, bytes, now, later, io);
  }

  /** A WRIT that was let through and whose data came ends with code 0 if it was written, and else with code 3. */
  lemma WritTold(s: Serving, t: Transaction)
    requires Addressed(s, t) && t.Writing? && Accepted(s, t) && t.data.Ok? && t.now <= t.later
    ensures var w := HandledWrit(s.bays[DriveOf(t.b.param1)], s.files, s.errno, t.b, t.data, t.now, t.later, t.io);
            && |w.sent| == 2 && |w.sent[0]| == 8 && |w.sent[1]| == 8
            && CodeTold(w.sent[0]) == 0 && CodeTold(w.sent[1]) == if Works(s, t) then 0 else 3
  {
    WritSent(s.bays[DriveOf(t.b.param1)], s.files, s.errno, t.b, t.data.value, t.now, t.later, t.io);
    ToldIsCode(t.b, t.b.cmd, OK);
    ToldIsCode(t.b, WSTA, if Works(s, t) then OK else WRITE_ERR);
  }
}
