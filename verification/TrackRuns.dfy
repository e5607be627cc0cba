/** What a drive of the rack reads from a track is what was written there last, over its runs. */
module TrackRuns {
  import opened Bytes
  import opened FileStore
  import opened DriveSession
  import opened DriveManager
  import opened Rack
  import opened TransientMasters

  /** One track of a disk with tracks of one length. */
  datatype Place = Place(track: nat, length: nat)

  function Start(at: Place): nat {
    at.track * at.length
  }

  /** The file holds the data at the place. */
  predicate Holds(c: Content, at: Place, data: seq<byte>) {
    Start(at) + at.length <= |c| && ReadAt(c, Start(at), at.length) == data
  }

  /** The drive is on the file, which holds the data at the place. */
  predicate OnDrive(bay: Bay, files: Files, handle: Handle, at: Place, data: seq<byte>) {
    bay.state.mounted && bay.handle == Some(handle) && handle.path in files && Holds(files[handle.path], at, data)
  }

  /** Commands to the drive itself that neither change its file nor write to the place. */
  predicate OwnCommandSpares(bay: Bay, e: Event, at: Place) {
    match e.cmd
    case Write(track, length, _, _) => length == at.length && track != at.track
    case Protect(flag, _, _) => flag == bay.state.readonly
    case Mount(_, _, _) => false
    case Unmount(_, _) => false
    case Reload(_, _) => false
    case _ => true
  }

  /** Commands to other drives: all but writes to, and commits of, the image that the file is. */
  predicate OtherCommandSpares(bay: Bay, files: Files, e: Event, handle: Handle) {
    handle.path.Base? ==>
      && !WritesImage(bay, e, handle.path.image)
      && !(Commits(bay, files, e) && bay.state.filename == Of(handle.path.image))
  }

  predicate Spares(r: Rack, e: Event, d: nat, handle: Handle, at: Place)
    requires e.drive in r.bays
  {
    if e.drive == d then OwnCommandSpares(r.bays[d], e, at) else OtherCommandSpares(r.bays[e.drive], r.files, e, handle)
  }

  lemma OtherTrackSpared(c: Content, at: Place, data: seq<byte>, track: nat, buffer: seq<byte>, io: WriteIo)
    requires Holds(c, at, data) && track != at.track && |buffer| == at.length
    ensures Holds(Attempts(c, track * at.length, buffer, io, 0).0, at, data)
  {
    MultiplesApart(at.length, track, at.track);
    MultiplesApart(at.length, at.track, track);
    AttemptsMiss(c, track * at.length, buffer, io, Start(at), at.length);
  }

  lemma OwnWriteSpares(bay: Bay, files: Files, e: Event, handle: Handle, at: Place, data: seq<byte>)
    requires OnDrive(bay, files, handle, at, data) && e.cmd.Write? && OwnCommandSpares(bay, e, at)
    ensures var (next, after, _) := WriteBay(bay, files, e.cmd.at, e.cmd.length, e.cmd.buffer, e.now, e.cmd.io);
            OnDrive(next, after, handle, at, data)
  {
    if 0 <= e.cmd.at && e.cmd.length <= |e.cmd.buffer| {
      OtherTrackSpared(files[handle.path], at, data, e.cmd.at, e.cmd.buffer[..at.length], e.cmd.io);
    }
  }

  lemma OwnStepKeeps(policy: Policy, bay: Bay, files: Files, e: Event, handle: Handle, at: Place, data: seq<byte>)
    requires OnDrive(bay, files, handle, at, data) && OwnCommandSpares(bay, e, at) && BaySound(e.drive, bay)
    ensures var (next, after) := BayNext(policy, bay, files, e);
            OnDrive(next, after, handle, at, data)
  {
    if e.cmd.Write? { OwnWriteSpares(bay, files, e, handle, at, data); }
  }

  lemma StepKeeps(policy: Policy, r: Rack, e: Event, s: Rack, d: nat, handle: Handle, at: Place, data: seq<byte>)
    requires RackSound(r) && RackNext(policy, r, e, s) && NamesFresh(r.files, e)
    requires d in r.bays && OnDrive(r.bays[d], r.files, handle, at, data) && Spares(r, e, d, handle, at)
    ensures d in s.bays && OnDrive(s.bays[d], s.files, handle, at, data)
  {
    if e.drive == d {
      OwnStepKeeps(policy, r.bays[d], r.files, e, handle, at, data);
    } else {
      SoundKept(policy, r, e, s);
    }
  }

  /** From after event i to event j nothing mounts or ejects on the drive, writes to the place, or writes to its image from another drive. */
  ghost predicate SparedBetween(racks: seq<Rack>, events: seq<Event>, i: nat, j: nat, d: nat, handle: Handle, at: Place)
    requires j <= |events| < |racks|
  {
    forall k :: i < k < j ==> events[k].drive in racks[k].bays && Spares(racks[k], events[k], d, handle, at)
  }

  lemma {:induction false} RunKeeps(policy: Policy, racks: seq<Rack>, events: seq<Event>, i: nat, j: nat, d: nat,
                                    handle: Handle, at: Place, data: seq<byte>)
    requires FreshRun(policy, racks, events) && i < j <= |events| && SparedBetween(racks, events, i, j, d, handle, at)
    requires d in racks[i + 1].bays && OnDrive(racks[i + 1].bays[d], racks[i + 1].files, handle, at, data)
    ensures d in racks[j].bays && OnDrive(racks[j].bays[d], racks[j].files, handle, at, data)
    decreases j
  {
    if i + 1 < j {
      var k := j - 1;
      RunKeeps(policy, racks, events, i, k, d, handle, at, data);
      FreshRunSound(policy, racks, events, k);
      assert RackNext(policy, racks[k], events[k], racks[k + 1]);
      StepKeeps(policy, racks[k], events[k], racks[j], d, handle, at, data);
    }
  }

  /** A write that is acknowledged, whatever attempts it took, leaves the track holding its data. */
  lemma WriteHolds(bay: Bay, files: Files, at: Place, buffer: seq<byte>, now: int, io: WriteIo)
    requires WriteBay(bay, files, at.track, at.length, buffer, now, io).2.Done?
    ensures var (next, after, _) := WriteBay(bay, files, at.track, at.length, buffer, now, io);
            OnDrive(next, after, bay.handle.value, at, buffer[..at.length])
  {
    AttemptsLeave(files[bay.handle.value.path], Start(at), buffer[..at.length], io, 0);
    ReadAfterWrite(files[bay.handle.value.path], Start(at), buffer[..at.length], 0, 0);
  }

  /**
   A read of a track gives the data of the last write of it that was
   acknowledged, at any later time of any run, until a new disk is mounted,
   the image is written from another drive, or the track is tried to write again:
   whatever happened to other tracks and drives, and in swap windows, meanwhile.
   */
  lemma ReadsLastWrite(policy: Policy, racks: seq<Rack>, events: seq<Event>, i: nat, j: nat, at: Place, buffer: seq<byte>,
                       io: WriteIo, ioWorks: bool)
    requires FreshRun(policy, racks, events) && i < j < |events|
    requires events[i].drive in racks[i].bays && events[i].cmd == Command.Write(at.track, at.length, buffer, io)
    requires WriteBay(racks[i].bays[events[i].drive], racks[i].files, at.track, at.length, buffer, events[i].now, io).2.Done?
    requires SparedBetween(racks, events, i, j, events[i].drive, racks[i].bays[events[i].drive].handle.value, at)
    ensures var d := events[i].drive;
            && d in racks[j].bays
            && ReadBay(racks[j].bays[d], racks[j].files, at.track, at.length, events[j].now, ioWorks).1
               == if InWindow(racks[j].bays[d].state, events[j].now) || !ioWorks then Refused(NOT_READY) else Done(buffer[..at.length])
  {
    var d := events[i].drive;
    var bay := racks[i].bays[d];
    assert RackNext(policy, racks[i], events[i], racks[i + 1]);
    WriteHolds(bay, racks[i].files, at, buffer, events[i].now, io);
    RunKeeps(policy, racks, events, i, j, d, bay.handle.value, at, buffer[..at.length]);
  }
}
