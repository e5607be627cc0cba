/** What ejecting and mounting make of a drive of the rack, over its runs. */
module EjectRuns {
  import opened Bytes
  import opened FileStore
  import opened DriveSession
  import opened DriveManager
  import opened Rack
  import opened TransientMasters
  import opened TrackRuns

  // ---- ejected -------------------------------------------------------------

  /** Nothing is in the drive: no image, no file, no scratch copy. */
  predicate Empty(bay: Bay) {
    && !bay.state.mounted && bay.state.filename == NoFile && bay.handle.None?
    && !bay.state.transient && bay.state.scratchPath.None? && !bay.state.dirty
  }

  /** An unmount that does not fail to close the drive's file. */
  predicate Ejects(bay: Bay, e: Event) {
    e.cmd.Unmount? && !(bay.state.mounted && bay.handle.Some? && e.cmd.closeFails)
  }

  /** It empties the drive; a drive that held an image gets its window from then. */
  lemma EjectEmpties(policy: Policy, bay: Bay, files: Files, e: Event)
    requires BaySound(e.drive, bay) && Ejects(bay, e)
    ensures var next := BayNext(policy, bay, files, e).0;
            && Empty(next)
            && next.state.unavailableUntil
               == (if bay.state.mounted then Some(e.now + SWAP_INVALIDATE_WINDOW_MS) else bay.state.unavailableUntil)
            && next.state.track == 0 && !next.state.hdld && next.state.readonly == bay.state.readonly
    ensures UnmountBay(bay, files, e.now, e.cmd.closeFails, e.cmd.removes).2
  {
  }

  /** An unmount whose close fails is reported, and leaves the drive mounted without a file. */
  lemma FailedCloseKeeps(policy: Policy, bay: Bay, files: Files, e: Event)
    requires e.cmd.Unmount? && !Ejects(bay, e)
    ensures BayNext(policy, bay, files, e) == (bay.(handle := None), files) && bay.state.mounted
    ensures !UnmountBay(bay, files, e.now, e.cmd.closeFails, e.cmd.removes).2
  {
  }

  /** The drive is not ready at the event, and a read or write then is refused and changes nothing. */
  predicate Dead(bay: Bay, files: Files, e: Event) {
    && !Ready(bay.state, e.now) && !CanWriteBay(bay, e.now)
    && (e.cmd.Read? ==> ReadBay(bay, files, e.cmd.track, e.cmd.length, e.now, e.cmd.ioWorks) == (bay, Refused(NOT_READY)))
    && (e.cmd.Write? ==> WriteBay(bay, files, e.cmd.at, e.cmd.length, e.cmd.buffer, e.now, e.cmd.io) == (bay, files, Refused(NOT_READY)))
  }

  /** Whatever is done to an empty drive but a mount, it stays empty. */
  lemma EmptyStays(policy: Policy, bay: Bay, files: Files, e: Event)
    requires Empty(bay) && !e.cmd.Mount?
    ensures Empty(BayNext(policy, bay, files, e).0) && BayNext(policy, bay, files, e).1 == files
    ensures Dead(bay, files, e)
  {
  }

  /** No event mounts an image in the drive. */
  predicate NoMount(events: seq<Event>, d: nat, i: nat, j: nat) {
    forall k :: i <= k < j && k < |events| && events[k].drive == d ==> !events[k].cmd.Mount?
  }

  lemma {:induction false} EmptyLasts(policy: Policy, racks: seq<Rack>, events: seq<Event>, d: nat, i: nat, j: nat)
    requires Run(policy, racks, events) && i <= j <= |events| && d in racks[i].bays && Empty(racks[i].bays[d]) && NoMount(events, d, i, j)
    ensures d in racks[j].bays && Empty(racks[j].bays[d])
    decreases j
  {
    if i < j {
      var k := j - 1;
      EmptyLasts(policy, racks, events, d, i, k);
      assert RackNext(policy, racks[k], events[k], racks[k + 1]);
      if events[k].drive == d { EmptyStays(policy, racks[k].bays[d], racks[k].files, events[k]); }
    }
  }

  /**
   From an unmount that succeeds until the next mount of the drive, in every
   run: the drive is empty and not ready at any moment, every read and write of
   it is refused, and nothing done to it changes a file. If it held an image it
   is also in its window until 2500 ms after the unmount.
   */
  lemma EjectedUntilMounted(policy: Policy, racks: seq<Rack>, events: seq<Event>, d: nat, i: nat, j: nat)
    requires Run(policy, racks, events) && BaysSound(racks[0]) && i < j <= |events|
    requires events[i].drive == d && d in racks[i].bays && Ejects(racks[i].bays[d], events[i]) && NoMount(events, d, i + 1, j)
    ensures forall m :: i < m <= j ==> d in racks[m].bays && Empty(racks[m].bays[d])
    ensures forall m, t :: i < m <= j ==> !Ready(racks[m].bays[d].state, t)
    ensures forall m :: i < m < j && events[m].drive == d ==>
              Dead(racks[m].bays[d], racks[m].files, events[m]) && racks[m + 1].files == racks[m].files
    ensures racks[i].bays[d].state.mounted ==>
              forall m :: i < m <= j ==> WindowUntil(racks[m].bays[d], events[i].now + 2500)
  {
    RunStaysSound(policy, racks, events, i);
    assert RackNext(policy, racks[i], events[i], racks[i + 1]);
    EjectEmpties(policy, racks[i].bays[d], racks[i].files, events[i]);
    forall m | i < m <= j
      ensures d in racks[m].bays && Empty(racks[m].bays[d])
      ensures racks[i].bays[d].state.mounted ==> WindowUntil(racks[m].bays[d], events[i].now + SWAP_INVALIDATE_WINDOW_MS)
    {
      EmptyLasts(policy, racks, events, d, i + 1, m);
      if racks[i].bays[d].state.mounted { WindowHolds(policy, racks, events, d, i, m); }
    }
    forall m | i < m < j && events[m].drive == d
      ensures Dead(racks[m].bays[d], racks[m].files, events[m]) && racks[m + 1].files == racks[m].files
    {
      assert RackNext(policy, racks[m], events[m], racks[m + 1]);
      EmptyStays(policy, racks[m].bays[d], racks[m].files, events[m]);
    }
  }

  // ---- mounted -------------------------------------------------------------

  /** The image is there and each file operation its backing takes works. */
  predicate CanMount(policy: Policy, bay: Bay, files: Files, image: Image, io: OpenIo) {
    && Base(image) in files && io.opening != NoAccess && io.opening != OpenRefused
    && (bay.state.readonly && policy(image.name) ==> io.opening != CopyRefused)
  }

  /**
   A mount lands the drive on the image exactly when that can be done. It then
   has a file open that holds the image's bytes, a writable copy of them when
   the drive is read-only and the policy says so, and else the image itself, for
   writing unless the drive is read-only.
   */
  lemma MountLands(policy: Policy, bay: Bay, files: Files, drive: nat, image: Image, now: int, unique: nat, io: OpenIo)
    requires BaySound(drive, bay) && ScratchThere(bay, files) && FreshName(files, drive, unique)
    ensures var (next, after, ok) := MountBay(policy, bay, files, drive, image, now, unique, io);
            var copy := bay.state.readonly && policy(image.name);
            && (ok <==> CanMount(policy, bay, files, image, io)) && (next.state.mounted <==> ok) && (next.handle.Some? <==> ok)
            && (ok ==>
                  && MountedOn(next, image)
                  && next.handle.value.path in after && after[next.handle.value.path] == files[Base(image)]
                  && (next.handle.value.path == Base(image) <==> !copy)
                  && (next.handle.value.writable <==> copy || !bay.state.readonly)
                  && next.state.transient == copy && next.state.readonly == bay.state.readonly
                  && next.state.track == 0 && !next.state.hdld)
            && (Base(image) in files ==> Base(image) in after && after[Base(image)] == files[Base(image)])
  {
  }

  /** A drive that held an image, or was in a window, is in a new one from then; any other keeps what it had. */
  lemma MountWindow(policy: Policy, bay: Bay, files: Files, drive: nat, image: Image, now: int, unique: nat, io: OpenIo)
    ensures MountBay(policy, bay, files, drive, image, now, unique, io).0.state.unavailableUntil
            == if bay.state.mounted || InWindow(bay.state, now) then Some(now + SWAP_INVALIDATE_WINDOW_MS) else bay.state.unavailableUntil
  {
  }

  /** A read of a ready drive succeeds exactly when the bytes asked for lie in its file, and gives them. */
  lemma ReadsWithinFile(bay: Bay, files: Files, handle: Handle, at: Place, now: int, ioWorks: bool)
    requires bay.state.mounted && bay.handle == Some(handle) && handle.path in files
    ensures var r := ReadBay(bay, files, at.track, at.length, now, ioWorks).1;
            && (r.Done? <==>
                  !InWindow(bay.state, now) && ioWorks && (at.length == 0 || Start(at) + at.length <= |files[handle.path]|))
            && (r.Done? ==> r.value == ReadAt(files[handle.path], Start(at), at.length))
            && (!r.Done? ==> r == Refused(NOT_READY))
  {
  }

  /**
   From a mount that succeeds, in every run: a read of any track of the image,
   once the window is over, gives the image's bytes as they were at the mount,
   until another disk is mounted, or that track or the image is written.
   */
  lemma MountedImageIsRead(policy: Policy, racks: seq<Rack>, events: seq<Event>, d: nat, i: nat, j: nat, image: Image, unique: nat,
                           io: OpenIo, at: Place, ioWorks: bool)
    requires FreshRun(policy, racks, events) && i < j < |events| && events[i].drive == d && d in racks[i].bays
    requires events[i].cmd == Command.Mount(image, unique, io) && CanMount(policy, racks[i].bays[d], racks[i].files, image, io)
    requires Start(at) + at.length <= |racks[i].files[Base(image)]|
    requires d in racks[i + 1].bays && racks[i + 1].bays[d].handle.Some?
    requires SparedBetween(racks, events, i, j, d, racks[i + 1].bays[d].handle.value, at)
    ensures d in racks[j].bays
    ensures ReadBay(racks[j].bays[d], racks[j].files, at.track, at.length, events[j].now, ioWorks).1
            == if InWindow(racks[j].bays[d].state, events[j].now) || !ioWorks then Refused(NOT_READY)
               else Done(ReadAt(racks[i].files[Base(image)], Start(at), at.length))
  {
    FreshRunSound(policy, racks, events, i);
    assert RackNext(policy, racks[i], events[i], racks[i + 1]);
    var bay := racks[i].bays[d];
    MountLands(policy, bay, racks[i].files, d, image, events[i].now, unique, io);
    var handle := racks[i + 1].bays[d].handle.value;
    RunKeeps(policy, racks, events, i, j, d, handle, at, ReadAt(racks[i].files[Base(image)], Start(at), at.length));
    ReadsWithinFile(racks[j].bays[d], racks[j].files, handle, at, events[j].now, ioWorks);
  }

  // ---- write protection ----------------------------------------------------

  /** A change of write protection sets the flag, whatever is in the drive and whatever comes of its reopening. */
  lemma ProtectSetsFlag(policy: Policy, bay: Bay, files: Files, drive: nat, flag: bool, unique: nat, io: OpenIo)
    ensures ProtectBay(policy, bay, files, drive, flag, unique, io).0.state.readonly == flag
    ensures !bay.state.mounted ==>
              ProtectBay(policy, bay, files, drive, flag, unique, io) == (bay.(state := bay.state.(readonly := flag)), files, true)
  {
  }

  /** So an image mounted after it in an empty drive can be written to exactly when the drive is not protected, or redirects writes. */
  lemma ProtectedMountWrites(policy: Policy, bay: Bay, files: Files, drive: nat, flag: bool, image: Image, now: int, unique: nat, io: OpenIo,
                             later: int)
    requires BaySound(drive, bay) && !bay.state.mounted && ScratchThere(bay, files) && FreshName(files, drive, unique)
    requires CanMount(policy, bay.(state := bay.state.(readonly := flag)), files, image, io)
    ensures var flagged := ProtectBay(policy, bay, files, drive, flag, unique, io).0;
            var next := MountBay(policy, flagged, files, drive, image, now, unique, io).0;
            CanWriteBay(next, later) <==> !InWindow(next.state, later) && (!flag || policy(image.name))
  {
    ProtectSetsFlag(policy, bay, files, drive, flag, unique, io);
    MountLands(policy, bay.(state := bay.state.(readonly := flag)), files, drive, image, now, unique, io);
  }

  /**
   A change of write protection of a mounted drive opens its image anew,
   directly or as a writable copy. It succeeds exactly when that can be done;
   the drive then stays where it was, with no window, and its copy is clean. If
   it fails the drive has no file.
   */
  lemma ProtectReopens(policy: Policy, bay: Bay, files: Files, drive: nat, flag: bool, unique: nat, io: OpenIo)
    requires BaySound(drive, bay) && ScratchThere(bay, files) && FreshName(files, drive, unique)
    requires bay.state.mounted && bay.state.readonly != flag
    ensures var (next, after, ok) := ProtectBay(policy, bay, files, drive, flag, unique, io);
            var s, image, copy := bay.state, bay.state.filename.image, flag && policy(bay.state.filename.image.name);
            && (ok <==> Base(image) in files && io.opening != OpenRefused && (copy ==> io.opening != CopyRefused))
            && next.state.filename == s.filename && next.state.track == s.track && next.state.hdld == s.hdld
            && next.state.unavailableUntil == s.unavailableUntil && !next.state.dirty
            && (next.handle.Some? <==> ok) && (ok ==> next.state.mounted)
            && (ok ==>
                  && next.state.transient == copy && (next.state.scratchPath.Some? <==> copy)
                  && next.handle.value.path in after && after[next.handle.value.path] == files[Base(image)]
                  && (next.handle.value.path == Base(image) <==> !copy)
                  && (next.handle.value.writable <==> copy || !flag))
  {
  }

  /** Without a change, or without a disk, nothing is opened. */
  lemma ProtectLeaves(policy: Policy, bay: Bay, files: Files, drive: nat, flag: bool, unique: nat, io: OpenIo)
    requires !bay.state.mounted || bay.state.readonly == flag || !bay.state.filename.Of?
    ensures ProtectBay(policy, bay, files, drive, flag, unique, io) == (bay.(state := bay.state.(readonly := flag)), files, true)
  {
  }
}
