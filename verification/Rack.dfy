/** The shared drives as one state machine, and the swap window over its runs. */
module Rack {
  import opened Bytes
  import opened FileStore
  import opened DriveSession
  import opened DriveManager

  datatype Command =
    | Mount(image: Image, unique: nat, openIo: OpenIo)
    | Unmount(closeFails: bool, removes: bool)
    | Protect(flag: bool, unique: nat, openIo: OpenIo)
    | Reload(unique: nat, openIo: OpenIo)
    | Read(track: nat, length: int, ioWorks: bool)
    | Write(at: int, length: int, buffer: seq<byte>, io: WriteIo)
    | Commit(ioWorks: bool)
    | Stat(headLoad: bool, track: nat)

  datatype Event = Event(now: int, drive: nat, cmd: Command)

  datatype Rack = Rack(bays: map<nat, Bay>, files: Files)

  /** What a command does to its drive and the files. */
  function BayNext(policy: Policy, bay: Bay, files: Files, e: Event): (r: (Bay, Files)) {
    match e.cmd
    case Mount(image, unique, io) => var (b, f, _) := MountBay(policy, bay, files, e.drive, image, e.now, unique, io); (b, f)
    case Unmount(closeFails, removes) => var (b, f, _) := UnmountBay(bay, files, e.now, closeFails, removes); (b, f)
    case Protect(flag, unique, io) => var (b, f, _) := ProtectBay(policy, bay, files, e.drive, flag, unique, io); (b, f)
    case Reload(unique, io) =>
      if bay.state.mounted && bay.state.filename.Of?
      then var (b, f, _) := MountBay(policy, bay, files, e.drive, bay.state.filename.image, e.now, unique, io); (b, f)
      else (bay, files)
    case Read(track, length, ioWorks) => (ReadBay(bay, files, track, length, e.now, ioWorks).0, files)
    case Write(at, length, buffer, io) => var (b, f, _) := WriteBay(bay, files, at, length, buffer, e.now, io); (b, f)
    case Commit(ioWorks) => var (b, f, _) := CommitBay(bay, files, ioWorks); (b, f)
    case Stat(headLoad, track) => (bay.(state := bay.state.(hdld := headLoad, track := track)), files)
  }

  ghost predicate RackNext(policy: Policy, r: Rack, e: Event, s: Rack) {
    && e.drive in r.bays
    && var (bay, files) := BayNext(policy, r.bays[e.drive], r.files, e);
       s == Rack(r.bays[e.drive := bay], files)
  }

  /** A run; the clock never goes back. */
  ghost predicate Run(policy: Policy, racks: seq<Rack>, events: seq<Event>) {
    && |racks| == |events| + 1
    && (forall i :: 0 <= i < |events| ==> RackNext(policy, racks[i], events[i], racks[i + 1]))
    && (forall i, j :: 0 <= i <= j < |events| ==> events[i].now <= events[j].now)
  }

  // ---- what one drive's records look like ----------------------------------

  /**
   A file is open only while mounted; it is the scratch copy exactly for a
   transient drive, and it is open for writing unless the drive is plainly read-only.
   */
  predicate BaySound(drive: nat, bay: Bay) {
    var s := bay.state;
    && (s.transient <==> s.scratchPath.Some?)
    && (s.transient ==> s.mounted && s.scratchPath.value.DriveScratch? && s.scratchPath.value.drive == drive)
    && (s.mounted ==> s.filename.Of?)
    && (bay.handle.Some? ==> s.mounted)
    && (bay.handle.Some? ==>
          bay.handle.value == if s.transient then Handle(s.scratchPath.value, true) else Handle(Base(s.filename.image), !s.readonly))
  }

  /** Every command keeps them so. */
  lemma BayStaysSound(policy: Policy, bay: Bay, files: Files, e: Event)
    requires BaySound(e.drive, bay)
    ensures BaySound(e.drive, BayNext(policy, bay, files, e).0)
  {
    match e.cmd
    case Mount(image, unique, io) => MountSound(policy, bay, files, e.drive, image, e.now, unique, io);
    case Reload(unique, io) =>
      if bay.state.mounted { MountSound(policy, bay, files, e.drive, bay.state.filename.image, e.now, unique, io); }
    case Protect(flag, unique, io) => ProtectSound(policy, bay, files, e.drive, flag, unique, io);
    case _ =>
  }

  lemma MountSound(policy: Policy, bay: Bay, files: Files, drive: nat, image: Image, now: int, unique: nat, io: OpenIo)
    ensures BaySound(drive, MountBay(policy, bay, files, drive, image, now, unique, io).0)
  {
  }

  lemma ProtectSound(policy: Policy, bay: Bay, files: Files, drive: nat, flag: bool, unique: nat, io: OpenIo)
    requires BaySound(drive, bay)
    ensures BaySound(drive, ProtectBay(policy, bay, files, drive, flag, unique, io).0)
  {
    if bay.state.mounted && bay.state.readonly != flag {
      RemountSound(policy, bay.(state := bay.state.(readonly := flag)), files, drive, unique, io);
    }
  }

  lemma RemountSound(policy: Policy, bay: Bay, files: Files, drive: nat, unique: nat, io: OpenIo)
    requires bay.state.mounted && bay.state.filename.Of?
    ensures BaySound(drive, RemountBay(policy, bay, files, drive, bay.state.readonly, unique, io).0)
  {
    var image := bay.state.filename.image;
    var useTransient := bay.state.readonly && policy(image.name);
    BackingHandle(DiscardScratch(bay.state, files, io.removes), drive, image, bay.state.readonly, useTransient, unique, io);
  }

  lemma BackingHandle(files: Files, drive: nat, image: Image, readonly: bool, useTransient: bool, unique: nat, io: OpenIo)
    ensures var handle := OpenBacking(files, drive, image, readonly, useTransient, unique, io).0;
            handle.Some? ==>
              handle.value == if useTransient then Handle(DriveScratch(image.dir, drive, unique), true) else Handle(Base(image), !readonly)
  {
  }

  ghost predicate BaysSound(r: Rack) {
    forall d :: d in r.bays ==> BaySound(d, r.bays[d])
  }

  lemma {:induction false} RunStaysSound(policy: Policy, racks: seq<Rack>, events: seq<Event>, i: nat)
    requires Run(policy, racks, events) && BaysSound(racks[0]) && i < |racks|
    ensures BaysSound(racks[i])
  {
    if i > 0 {
      var k := i - 1;
      RunStaysSound(policy, racks, events, k);
      assert RackNext(policy, racks[k], events[k], racks[k + 1]);
      BayStaysSound(policy, racks[k].bays[events[k].drive], racks[k].files, events[k]);
    }
  }

  // ---- the swap window -----------------------------------------------------

  predicate MountedOn(bay: Bay, image: Image) {
    bay.state.mounted && bay.state.filename == Of(image)
  }

  /** The drive stays not ready until then at least. */
  predicate WindowUntil(bay: Bay, until: int) {
    bay.state.unavailableUntil.Some? && until <= bay.state.unavailableUntil.value
  }

  /** At every moment before then the status bit is clear and reads and writes are refused. */
  ghost predicate NotReadyUntil(bay: Bay, until: int) {
    forall t :: t < until ==> InWindow(bay.state, t) && !Ready(bay.state, t)
  }

  /**
   A change of write protection of a mounted drive whose file cannot be opened
   in the new mode: the scratch copy that was made, or the image itself.
   */
  predicate FailedReopen(policy: Policy, bay: Bay, files: Files, e: Event) {
    && e.cmd.Protect? && bay.state.mounted && bay.state.filename.Of? && bay.state.readonly != e.cmd.flag
    && var image := bay.state.filename.image;
       if e.cmd.flag && policy(image.name) then e.cmd.openIo.opening == OpenRefused && Base(image) in files
       else e.cmd.openIo.opening == OpenRefused || Base(image) !in files
  }

  /** That is when a change of write protection unmounts a drive. */
  lemma ReopenUnmounts(policy: Policy, bay: Bay, files: Files, e: Event)
    requires BaySound(e.drive, bay) && e.cmd.Protect? && bay.state.mounted
    ensures !BayNext(policy, bay, files, e).0.state.mounted <==> FailedReopen(policy, bay, files, e)
  {
    var Protect(flag, unique, io) := e.cmd;
    if bay.state.readonly != flag {
      RemountUnmounts(policy, bay.(state := bay.state.(readonly := flag)), files, e.drive, unique, io);
    }
  }

  lemma RemountUnmounts(policy: Policy, bay: Bay, files: Files, drive: nat, unique: nat, io: OpenIo)
    requires bay.state.mounted && bay.state.filename.Of? && (bay.state.scratchPath.Some? ==> bay.state.scratchPath.value.DriveScratch?)
    ensures var image, readonly := bay.state.filename.image, bay.state.readonly;
            !RemountBay(policy, bay, files, drive, readonly, unique, io).0.state.mounted <==>
              if readonly && policy(image.name) then io.opening == OpenRefused && Base(image) in files
              else io.opening == OpenRefused || Base(image) !in files
  {
    assert Base(bay.state.filename.image) in DiscardScratch(bay.state, files, io.removes) <==> Base(bay.state.filename.image) in files;
  }

  /** The drive no longer holds the image, and is not in a window either. */
  predicate LeftUnnoticed(next: Bay, image: Image, now: int) {
    !MountedOn(next, image) && !InWindow(next.state, now)
  }

  /** A ready drive leaves its image without a window exactly by a failed reopen. */
  lemma LeavesUnnoticedExactly(policy: Policy, bay: Bay, files: Files, e: Event, image: Image)
    requires BaySound(e.drive, bay) && MountedOn(bay, image) && Ready(bay.state, e.now)
    ensures LeftUnnoticed(BayNext(policy, bay, files, e).0, image, e.now) <==> FailedReopen(policy, bay, files, e)
  {
    if e.cmd.Protect? {
      ReopenUnmounts(policy, bay, files, e);
      ProtectKeepsImage(policy, bay, files, e.drive, e.cmd.flag, e.cmd.unique, e.cmd.openIo, image);
    } else {
      LeavingOpensWindow(policy, bay, files, e, image);
    }
  }

  /** An image leaves a drive only with a window opening at that moment, but for a failed reopen. */
  lemma LeavingOpensWindow(policy: Policy, bay: Bay, files: Files, e: Event, image: Image)
    requires BaySound(e.drive, bay) && MountedOn(bay, image) && !FailedReopen(policy, bay, files, e)
    ensures var next := BayNext(policy, bay, files, e).0;
            MountedOn(next, image) || next.state.unavailableUntil == Some(e.now + SWAP_INVALIDATE_WINDOW_MS)
  {
    match e.cmd
    case Protect(flag, unique, io) =>
      ReopenUnmounts(policy, bay, files, e);
      ProtectKeepsImage(policy, bay, files, e.drive, flag, unique, io, image);
    case Mount(other, unique, io) => MountOpensWindow(policy, bay, files, e.drive, other, e.now, unique, io);
    case Reload(unique, io) => MountOpensWindow(policy, bay, files, e.drive, image, e.now, unique, io);
    case _ =>
  }

  lemma ProtectKeepsImage(policy: Policy, bay: Bay, files: Files, drive: nat, flag: bool, unique: nat, io: OpenIo, image: Image)
    requires MountedOn(bay, image)
    ensures var next := ProtectBay(policy, bay, files, drive, flag, unique, io).0;
            next.state.filename == Of(image) && next.state.unavailableUntil == bay.state.unavailableUntil
  {
  }

  lemma MountOpensWindow(policy: Policy, bay: Bay, files: Files, drive: nat, image: Image, now: int, unique: nat, io: OpenIo)
    requires bay.state.mounted || InWindow(bay.state, now)
    ensures MountBay(policy, bay, files, drive, image, now, unique, io).0.state.unavailableUntil == Some(now + SWAP_INVALIDATE_WINDOW_MS)
  {
  }

  /** Windows are only ever put off. */
  lemma WindowStays(policy: Policy, bay: Bay, files: Files, e: Event, until: int)
    requires WindowUntil(bay, until) && until <= e.now + SWAP_INVALIDATE_WINDOW_MS
    ensures WindowUntil(BayNext(policy, bay, files, e).0, until)
  {
    match e.cmd
    case Protect(flag, unique, io) => ProtectKeepsWindow(policy, bay, files, e.drive, flag, unique, io);
    case Mount(image, unique, io) => MountPutsOffWindow(policy, bay, files, e.drive, image, e.now, unique, io, until);
    case Reload(unique, io) =>
      if bay.state.filename.Of? {
        MountPutsOffWindow(policy, bay, files, e.drive, bay.state.filename.image, e.now, unique, io, until);
      }
    case _ =>
  }

  lemma ProtectKeepsWindow(policy: Policy, bay: Bay, files: Files, drive: nat, flag: bool, unique: nat, io: OpenIo)
    ensures ProtectBay(policy, bay, files, drive, flag, unique, io).0.state.unavailableUntil == bay.state.unavailableUntil
  {
  }

  lemma MountPutsOffWindow(policy: Policy, bay: Bay, files: Files, drive: nat, image: Image, now: int, unique: nat, io: OpenIo, until: int)
    requires WindowUntil(bay, until) && until <= now + SWAP_INVALIDATE_WINDOW_MS
    ensures WindowUntil(MountBay(policy, bay, files, drive, image, now, unique, io).0, until)
  {
  }

  /** The drive is not ready at the event, and a read or a write of it then is refused and changes nothing. */
  predicate RefusesAt(bay: Bay, files: Files, e: Event) {
    && !Ready(bay.state, e.now) && !CanWriteBay(bay, e.now)
    && (e.cmd.Read? ==> ReadBay(bay, files, e.cmd.track, e.cmd.length, e.now, e.cmd.ioWorks) == (bay, Refused(NOT_READY)))
    && (e.cmd.Write? ==> WriteBay(bay, files, e.cmd.at, e.cmd.length, e.cmd.buffer, e.now, e.cmd.io) == (bay, files, Refused(NOT_READY)))
  }

  lemma RackWindowStays(policy: Policy, r: Rack, e: Event, s: Rack, d: nat, until: int)
    requires RackNext(policy, r, e, s) && d in r.bays && WindowUntil(r.bays[d], until) && until <= e.now + SWAP_INVALIDATE_WINDOW_MS
    ensures d in s.bays && WindowUntil(s.bays[d], until)
  {
    if e.drive == d {
      WindowStays(policy, r.bays[d], r.files, e, until);
    }
  }

  /** A window not to end before a time stays so through events that are not more than a window's length earlier. */
  lemma {:induction false} WindowLasts(policy: Policy, racks: seq<Rack>, events: seq<Event>, d: nat, from: nat, m: nat, until: int)
    requires |racks| == |events| + 1 && from <= m < |racks| && d in racks[from].bays && WindowUntil(racks[from].bays[d], until)
    requires forall n :: from <= n < m ==>
               RackNext(policy, racks[n], events[n], racks[n + 1]) && until <= events[n].now + SWAP_INVALIDATE_WINDOW_MS
    ensures d in racks[m].bays && WindowUntil(racks[m].bays[d], until)
    decreases m
  {
    if m > from {
      var n := m - 1;
      WindowLasts(policy, racks, events, d, from, n, until);
      assert RackNext(policy, racks[n], events[n], racks[n + 1]);
      RackWindowStays(policy, racks[n], events[n], racks[m], d, until);
    }
  }

  lemma WindowHolds(policy: Policy, racks: seq<Rack>, events: seq<Event>, d: nat, k: nat, m: nat)
    requires Run(policy, racks, events) && k < m < |racks| && d in racks[k + 1].bays
    requires WindowUntil(racks[k + 1].bays[d], events[k].now + SWAP_INVALIDATE_WINDOW_MS)
    ensures d in racks[m].bays && WindowUntil(racks[m].bays[d], events[k].now + SWAP_INVALIDATE_WINDOW_MS)
  {
    WindowLasts(policy, racks, events, d, k + 1, m, events[k].now + SWAP_INVALIDATE_WINDOW_MS);
  }

  ghost predicate ReopensOf(policy: Policy, racks: seq<Rack>, events: seq<Event>, d: nat, i: nat, j: nat)
    requires Run(policy, racks, events) && i <= j <= |events|
  {
    forall k :: i <= k < j && events[k].drive == d && d in racks[k].bays ==> !FailedReopen(policy, racks[k].bays[d], racks[k].files, events[k])
  }

  /** Either the drive has stayed on the image, or it left it at some event, which opened a window. */
  lemma {:induction false} StaysOrLeaves(policy: Policy, racks: seq<Rack>, events: seq<Event>, d: nat, image: Image, i: nat, j: nat)
    returns (k: nat)
    requires Run(policy, racks, events) && BaysSound(racks[0]) && i <= j <= |events| && ReopensOf(policy, racks, events, d, i, j)
    requires d in racks[i].bays && MountedOn(racks[i].bays[d], image)
    ensures d in racks[j].bays
    ensures MountedOn(racks[j].bays[d], image)
            || (i <= k < j && d in racks[k + 1].bays
                && WindowUntil(racks[k + 1].bays[d], events[k].now + SWAP_INVALIDATE_WINDOW_MS))
    decreases j
  {
    k := i;
    if i < j {
      var n := j - 1;
      assert ReopensOf(policy, racks, events, d, i, n);
      k := StaysOrLeaves(policy, racks, events, d, image, i, n);
      assert RackNext(policy, racks[n], events[n], racks[n + 1]);
      if MountedOn(racks[n].bays[d], image) {
        RunStaysSound(policy, racks, events, n);
        if events[n].drive == d {
          LeavingOpensWindow(policy, racks[n].bays[d], racks[n].files, events[n], image);
        }
        if !MountedOn(racks[j].bays[d], image) { k := n; }
      }
    }
  }

  /** A successful read of a drive, at an event of a run, of the image it was mounted on. */
  ghost predicate ReadsImage(policy: Policy, racks: seq<Rack>, events: seq<Event>, i: nat, d: nat, image: Image)
    requires Run(policy, racks, events)
  {
    && i < |events| && events[i].drive == d && events[i].cmd.Read? && d in racks[i].bays
    && racks[i].bays[d].state.filename == Of(image)
    && ReadBay(racks[i].bays[d], racks[i].files, events[i].cmd.track, events[i].cmd.length, events[i].now, events[i].cmd.ioWorks).1.Done?
  }

  /**
   Between successful reads of two different images on one drive, there is an
   event from which on the drive is not ready for 2500 ms on end and refuses
   all reads and writes, however often images were mounted, unmounted or failed
   to mount meanwhile.
   */
  lemma ReadsOfTwoImagesApart(policy: Policy, racks: seq<Rack>, events: seq<Event>, d: nat, i: nat, j: nat, a: Image, b: Image)
    returns (k: nat)
    requires Run(policy, racks, events) && BaysSound(racks[0]) && i < j && a != b
    requires ReadsImage(policy, racks, events, i, d, a) && ReadsImage(policy, racks, events, j, d, b)
    requires ReopensOf(policy, racks, events, d, i, j)
    ensures i <= k < j
    ensures events[i].now <= events[k].now && events[k].now + 2500 <= events[j].now
    ensures forall m :: k < m <= j ==> d in racks[m].bays && NotReadyUntil(racks[m].bays[d], events[k].now + 2500)
    ensures forall m :: k < m < j && events[m].drive == d && events[m].now < events[k].now + SWAP_INVALIDATE_WINDOW_MS ==>
              RefusesAt(racks[m].bays[d], racks[m].files, events[m])
  {
    k := StaysOrLeaves(policy, racks, events, d, a, i, j);
    WindowHolds(policy, racks, events, d, k, j);
    forall m | k < m <= j
      ensures d in racks[m].bays && NotReadyUntil(racks[m].bays[d], events[k].now + SWAP_INVALIDATE_WINDOW_MS)
    {
      WindowHolds(policy, racks, events, d, k, m);
    }
  }

  /** What a reopen that failed leaves: no file, no window, and every other image as it was. */
  lemma FailedReopenLeaves(policy: Policy, bay: Bay, files: Files, e: Event, b: Image)
    requires BaySound(e.drive, bay) && e.cmd.Protect? && FailedReopen(policy, bay, files, e) && Base(b) in files
    ensures var (failed, left) := BayNext(policy, bay, files, e);
            && !failed.state.mounted && failed.handle.None? && failed.state.scratchPath.None?
            && failed.state.unavailableUntil == bay.state.unavailableUntil
            && Base(b) in left && left[Base(b)] == files[Base(b)]
  {
    ReopenUnmounts(policy, bay, files, e);
  }

  /** A drive with no file and not in a window reads a newly mounted image at once. */
  lemma MountedAtOnce(policy: Policy, bay: Bay, files: Files, drive: nat, now: int, b: Image, unique: nat, removes: bool)
    requires !bay.state.mounted && bay.state.scratchPath.None? && !InWindow(bay.state, now) && Base(b) in files
    ensures var (next, after, _) := MountBay(policy, bay, files, drive, b, now, unique, OpenIo(removes, Opens));
            && MountedOn(next, b) && Ready(next.state, now)
            && next.handle.Some? && next.handle.value.path in after && after[next.handle.value.path] == files[Base(b)]
  {
  }

  /**
   After a reopen that failed there is no window: from every drive that was
   ready, another image mounted at once is read at once.
   */
  lemma FailedReopenSkipsWindow(policy: Policy, bay: Bay, files: Files, drive: nat, now: int, a: Image, b: Image, unique: nat, io: OpenIo,
                                removes: bool)
    requires MountedOn(bay, a) && Ready(bay.state, now) && a != b && BaySound(drive, bay)
    requires FailedReopen(policy, bay, files, Event(now, drive, Protect(!bay.state.readonly, unique, io)))
    requires Base(b) in files
    ensures var (failed, left) := BayNext(policy, bay, files, Event(now, drive, Protect(!bay.state.readonly, unique, io)));
            var (next, after) := BayNext(policy, failed, left, Event(now, drive, Command.Mount(b, unique, OpenIo(removes, Opens))));
            && MountedOn(next, b) && Ready(next.state, now)
            && ReadBay(next, after, 0, 0, now, true).1.Done?
            && forall track: nat, length :: 0 < length && track * length + length <= |files[Base(b)]| ==>
                 ReadBay(next, after, track, length, now, true).1 == Done(ReadAt(files[Base(b)], track * length, length))
  {
    var (failed, left) := BayNext(policy, bay, files, Event(now, drive, Protect(!bay.state.readonly, unique, io)));
    FailedReopenLeaves(policy, bay, files, Event(now, drive, Protect(!bay.state.readonly, unique, io)), b);
    MountedAtOnce(policy, failed, left, drive, now, b, unique, removes);
  }
}
