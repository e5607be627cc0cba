/** Images behind transient drives stay as they are until somebody asks for a commit. */
module TransientMasters {
  import opened Bytes
  import opened FileStore
  import opened DriveManager
  import opened Rack

  ghost predicate RackSound(r: Rack) {
    forall d :: d in r.bays ==> BaySound(d, r.bays[d]) && (r.bays[d].state.transient ==> r.bays[d].state.scratchPath.value in r.files)
  }

  ghost predicate FreshName(files: Files, drive: nat, unique: nat) {
    forall dir :: DriveScratch(dir, drive, unique) !in files
  }

  /** New scratch copies get names no file has. */
  ghost predicate NamesFresh(files: Files, e: Event) {
    match e.cmd
    case Mount(_, unique, _) => FreshName(files, e.drive, unique)
    case Protect(_, unique, _) => FreshName(files, e.drive, unique)
    case Reload(unique, _) => FreshName(files, e.drive, unique)
    case _ => true
  }

  /** A write to the image of a drive that mounts it read-write. */
  predicate WritesImage(bay: Bay, e: Event, image: Image) {
    e.cmd.Write? && MountedOn(bay, image) && !bay.state.readonly && !bay.state.transient
  }

  predicate Commits(bay: Bay, files: Files, e: Event) {
    e.cmd.Commit? && e.cmd.ioWorks && TransientBacked(bay.state) && bay.state.scratchPath.value in files
  }

  /** What a command may do to the files: its drive's scratch copies, temporaries, and images as described. */
  ghost predicate TouchesOnly(bay: Bay, files: Files, e: Event, after: Files) {
    && (forall p: Path :: (p.DriveScratch? && p.drive != e.drive) || p.Splinter? || p.Scratch? ==>
          (p in after <==> p in files) && (p in files ==> after[p] == files[p]))
    && (forall image ::
          if Commits(bay, files, e) && bay.state.filename == Of(image)
          then Base(image) in after && after[Base(image)] == files[bay.state.scratchPath.value]
          else
            && (Base(image) in after <==> Base(image) in files)
            && (Base(image) in files && after[Base(image)] != files[Base(image)] ==> WritesImage(bay, e, image)))
  }

  /** The drive's scratch copy is there, and a new one is a copy of the image. */
  ghost predicate ScratchMade(bay: Bay, next: Bay, after: Files) {
    next.state.transient ==>
      && next.state.scratchPath.Some? && next.state.scratchPath.value in after
      && (next.state.scratchPath != bay.state.scratchPath ==>
            && next.state.filename.Of? && Base(next.state.filename.image) in after && !next.state.dirty
            && after[next.state.scratchPath.value] == after[Base(next.state.filename.image)])
      && (next.state.scratchPath == bay.state.scratchPath ==> next.state.filename == bay.state.filename)
  }

  ghost predicate ScratchThere(bay: Bay, files: Files) {
    bay.state.transient ==> bay.state.scratchPath.Some? && bay.state.scratchPath.value in files
  }

  ghost predicate GoodNext(drive: nat, bay: Bay, files: Files, e: Event, next: Bay, after: Files) {
    BaySound(drive, next) && TouchesOnly(bay, files, e, after) && ScratchMade(bay, next, after)
  }

  lemma MountGood(policy: Policy, bay: Bay, files: Files, e: Event, image: Image, unique: nat, io: OpenIo)
    requires BaySound(e.drive, bay) && ScratchThere(bay, files) && (e.cmd.Mount? || e.cmd.Reload?)
    requires FreshName(files, e.drive, unique)
    ensures var (next, after, _) := MountBay(policy, bay, files, e.drive, image, e.now, unique, io);
            GoodNext(e.drive, bay, files, e, next, after)
  {
    MountSound(policy, bay, files, e.drive, image, e.now, unique, io);
    MountTouches(policy, bay, files, e, image, unique, io);
    MountMakes(policy, bay, files, e, image, unique, io);
  }

  lemma MountTouches(policy: Policy, bay: Bay, files: Files, e: Event, image: Image, unique: nat, io: OpenIo)
    requires BaySound(e.drive, bay) && (e.cmd.Mount? || e.cmd.Reload?)
    ensures TouchesOnly(bay, files, e, MountBay(policy, bay, files, e.drive, image, e.now, unique, io).1)
  {
  }

  lemma MountMakes(policy: Policy, bay: Bay, files: Files, e: Event, image: Image, unique: nat, io: OpenIo)
    requires BaySound(e.drive, bay) && ScratchThere(bay, files) && FreshName(files, e.drive, unique)
    ensures var (next, after, _) := MountBay(policy, bay, files, e.drive, image, e.now, unique, io);
            ScratchMade(bay, next, after)
  {
  }

  lemma ProtectGood(policy: Policy, bay: Bay, files: Files, e: Event)
    requires BaySound(e.drive, bay) && ScratchThere(bay, files) && e.cmd.Protect? && NamesFresh(files, e)
    ensures var (next, after) := BayNext(policy, bay, files, e);
            GoodNext(e.drive, bay, files, e, next, after)
  {
    BayStaysSound(policy, bay, files, e);
    ProtectTouches(policy, bay, files, e);
    ProtectMakes(policy, bay, files, e);
  }

  lemma ProtectTouches(policy: Policy, bay: Bay, files: Files, e: Event)
    requires BaySound(e.drive, bay) && e.cmd.Protect?
    ensures TouchesOnly(bay, files, e, BayNext(policy, bay, files, e).1)
  {
  }

  lemma ProtectMakes(policy: Policy, bay: Bay, files: Files, e: Event)
    requires BaySound(e.drive, bay) && ScratchThere(bay, files) && e.cmd.Protect? && NamesFresh(files, e)
    ensures var (next, after) := BayNext(policy, bay, files, e);
            ScratchMade(bay, next, after)
  {
  }

  lemma WriteGood(policy: Policy, bay: Bay, files: Files, e: Event)
    requires BaySound(e.drive, bay) && ScratchThere(bay, files) && e.cmd.Write?
    ensures var (next, after) := BayNext(policy, bay, files, e);
            GoodNext(e.drive, bay, files, e, next, after)
  {
  }

  lemma CommitGood(policy: Policy, bay: Bay, files: Files, e: Event)
    requires BaySound(e.drive, bay) && ScratchThere(bay, files) && e.cmd.Commit?
    ensures var (next, after) := BayNext(policy, bay, files, e);
            GoodNext(e.drive, bay, files, e, next, after)
  {
  }

  lemma EventGood(policy: Policy, bay: Bay, files: Files, e: Event)
    requires BaySound(e.drive, bay) && ScratchThere(bay, files) && NamesFresh(files, e)
    ensures var (next, after) := BayNext(policy, bay, files, e);
            GoodNext(e.drive, bay, files, e, next, after)
  {
    match e.cmd
    case Mount(image, unique, io) => MountGood(policy, bay, files, e, image, unique, io);
    case Reload(unique, io) =>
      if bay.state.mounted { MountGood(policy, bay, files, e, bay.state.filename.image, unique, io); }
    case Protect(_, _, _) => ProtectGood(policy, bay, files, e);
    case Write(_, _, _, _) => WriteGood(policy, bay, files, e);
    case Commit(_) => CommitGood(policy, bay, files, e);
    case _ =>
  }

  // ---- the rack ------------------------------------------------------------

  lemma SoundKept(policy: Policy, r: Rack, e: Event, s: Rack)
    requires RackSound(r) && RackNext(policy, r, e, s) && NamesFresh(r.files, e)
    ensures RackSound(s)
    ensures GoodNext(e.drive, r.bays[e.drive], r.files, e, s.bays[e.drive], s.files)
  {
    EventGood(policy, r.bays[e.drive], r.files, e);
  }

  /**
   An image's bytes change only when a drive that mounts it read-write writes to
   it, or when a transient drive of it is committed, which makes it equal the scratch copy.
   */
  lemma ImagesChangeOnlySo(policy: Policy, r: Rack, e: Event, s: Rack, image: Image)
    requires RackSound(r) && RackNext(policy, r, e, s) && NamesFresh(r.files, e)
    requires Base(image) in r.files && (Base(image) !in s.files || s.files[Base(image)] != r.files[Base(image)])
    ensures Base(image) in s.files
    ensures var bay := r.bays[e.drive];
            || WritesImage(bay, e, image)
            || (Commits(bay, r.files, e) && bay.state.filename == Of(image)
                && s.files[Base(image)] == r.files[bay.state.scratchPath.value])
  {
    SoundKept(policy, r, e, s);
  }

  /** A write that fails after some bytes have reached the file spoils a scratch copy unnoticed. */
  predicate WritesAllOrNothing(e: Event) {
    e.cmd.Write? ==> Succeeds(e.cmd.io, 0) || Furthest(e.cmd.io, 0) == 0
  }

  /** What each transient drive's image held when it was copied or last committed. */
  ghost function OriginNext(r: Rack, origin: map<nat, Content>, e: Event, s: Rack): map<nat, Content>
    requires e.drive in r.bays && e.drive in s.bays
  {
    var bay, next := r.bays[e.drive], s.bays[e.drive];
    if next.state.transient && next.state.filename.Of? && Base(next.state.filename.image) in s.files
       && (next.state.scratchPath != bay.state.scratchPath || Commits(bay, r.files, e))
    then origin[e.drive := s.files[Base(next.state.filename.image)]]
    else origin
  }

  ghost predicate CleanMatches(r: Rack, origin: map<nat, Content>) {
    forall d :: d in r.bays && r.bays[d].state.transient && !r.bays[d].state.dirty ==>
      && r.bays[d].state.scratchPath.Some? && r.bays[d].state.scratchPath.value in r.files
      && d in origin && r.files[r.bays[d].state.scratchPath.value] == origin[d]
  }

  /** Still clean, on the same scratch copy: then the copy is as it was, and was clean or has just been committed. */
  ghost predicate CleanAsBefore(bay: Bay, files: Files, e: Event, next: Bay, after: Files) {
    next.state.transient && !next.state.dirty && next.state.scratchPath == bay.state.scratchPath ==>
      && bay.state.transient && (bay.state.dirty ==> Commits(bay, files, e))
      && bay.state.scratchPath.Some? && SameFileAt(files, after, bay.state.scratchPath.value)
  }

  predicate SameFileAt(files: Files, after: Files, path: Path) {
    path in files && path in after && after[path] == files[path]
  }

  lemma MountOwnScratch(policy: Policy, bay: Bay, files: Files, e: Event, image: Image, unique: nat, io: OpenIo)
    requires BaySound(e.drive, bay) && ScratchThere(bay, files) && FreshName(files, e.drive, unique)
    ensures var (next, after, _) := MountBay(policy, bay, files, e.drive, image, e.now, unique, io);
            CleanAsBefore(bay, files, e, next, after)
  {
  }

  lemma ProtectOwnScratch(policy: Policy, bay: Bay, files: Files, e: Event)
    requires BaySound(e.drive, bay) && ScratchThere(bay, files) && NamesFresh(files, e) && e.cmd.Protect?
    ensures var (next, after) := BayNext(policy, bay, files, e);
            CleanAsBefore(bay, files, e, next, after)
  {
  }

  lemma WriteOwnScratch(policy: Policy, bay: Bay, files: Files, e: Event)
    requires BaySound(e.drive, bay) && ScratchThere(bay, files) && WritesAllOrNothing(e) && e.cmd.Write?
    ensures var (next, after) := BayNext(policy, bay, files, e);
            CleanAsBefore(bay, files, e, next, after)
  {
  }

  /** Only a successful write makes the drive's own scratch copy differ, and it marks the drive dirty. */
  lemma OwnScratchKept(policy: Policy, bay: Bay, files: Files, e: Event)
    requires BaySound(e.drive, bay) && ScratchThere(bay, files) && NamesFresh(files, e) && WritesAllOrNothing(e)
    ensures var (next, after) := BayNext(policy, bay, files, e);
            CleanAsBefore(bay, files, e, next, after)
  {
    match e.cmd
    case Mount(image, unique, io) => MountOwnScratch(policy, bay, files, e, image, unique, io);
    case Reload(unique, io) =>
      if bay.state.mounted { MountOwnScratch(policy, bay, files, e, bay.state.filename.image, unique, io); }
    case Protect(_, _, _) => ProtectOwnScratch(policy, bay, files, e);
    case Write(_, _, _, _) => WriteOwnScratch(policy, bay, files, e);
    case _ =>
  }

  lemma CleanKept(policy: Policy, r: Rack, origin: map<nat, Content>, e: Event, s: Rack)
    requires RackSound(r) && CleanMatches(r, origin) && RackNext(policy, r, e, s) && NamesFresh(r.files, e) && WritesAllOrNothing(e)
    ensures CleanMatches(s, OriginNext(r, origin, e, s))
  {
    SoundKept(policy, r, e, s);
    OwnScratchKept(policy, r.bays[e.drive], r.files, e);
  }

  /** No image is mounted on two drives. */
  ghost predicate Exclusive(r: Rack) {
    forall c, d :: c in r.bays && d in r.bays && c != d && r.bays[c].state.mounted && r.bays[d].state.mounted ==>
      r.bays[c].state.filename != r.bays[d].state.filename
  }

  /** Transient drives' images are still as copied or last committed. */
  ghost predicate MastersAsCopied(r: Rack, origin: map<nat, Content>) {
    forall d :: d in r.bays && r.bays[d].state.transient ==>
      && r.bays[d].state.filename.Of? && Base(r.bays[d].state.filename.image) in r.files
      && d in origin && r.files[Base(r.bays[d].state.filename.image)] == origin[d]
  }

  lemma MastersKept(policy: Policy, r: Rack, origin: map<nat, Content>, e: Event, s: Rack)
    requires RackSound(r) && Exclusive(r) && MastersAsCopied(r, origin) && RackNext(policy, r, e, s) && NamesFresh(r.files, e)
    ensures MastersAsCopied(s, OriginNext(r, origin, e, s))
  {
    SoundKept(policy, r, e, s);
    forall d | d in s.bays && s.bays[d].state.transient
      ensures var image := s.bays[d].state.filename.image;
              && Base(image) in s.files
              && d in OriginNext(r, origin, e, s) && s.files[Base(image)] == OriginNext(r, origin, e, s)[d]
    {
      var image := s.bays[d].state.filename.image;
      if d != e.drive {
        var bay := r.bays[e.drive];
        assert !(bay.state.mounted && bay.state.filename == Of(image));
      }
    }
  }

  ghost predicate History(policy: Policy, racks: seq<Rack>, events: seq<Event>, origins: seq<map<nat, Content>>) {
    && Run(policy, racks, events) && |origins| == |racks|
    && (forall i :: 0 <= i < |events| ==>
          && NamesFresh(racks[i].files, events[i]) && WritesAllOrNothing(events[i])
          && origins[i + 1] == OriginNext(racks[i], origins[i], events[i], racks[i + 1]))
  }

  /** At the start every drive is empty. */
  predicate AllEmpty(r: Rack) {
    forall d :: d in r.bays ==> r.bays[d] == Bay(EMPTY, None)
  }

  lemma {:induction false} HistorySound(policy: Policy, racks: seq<Rack>, events: seq<Event>, origins: seq<map<nat, Content>>, i: nat)
    requires History(policy, racks, events, origins) && AllEmpty(racks[0]) && i < |racks|
    ensures RackSound(racks[i]) && CleanMatches(racks[i], origins[i])
  {
    if i > 0 {
      var k := i - 1;
      HistorySound(policy, racks, events, origins, k);
      assert RackNext(policy, racks[k], events[k], racks[k + 1]);
      SoundKept(policy, racks[k], events[k], racks[k + 1]);
      CleanKept(policy, racks[k], origins[k], events[k], racks[k + 1]);
    }
  }

  lemma {:induction false} HistoryMasters(policy: Policy, racks: seq<Rack>, events: seq<Event>, origins: seq<map<nat, Content>>, i: nat)
    requires History(policy, racks, events, origins) && AllEmpty(racks[0]) && i < |racks|
    requires forall k :: 0 <= k < i ==> Exclusive(racks[k])
    ensures MastersAsCopied(racks[i], origins[i])
  {
    if i > 0 {
      var k := i - 1;
      HistoryMasters(policy, racks, events, origins, k);
      HistorySound(policy, racks, events, origins, k);
      assert RackNext(policy, racks[k], events[k], racks[k + 1]);
      MastersKept(policy, racks[k], origins[k], events[k], racks[k + 1]);
    }
  }

  /** With no image on two drives, the scratch copy of every clean transient drive equals its image, at all times. */
  lemma CleanScratchIsImage(policy: Policy, racks: seq<Rack>, events: seq<Event>, origins: seq<map<nat, Content>>, i: nat, d: nat)
    requires History(policy, racks, events, origins) && AllEmpty(racks[0]) && i < |racks|
    requires forall k :: 0 <= k < i ==> Exclusive(racks[k])
    requires d in racks[i].bays && racks[i].bays[d].state.transient && !racks[i].bays[d].state.dirty
    ensures var s := racks[i].bays[d].state;
            && s.filename.Of? && s.scratchPath.Some?
            && s.scratchPath.value in racks[i].files && Base(s.filename.image) in racks[i].files
            && racks[i].files[s.scratchPath.value] == racks[i].files[Base(s.filename.image)]
  {
    HistorySound(policy, racks, events, origins, i);
    HistoryMasters(policy, racks, events, origins, i);
  }

  // ---- stray scratch copies ------------------------------------------------

  /** A scratch copy of the image is made and cannot be opened. */
  predicate CopiesInVain(policy: Policy, files: Files, image: Image, io: OpenIo) {
    policy(image.name) && Base(image) in files && io.opening == OpenRefused
  }

  /** The drive has a scratch copy, and its removal fails. */
  predicate KeepsRemoved(bay: Bay, removes: bool) {
    bay.state.scratchPath.Some? && !removes
  }

  /**
   The commands that leave a copy behind: a mount or a change to read-only
   whose copy cannot be opened, and any that gives up a copy that cannot be removed.
   */
  predicate Leaks(policy: Policy, bay: Bay, files: Files, e: Event) {
    match e.cmd
    case Mount(image, _, io) => (bay.state.readonly && CopiesInVain(policy, files, image, io)) || KeepsRemoved(bay, io.removes)
    case Reload(_, io) =>
      && bay.state.mounted && bay.state.filename.Of?
      && ((bay.state.readonly && CopiesInVain(policy, files, bay.state.filename.image, io)) || KeepsRemoved(bay, io.removes))
    case Protect(flag, _, io) =>
      && bay.state.mounted && bay.state.filename.Of? && bay.state.readonly != flag
      && ((flag && CopiesInVain(policy, files, bay.state.filename.image, io)) || KeepsRemoved(bay, io.removes))
    case Unmount(closeFails, removes) =>
      !(bay.state.mounted && bay.handle.Some? && closeFails) && KeepsRemoved(bay, removes)
    case _ => false
  }

  /** The file is a copy the drive does not know of. */
  predicate Stray(bay: Bay, files: Files, path: Path) {
    path in files && bay.state.scratchPath != Some(path)
  }

  /** A mount leaves its new copy astray exactly when the copy was made and could not be opened. */
  lemma MountStraysExactly(policy: Policy, bay: Bay, files: Files, drive: nat, image: Image, now: int, unique: nat, io: OpenIo)
    requires BaySound(drive, bay) && FreshName(files, drive, unique)
    ensures var (next, after, _) := MountBay(policy, bay, files, drive, image, now, unique, io);
            Stray(next, after, DriveScratch(image.dir, drive, unique)) <==>
              bay.state.readonly && CopiesInVain(policy, files, image, io)
  {
  }

  /** So does a change of write protection, exactly when it is to read-only. */
  lemma ProtectStraysExactly(policy: Policy, bay: Bay, files: Files, drive: nat, flag: bool, unique: nat, io: OpenIo)
    requires BaySound(drive, bay) && FreshName(files, drive, unique) && bay.state.mounted
    ensures var (next, after, _) := ProtectBay(policy, bay, files, drive, flag, unique, io);
            Stray(next, after, DriveScratch(bay.state.filename.image.dir, drive, unique)) <==>
              !bay.state.readonly && flag && CopiesInVain(policy, files, bay.state.filename.image, io)
  {
  }

  /** Every scratch copy is the recorded one of its drive. */
  ghost predicate NoneAstray(r: Rack) {
    forall p: Path :: p in r.files && p.DriveScratch? ==> p.drive in r.bays && r.bays[p.drive].state.scratchPath == Some(p)
  }

  /** The scratch copies of one drive among the files are the recorded one alone. */
  ghost predicate OwnRecorded(drive: nat, bay: Bay, files: Files) {
    forall p: Path :: p in files && p.DriveScratch? && p.drive == drive ==> bay.state.scratchPath == Some(p)
  }

  lemma MountRecords(policy: Policy, bay: Bay, files: Files, drive: nat, image: Image, now: int, unique: nat, io: OpenIo)
    requires BaySound(drive, bay) && ScratchThere(bay, files) && FreshName(files, drive, unique) && OwnRecorded(drive, bay, files)
    ensures var (next, after, _) := MountBay(policy, bay, files, drive, image, now, unique, io);
            OwnRecorded(drive, next, after) <==>
              !(bay.state.readonly && CopiesInVain(policy, files, image, io)) && !KeepsRemoved(bay, io.removes)
  {
    MountStraysExactly(policy, bay, files, drive, image, now, unique, io);
    if bay.state.transient { MountStraysOld(policy, bay, files, drive, image, now, unique, io); }
  }

  /** The copy a drive had goes astray in a mount exactly when it cannot be removed. */
  lemma MountStraysOld(policy: Policy, bay: Bay, files: Files, drive: nat, image: Image, now: int, unique: nat, io: OpenIo)
    requires BaySound(drive, bay) && ScratchThere(bay, files) && FreshName(files, drive, unique) && bay.state.transient
    ensures var (next, after, _) := MountBay(policy, bay, files, drive, image, now, unique, io);
            Stray(next, after, bay.state.scratchPath.value) <==> !io.removes
  {
  }

  lemma ProtectRecords(policy: Policy, bay: Bay, files: Files, drive: nat, flag: bool, unique: nat, io: OpenIo)
    requires BaySound(drive, bay) && ScratchThere(bay, files) && FreshName(files, drive, unique) && OwnRecorded(drive, bay, files)
    ensures var (next, after, _) := ProtectBay(policy, bay, files, drive, flag, unique, io);
            OwnRecorded(drive, next, after) <==>
              !(bay.state.mounted && bay.state.readonly != flag
                && ((flag && CopiesInVain(policy, files, bay.state.filename.image, io)) || KeepsRemoved(bay, io.removes)))
  {
    if bay.state.mounted {
      ProtectStraysExactly(policy, bay, files, drive, flag, unique, io);
      if bay.state.transient { ProtectStraysOld(policy, bay, files, drive, flag, unique, io); }
    }
  }

  lemma ProtectStraysOld(policy: Policy, bay: Bay, files: Files, drive: nat, flag: bool, unique: nat, io: OpenIo)
    requires BaySound(drive, bay) && ScratchThere(bay, files) && FreshName(files, drive, unique) && bay.state.transient
    ensures var (next, after, _) := ProtectBay(policy, bay, files, drive, flag, unique, io);
            Stray(next, after, bay.state.scratchPath.value) <==> bay.state.readonly != flag && !io.removes
  {
  }

  /** And in an unmount. */
  lemma UnmountRecords(bay: Bay, files: Files, drive: nat, now: int, closeFails: bool, removes: bool)
    requires BaySound(drive, bay) && ScratchThere(bay, files) && OwnRecorded(drive, bay, files)
    ensures var (next, after, _) := UnmountBay(bay, files, now, closeFails, removes);
            OwnRecorded(drive, next, after) <==>
              (bay.state.mounted && bay.handle.Some? && closeFails) || !KeepsRemoved(bay, removes)
  {
  }

  lemma EventRecords(policy: Policy, bay: Bay, files: Files, e: Event)
    requires BaySound(e.drive, bay) && ScratchThere(bay, files) && NamesFresh(files, e) && OwnRecorded(e.drive, bay, files)
    ensures var (next, after) := BayNext(policy, bay, files, e);
            OwnRecorded(e.drive, next, after) <==> !Leaks(policy, bay, files, e)
  {
    match e.cmd
    case Mount(image, unique, io) => MountRecords(policy, bay, files, e.drive, image, e.now, unique, io);
    case Reload(unique, io) =>
      if bay.state.mounted { MountRecords(policy, bay, files, e.drive, bay.state.filename.image, e.now, unique, io); }
    case Protect(flag, unique, io) => ProtectRecords(policy, bay, files, e.drive, flag, unique, io);
    case Unmount(closeFails, removes) => UnmountRecords(bay, files, e.drive, e.now, closeFails, removes);
    case _ =>
  }

  /** An event keeps every scratch copy recorded exactly when it is not one of those that leak. */
  lemma StraysExactly(policy: Policy, r: Rack, e: Event, s: Rack)
    requires RackSound(r) && NoneAstray(r) && RackNext(policy, r, e, s) && NamesFresh(r.files, e)
    ensures NoneAstray(s) <==> !Leaks(policy, r.bays[e.drive], r.files, e)
  {
    SoundKept(policy, r, e, s);
    EventRecords(policy, r.bays[e.drive], r.files, e);
    if OwnRecorded(e.drive, s.bays[e.drive], s.files) {
      forall p: Path | p in s.files && p.DriveScratch?
        ensures p.drive in s.bays && s.bays[p.drive].state.scratchPath == Some(p)
      {
        if p.drive != e.drive { assert p in r.files; }
      }
    }
  }

  // ---- runs from empty drives ----------------------------------------------

  /** A run from empty drives and no scratch copies; new copies get names no file has. */
  ghost predicate FreshRun(policy: Policy, racks: seq<Rack>, events: seq<Event>) {
    && Run(policy, racks, events) && AllEmpty(racks[0]) && NoneAstray(racks[0])
    && forall i :: 0 <= i < |events| ==> NamesFresh(racks[i].files, events[i])
  }

  lemma {:induction false} FreshRunSound(policy: Policy, racks: seq<Rack>, events: seq<Event>, i: nat)
    requires FreshRun(policy, racks, events) && i < |racks|
    ensures RackSound(racks[i])
  {
    if i > 0 {
      var k := i - 1;
      FreshRunSound(policy, racks, events, k);
      assert RackNext(policy, racks[k], events[k], racks[k + 1]);
      SoundKept(policy, racks[k], events[k], racks[k + 1]);
    }
  }

  /**
   In every run, at every event: an image's bytes change only when a drive that
   mounts it read-write writes to it, or when a transient drive of it is
   committed, which makes it equal the scratch copy.
   */
  lemma RunImagesChangeOnlySo(policy: Policy, racks: seq<Rack>, events: seq<Event>, i: nat, image: Image)
    requires FreshRun(policy, racks, events) && i < |events|
    requires Base(image) in racks[i].files
    requires Base(image) !in racks[i + 1].files || racks[i + 1].files[Base(image)] != racks[i].files[Base(image)]
    ensures Base(image) in racks[i + 1].files && events[i].drive in racks[i].bays
    ensures var bay := racks[i].bays[events[i].drive];
            || WritesImage(bay, events[i], image)
            || (Commits(bay, racks[i].files, events[i]) && bay.state.filename == Of(image)
                && racks[i + 1].files[Base(image)] == racks[i].files[bay.state.scratchPath.value])
  {
    FreshRunSound(policy, racks, events, i);
    assert RackNext(policy, racks[i], events[i], racks[i + 1]);
    ImagesChangeOnlySo(policy, racks[i], events[i], racks[i + 1], image);
  }

  /** Event i of the run is one of those that leave a copy behind. */
  ghost predicate LeaksAt(policy: Policy, racks: seq<Rack>, events: seq<Event>, i: nat)
    requires Run(policy, racks, events) && i < |events|
  {
    events[i].drive in racks[i].bays && Leaks(policy, racks[i].bays[events[i].drive], racks[i].files, events[i])
  }

  /** Up to any time of any run: no scratch copy has gone astray if and only if no event leaked one. */
  lemma {:induction false} RunStraysExactly(policy: Policy, racks: seq<Rack>, events: seq<Event>, n: nat)
    requires FreshRun(policy, racks, events) && n < |racks|
    ensures (forall i :: 0 <= i <= n ==> NoneAstray(racks[i])) <==> (forall i: nat :: i < n ==> !LeaksAt(policy, racks, events, i))
  {
    if n > 0 {
      var k := n - 1;
      RunStraysExactly(policy, racks, events, k);
      FreshRunSound(policy, racks, events, k);
      assert RackNext(policy, racks[k], events[k], racks[k + 1]);
      if NoneAstray(racks[k]) {
        StraysExactly(policy, racks[k], events[k], racks[k + 1]);
        assert NoneAstray(racks[n]) <==> !LeaksAt(policy, racks, events, k);
      }
    }
  }
}
