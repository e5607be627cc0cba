/** What a sync makes of a session's drives, and that a second one has nothing left to do. */
module SyncSound {
  import opened Bytes
  import opened FileStore
  import opened Registries
  import opened DriveSession

  /** Both mount tables and the epochs they have handed out. */
  datatype Tables = Tables(mounts: map<nat, MountEntry>, mountCounter: nat, overrides: Overrides, overrideCounter: nat)

  ghost predicate TablesStamped(t: Tables) {
    Stamped(GlobalSnapshot(t.mounts, t.mountCounter)) && Stamped(OverrideSnapshot(t.overrides, t.overrideCounter))
  }

  ghost predicate TablesChange(t: Tables, u: Tables) {
    && Changes(GlobalSnapshot(t.mounts, t.mountCounter), GlobalSnapshot(u.mounts, u.mountCounter))
    && Changes(OverrideSnapshot(t.overrides, t.overrideCounter), OverrideSnapshot(u.overrides, u.overrideCounter))
  }

  function Resolved(cfg: Config, t: Tables, drive: nat): Option<Mount> {
    ResolveEffective(cfg, t.overrides, t.mounts, drive)
  }

  function Synced(cfg: Config, t: Tables, drives: Drives, disk: Disk, n: nat, now: int, io: SyncIo): (Drives, Disk) {
    SyncAll(cfg, t.overrides, t.mounts, drives, disk, n, now, io)
  }

  /** The client's own override of a drive. */
  function OwnOverride(cfg: Config, t: Tables, drive: nat): Option<MountEntry> {
    if cfg.clientId.Some? && cfg.clientId.value != "" then OverrideAt(t.overrides, Slot(cfg.clientId.value, drive)) else None
  }

  /** Nothing but the client's own overrides and, where it shares it, the global table decides what a drive resolves to. */
  lemma ResolutionDependsOn(cfg: Config, t: Tables, u: Tables, drive: nat)
    requires cfg.clientId.Some? ==>
               OverrideAt(t.overrides, Slot(cfg.clientId.value, drive)) == OverrideAt(u.overrides, Slot(cfg.clientId.value, drive))
    requires cfg.inheritsGlobal ==> MountAt(t.mounts, drive) == MountAt(u.mounts, drive)
    ensures Resolved(cfg, t, drive) == Resolved(cfg, u, drive)
  {
  }

  // ---- an open drive's version names its image -----------------------------

  /** Whatever entry still bears an epoch is this drive's and names this image. */
  ghost predicate NamesOnly<K(!new)>(s: Snapshot<K>, epoch: nat, place: K, image: Image) {
    && epoch <= s.counter
    && forall k :: s.at(k).Some? && s.at(k).value.epoch == epoch ==> k == place && s.at(k).value.image == image
  }

  ghost predicate VersionNames(cfg: Config, t: Tables, drive: nat, sd: SessionDrive) {
    match sd.version
    case Global(e) => NamesOnly(GlobalSnapshot(t.mounts, t.mountCounter), e, drive, sd.master)
    case Client(e) =>
      && cfg.clientId.Some?
      && NamesOnly(OverrideSnapshot(t.overrides, t.overrideCounter), e, Slot(cfg.clientId.value, drive), sd.master)
  }

  ghost predicate VersionsName(cfg: Config, t: Tables, drives: Drives) {
    forall d :: d in drives ==> VersionNames(cfg, t, d, drives[d])
  }

  lemma ChangeKeepsName<K(!new)>(s: Snapshot<K>, t: Snapshot<K>, epoch: nat, place: K, image: Image)
    requires Changes(s, t) && NamesOnly(s, epoch, place, image)
    ensures NamesOnly(t, epoch, place, image)
  {
  }

  lemma TableChangeKeepsNames(cfg: Config, t: Tables, u: Tables, drives: Drives)
    requires TablesChange(t, u) && VersionsName(cfg, t, drives)
    ensures VersionsName(cfg, u, drives)
  {
    forall d | d in drives
      ensures VersionNames(cfg, u, d, drives[d])
    {
      assert VersionNames(cfg, t, d, drives[d]);
      match drives[d].version
      case Global(e) =>
        ChangeKeepsName(GlobalSnapshot(t.mounts, t.mountCounter), GlobalSnapshot(u.mounts, u.mountCounter), e, d, drives[d].master);
      case Client(e) =>
        ChangeKeepsName(OverrideSnapshot(t.overrides, t.overrideCounter), OverrideSnapshot(u.overrides, u.overrideCounter), e,
                        Slot(cfg.clientId.value, d), drives[d].master);
    }
  }

  /** The version a mount resolves with names that mount's image. */
  lemma ResolvedNames(cfg: Config, t: Tables, drive: nat, sd: SessionDrive)
    requires TablesStamped(t) && Resolved(cfg, t, drive).Some?
    requires sd.version == Resolved(cfg, t, drive).value.version && sd.master == Resolved(cfg, t, drive).value.image
    ensures VersionNames(cfg, t, drive, sd)
  {
    var o := if cfg.clientId.Some? && cfg.clientId.value != "" then OverrideAt(t.overrides, Slot(cfg.clientId.value, drive)) else None;
    if o.Some? {
      assert OverrideSnapshot(t.overrides, t.overrideCounter).at(Slot(cfg.clientId.value, drive)) == o;
    } else {
      assert GlobalSnapshot(t.mounts, t.mountCounter).at(drive) == Some(t.mounts[drive]);
    }
  }

  /** A drive whose version is the resolved one is on the resolved image. */
  lemma SameVersionSameImage(cfg: Config, t: Tables, drive: nat, sd: SessionDrive)
    requires VersionNames(cfg, t, drive, sd) && Resolved(cfg, t, drive).Some?
    requires sd.version == Resolved(cfg, t, drive).value.version
    ensures sd.master == Resolved(cfg, t, drive).value.image
  {
    match sd.version
    case Global(e) => assert GlobalSnapshot(t.mounts, t.mountCounter).at(drive).Some?;
    case Client(e) => assert OverrideSnapshot(t.overrides, t.overrideCounter).at(Slot(cfg.clientId.value, drive)).Some?;
  }

  // ---- one sync ------------------------------------------------------------

  /** A recorded copy lies where its client's copies of its drive do. */
  ghost predicate RowsApart(disk: Disk) {
    forall key :: key in disk.rows ==>
      disk.rows[key].path.Splinter? && disk.rows[key].path.client == key.0 && disk.rows[key].path.drive == key.1
  }

  /** Copies never lie at an image's own path, and recorded ones lie apart. */
  ghost predicate CopiesAside(drives: Drives, disk: Disk) {
    && (forall d :: d in drives && drives[d].scratchPath.Some? ==> !drives[d].scratchPath.value.Base?)
    && RowsApart(disk)
  }

  ghost predicate SameImages(d: Disk, f: Disk) {
    forall image :: Base(image) in f.files <==> Base(image) in d.files
  }

  ghost predicate Untouched(drive: nat, drives: Drives, after: Drives) {
    (drive in after <==> drive in drives) && (drive in drives ==> after[drive] == drives[drive])
  }

  predicate KeptOpen(drives: Drives, drive: nat, m: Mount) {
    drive in drives && drives[drive].version == m.version
  }

  /** The image is there and can be opened. */
  predicate ImageOpens(disk: Disk, drive: nat, m: Mount, io: SyncIo) {
    Base(m.image) in disk.files && io.opens(drive)
  }

  /** The client's copy is of an image of that base name, and is there and can be opened. */
  predicate CopyOpens(cfg: Config, disk: Disk, drive: nat, m: Mount, io: SyncIo) {
    && KeepId(cfg).Some? && (KeepId(cfg).value, drive) in disk.rows
    && var row := disk.rows[(KeepId(cfg).value, drive)];
       row.base == m.image.name && row.path in disk.files && io.attaches(drive)
  }

  predicate CanOpen(cfg: Config, disk: Disk, drive: nat, m: Mount, io: SyncIo) {
    CopyOpens(cfg, disk, drive, m, io) || ImageOpens(disk, drive, m, io)
  }

  /** The client's record of the drive, and whether its file is there. */
  ghost predicate SameCopy(cfg: Config, drive: nat, disk: Disk, f: Disk) {
    KeepId(cfg).Some? ==>
      var key := (KeepId(cfg).value, drive);
      && (key in disk.rows <==> key in f.rows)
      && (key in disk.rows ==> f.rows[key] == disk.rows[key] && (f.rows[key].path in f.files <==> disk.rows[key].path in disk.files))
  }

  lemma CanOpenAgrees(cfg: Config, disk: Disk, f: Disk, drive: nat, m: Mount, io: SyncIo)
    requires SameImages(disk, f) && SameCopy(cfg, drive, disk, f)
    ensures CanOpen(cfg, disk, drive, m, io) <==> CanOpen(cfg, f, drive, m, io)
  {
  }

  /** The image cannot be opened, and no copy is recorded. */
  predicate NothingToOpen(cfg: Config, disk: Disk, drive: nat, m: Mount, io: SyncIo) {
    !ImageOpens(disk, drive, m, io) && (KeepId(cfg).Some? ==> (KeepId(cfg).value, drive) !in disk.rows)
  }

  /** What one sync has made of one drive. */
  ghost predicate InStep(cfg: Config, mount: Option<Mount>, drives: Drives, disk: Disk, after: Drives, f: Disk, drive: nat, now: int, io: SyncIo) {
    match mount
    case None => drive !in after
    case Some(m) =>
      if KeptOpen(drives, drive, m) then Untouched(drive, drives, after)
      else if drive in after then
        && after[drive].version == m.version && after[drive].master == m.image
        && after[drive].unavailableUntil == Window(drive in drives, now) && CanOpen(cfg, disk, drive, m, io)
      else NothingToOpen(cfg, f, drive, m, io) && !CanOpen(cfg, disk, drive, m, io)
  }

  lemma CloseInStep(cfg: Config, drives: Drives, disk: Disk, drive: nat, removes: bool)
    requires CopiesAside(drives, disk)
    ensures var (after, f) := CloseDrive(cfg, drives, disk, drive, removes);
            && CopiesAside(after, f) && SameImages(disk, f) && f.rows == disk.rows
            && (forall d: nat :: SameCopy(cfg, d, disk, f))
            && after == drives - {drive}
  {
    if drive !in drives {
      assert drives - {drive} == drives;
    }
  }

  lemma OpenInStep(cfg: Config, drives: Drives, disk: Disk, drive: nat, mount: Mount, wasMounted: bool, now: int, io: SyncIo)
    requires CopiesAside(drives, disk) && drive !in drives
    ensures var (after, f) := OpenDrive(cfg, drives, disk, drive, mount, wasMounted, now, io);
            && CopiesAside(after, f) && SameImages(disk, f)
            && (forall d: nat :: d != drive ==> Untouched(d, drives, after))
            && (forall key :: key in f.rows ==> key in disk.rows)
            && (if drive in after
                then after[drive].version == mount.version && after[drive].master == mount.image
                     && after[drive].unavailableUntil == Window(wasMounted, now)
                else NothingToOpen(cfg, f, drive, mount, io))
            && (drive in after <==> CanOpen(cfg, disk, drive, mount, io))
            && (forall d: nat :: d != drive ==> SameCopy(cfg, d, disk, f))
  {
    OpenAside(cfg, drives, disk, drive, mount, wasMounted, now, io);
    forall d: nat | d != drive
      ensures SameCopy(cfg, d, disk, OpenDrive(cfg, drives, disk, drive, mount, wasMounted, now, io).1)
    {
      OpenLeavesCopies(cfg, drives, disk, drive, mount, wasMounted, now, io, d);
    }
  }

  lemma OpenAside(cfg: Config, drives: Drives, disk: Disk, drive: nat, mount: Mount, wasMounted: bool, now: int, io: SyncIo)
    requires CopiesAside(drives, disk) && drive !in drives
    ensures var (after, f) := OpenDrive(cfg, drives, disk, drive, mount, wasMounted, now, io);
            CopiesAside(after, f) && SameImages(disk, f) && (forall key :: key in f.rows ==> key in disk.rows)
  {
    OpenForgetsRows(cfg, drives, disk, drive, mount, wasMounted, now, io);
    OpenKeepsImages(cfg, drives, disk, drive, mount, wasMounted, now, io);
  }

  lemma OpenForgetsRows(cfg: Config, drives: Drives, disk: Disk, drive: nat, mount: Mount, wasMounted: bool, now: int, io: SyncIo)
    ensures forall key :: key in OpenDrive(cfg, drives, disk, drive, mount, wasMounted, now, io).1.rows ==>
              key in disk.rows && OpenDrive(cfg, drives, disk, drive, mount, wasMounted, now, io).1.rows[key] == disk.rows[key]
  {
  }

  lemma OpenKeepsImages(cfg: Config, drives: Drives, disk: Disk, drive: nat, mount: Mount, wasMounted: bool, now: int, io: SyncIo)
    requires RowsApart(disk)
    ensures SameImages(disk, OpenDrive(cfg, drives, disk, drive, mount, wasMounted, now, io).1)
  {
  }

  lemma OpenLeavesCopies(cfg: Config, drives: Drives, disk: Disk, drive: nat, mount: Mount, wasMounted: bool, now: int, io: SyncIo, d: nat)
    requires RowsApart(disk) && drive !in drives && d != drive
    ensures SameCopy(cfg, d, disk, OpenDrive(cfg, drives, disk, drive, mount, wasMounted, now, io).1)
  {
  }

  lemma SyncDriveInStep(cfg: Config, drives: Drives, disk: Disk, drive: nat, mount: Option<Mount>, now: int, io: SyncIo)
    requires CopiesAside(drives, disk)
    ensures var (after, f) := SyncDrive(cfg, drives, disk, drive, mount, now, io);
            && CopiesAside(after, f) && SameImages(disk, f)
            && InStep(cfg, mount, drives, disk, after, f, drive, now, io)
            && (forall d: nat :: d != drive ==> Untouched(d, drives, after) && SameCopy(cfg, d, disk, f))
            && (forall key :: key in f.rows ==> key in disk.rows)
  {
    CloseInStep(cfg, drives, disk, drive, io.removes(drive));
    var (closed, f) := CloseDrive(cfg, drives, disk, drive, io.removes(drive));
    if mount.Some? && !KeptOpen(drives, drive, mount.value) {
      OpenInStep(cfg, closed, f, drive, mount.value, drive in drives, now, io);
      var (after, g) := OpenDrive(cfg, closed, f, drive, mount.value, drive in drives, now, io);
      CanOpenAgrees(cfg, disk, f, drive, mount.value, io);
      forall d: nat | d != drive
        ensures Untouched(d, drives, after) && SameCopy(cfg, d, disk, g)
      {
        assert Untouched(d, closed, after) && SameCopy(cfg, d, disk, f) && SameCopy(cfg, d, f, g);
      }
    }
  }

  lemma {:induction false} SyncedInStep(cfg: Config, t: Tables, drives: Drives, disk: Disk, n: nat, now: int, io: SyncIo)
    requires CopiesAside(drives, disk)
    ensures var (after, f) := Synced(cfg, t, drives, disk, n, now, io);
            && CopiesAside(after, f) && SameImages(disk, f)
            && (forall d: nat :: d < n ==> InStep(cfg, Resolved(cfg, t, d), drives, disk, after, f, d, now, io))
            && (forall d: nat :: n <= d ==> Untouched(d, drives, after) && SameCopy(cfg, d, disk, f))
            && (forall key :: key in f.rows ==> key in disk.rows)
  {
    if n > 0 {
      SyncedInStep(cfg, t, drives, disk, n - 1, now, io);
      var (before, g) := Synced(cfg, t, drives, disk, n - 1, now, io);
      SyncDriveInStep(cfg, before, g, n - 1, Resolved(cfg, t, n - 1), now, io);
      var (after, f) := Synced(cfg, t, drives, disk, n, now, io);
      assert Untouched(n - 1, drives, before) && SameCopy(cfg, n - 1, disk, g);
      if Resolved(cfg, t, n - 1).Some? { CanOpenAgrees(cfg, disk, g, n - 1, Resolved(cfg, t, n - 1).value, io); }
      forall d: nat | n <= d
        ensures Untouched(d, drives, after) && SameCopy(cfg, d, disk, f)
      {
        assert Untouched(d, drives, before) && Untouched(d, before, after);
        assert SameCopy(cfg, d, disk, g) && SameCopy(cfg, d, g, f);
      }
      forall d: nat | d < n - 1
        ensures InStep(cfg, Resolved(cfg, t, d), drives, disk, after, f, d, now, io)
      {
        assert InStep(cfg, Resolved(cfg, t, d), drives, disk, before, g, d, now, io);
        assert Untouched(d, before, after);
      }
    }
  }

  /**
   After a sync a drive is open exactly when it resolves to a mount that was
   open already, or whose recorded copy or image could be opened, and it is on
   that mount's image and version.
   That mount is the client's own override, and without one the global mount,
   which only a client that shares the served set gets.
   A drive that was open before and was opened anew, and no other, gets a new swap window.
   */
  lemma SyncOpensExactly(cfg: Config, t: Tables, drives: Drives, disk: Disk, drive: nat, now: int, io: SyncIo)
    requires CopiesAside(drives, disk) && VersionsName(cfg, t, drives) && drive < MAX_DRIVES
    ensures var (after, f) := Synced(cfg, t, drives, disk, MAX_DRIVES, now, io);
            var m := Resolved(cfg, t, drive);
            && (drive in after ==> m.Some? && after[drive].master == m.value.image && after[drive].version == m.value.version)
            && (drive in after ==>
                  match OwnOverride(cfg, t, drive)
                  case Some(o) => after[drive].master == o.image
                  case None => cfg.inheritsGlobal && drive in t.mounts && after[drive].master == t.mounts[drive].image)
            && (drive in after <==> m.Some? && (KeptOpen(drives, drive, m.value) || CanOpen(cfg, disk, drive, m.value, io)))
            && (drive in after ==>
                  if KeptOpen(drives, drive, m.value) then after[drive] == drives[drive]
                  else after[drive].unavailableUntil == if drive in drives then Some(now + 2500) else None)
  {
    SyncedInStep(cfg, t, drives, disk, MAX_DRIVES, now, io);
    var (after, f) := Synced(cfg, t, drives, disk, MAX_DRIVES, now, io);
    var m := Resolved(cfg, t, drive);
    assert InStep(cfg, m, drives, disk, after, f, drive, now, io);
    if m.Some? && KeptOpen(drives, drive, m.value) {
      SameVersionSameImage(cfg, t, drive, drives[drive]);
    }
  }

  lemma SyncKeepsNames(cfg: Config, t: Tables, drives: Drives, disk: Disk, now: int, io: SyncIo)
    requires CopiesAside(drives, disk) && VersionsName(cfg, t, drives) && TablesStamped(t)
    ensures VersionsName(cfg, t, Synced(cfg, t, drives, disk, MAX_DRIVES, now, io).0)
  {
    var after := Synced(cfg, t, drives, disk, MAX_DRIVES, now, io).0;
    SyncedInStep(cfg, t, drives, disk, MAX_DRIVES, now, io);
    forall d | d in after
      ensures VersionNames(cfg, t, d, after[d])
    {
      if d < MAX_DRIVES {
        SyncOpensExactly(cfg, t, drives, disk, d, now, io);
        ResolvedNames(cfg, t, d, after[d]);
      } else {
        assert Untouched(d, drives, after);
      }
    }
  }

  // ---- a second sync -------------------------------------------------------

  lemma SyncDriveAgain(cfg: Config, drives: Drives, disk: Disk, drive: nat, mount: Option<Mount>, now: int, io: SyncIo)
    requires match mount
             case None => drive !in drives
             case Some(m) => KeptOpen(drives, drive, m) || (drive !in drives && NothingToOpen(cfg, disk, drive, m, io))
    ensures SyncDrive(cfg, drives, disk, drive, mount, now, io) == (drives, disk)
  {
    if drive !in drives {
      assert drives - {drive} == drives;
    }
  }

  lemma {:induction false} NothingToSync(cfg: Config, t: Tables, drives: Drives, disk: Disk, n: nat, now: int, io: SyncIo)
    requires forall d: nat :: d < n ==>
               match Resolved(cfg, t, d)
               case None => d !in drives
               case Some(m) => KeptOpen(drives, d, m) || (d !in drives && NothingToOpen(cfg, disk, d, m, io))
    ensures Synced(cfg, t, drives, disk, n, now, io) == (drives, disk)
  {
    if n > 0 {
      NothingToSync(cfg, t, drives, disk, n - 1, now, io);
      SyncDriveAgain(cfg, drives, disk, n - 1, Resolved(cfg, t, n - 1), now, io);
    }
  }

  /** No drive that resolves to a mount and is closed can be opened on it now. */
  ghost predicate NoneOpens(cfg: Config, t: Tables, drives: Drives, disk: Disk, io: SyncIo) {
    forall d: nat :: d < MAX_DRIVES && Resolved(cfg, t, d).Some? && d !in drives ==> !ImageOpens(disk, d, Resolved(cfg, t, d).value, io)
  }

  /**
   With the tables unchanged, a second sync, at any later time, changes nothing
   at all exactly when none of the drives that the first could not open can be
   opened now. Otherwise it opens them.
   */
  lemma SecondSyncDoesNothing(cfg: Config, t: Tables, drives: Drives, disk: Disk, now: int, io: SyncIo, again: int, ioAgain: SyncIo)
    requires CopiesAside(drives, disk)
    ensures var (after, f) := Synced(cfg, t, drives, disk, MAX_DRIVES, now, io);
            Synced(cfg, t, after, f, MAX_DRIVES, again, ioAgain) == (after, f) <==> NoneOpens(cfg, t, after, f, ioAgain)
  {
    SyncedInStep(cfg, t, drives, disk, MAX_DRIVES, now, io);
    var (after, f) := Synced(cfg, t, drives, disk, MAX_DRIVES, now, io);
    if NoneOpens(cfg, t, after, f, ioAgain) {
      forall d: nat | d < MAX_DRIVES
        ensures match Resolved(cfg, t, d)
                case None => d !in after
                case Some(m) => KeptOpen(after, d, m) || (d !in after && NothingToOpen(cfg, f, d, m, ioAgain))
      {
        assert InStep(cfg, Resolved(cfg, t, d), drives, disk, after, f, d, now, io);
      }
      NothingToSync(cfg, t, after, f, MAX_DRIVES, again, ioAgain);
    } else {
      var d: nat :| d < MAX_DRIVES && Resolved(cfg, t, d).Some? && d !in after && ImageOpens(f, d, Resolved(cfg, t, d).value, ioAgain);
      SyncedInStep(cfg, t, after, f, MAX_DRIVES, again, ioAgain);
      var (later, g) := Synced(cfg, t, after, f, MAX_DRIVES, again, ioAgain);
      assert InStep(cfg, Resolved(cfg, t, d), after, f, later, g, d, again, ioAgain);
    }
  }

  /**
   What a sync makes of a client's drives depends on nothing in the tables but
   the client's own overrides and, for a client that shares the served set, the
   global mounts.
   */
  lemma {:induction false} SyncDependsOn(cfg: Config, t: Tables, u: Tables, drives: Drives, disk: Disk, n: nat, now: int, io: SyncIo)
    requires cfg.clientId.Some? ==>
               forall d: nat :: OverrideAt(t.overrides, Slot(cfg.clientId.value, d)) == OverrideAt(u.overrides, Slot(cfg.clientId.value, d))
    requires cfg.inheritsGlobal ==> forall d: nat :: MountAt(t.mounts, d) == MountAt(u.mounts, d)
    ensures Synced(cfg, t, drives, disk, n, now, io) == Synced(cfg, u, drives, disk, n, now, io)
  {
    if n > 0 {
      SyncDependsOn(cfg, t, u, drives, disk, n - 1, now, io);
      ResolutionDependsOn(cfg, t, u, n - 1);
    }
  }

  // ---- runs ----------------------------------------------------------------

  datatype Event =
    | Retable(tables: Tables)
    | SyncNow(now: int, sync: SyncIo)
    | WriteNow(drive: nat, track: nat, length: int, buffer: seq<byte>, unique: nat, io: SessionIo)
    | Elsewhere(disk: Disk)

  datatype Scene = Scene(tables: Tables, drives: Drives, disk: Disk)

  /**
   A change of the tables by any of their methods, a step of the session, or
   any change of the files and records by others.
   */
  ghost predicate SceneNext(cfg: Config, s: Scene, event: Event, t: Scene) {
    match event
    case Retable(tables) => TablesChange(s.tables, tables) && t == s.(tables := tables)
    case SyncNow(now, io) =>
      var (drives, disk) := Synced(cfg, s.tables, s.drives, s.disk, MAX_DRIVES, now, io);
      t == Scene(s.tables, drives, disk)
    case WriteNow(drive, track, length, buffer, unique, io) =>
      var (drives, disk, _) := WriteTrack(cfg, s.drives, s.disk, drive, track, length, buffer, unique, io);
      t == Scene(s.tables, drives, disk)
    case Elsewhere(disk) => RowsApart(disk) && t == s.(disk := disk)
  }

  ghost predicate SceneSound(cfg: Config, s: Scene) {
    TablesStamped(s.tables) && VersionsName(cfg, s.tables, s.drives) && CopiesAside(s.drives, s.disk)
  }

  lemma SceneKept(cfg: Config, s: Scene, event: Event, t: Scene)
    requires SceneSound(cfg, s) && SceneNext(cfg, s, event, t)
    ensures SceneSound(cfg, t)
  {
    match event
    case Retable(tables) => RetableKept(cfg, s, tables);
    case SyncNow(now, io) =>
      SyncedInStep(cfg, s.tables, s.drives, s.disk, MAX_DRIVES, now, io);
      SyncKeepsNames(cfg, s.tables, s.drives, s.disk, now, io);
    case WriteNow(drive, track, length, buffer, unique, io) =>
      WriteKept(cfg, s.tables, s.drives, s.disk, drive, track, length, buffer, unique, io);
    case Elsewhere(disk) =>
  }

  lemma RetableKept(cfg: Config, s: Scene, u: Tables)
    requires SceneSound(cfg, s) && TablesChange(s.tables, u)
    ensures SceneSound(cfg, s.(tables := u))
  {
    var t := s.tables;
    ChangesKeepStamped(GlobalSnapshot(t.mounts, t.mountCounter), GlobalSnapshot(u.mounts, u.mountCounter));
    ChangesKeepStamped(OverrideSnapshot(t.overrides, t.overrideCounter), OverrideSnapshot(u.overrides, u.overrideCounter));
    TableChangeKeepsNames(cfg, t, u, s.drives);
  }

  lemma WriteKept(cfg: Config, t: Tables, drives: Drives, disk: Disk, drive: nat, track: nat, length: int, buffer: seq<byte>,
                  unique: nat, io: SessionIo)
    requires VersionsName(cfg, t, drives) && CopiesAside(drives, disk)
    ensures var (after, f, _) := WriteTrack(cfg, drives, disk, drive, track, length, buffer, unique, io);
            VersionsName(cfg, t, after) && CopiesAside(after, f)
  {
    WriteAside(cfg, drives, disk, drive, track, length, buffer, unique, io);
    var (after, f, _) := WriteTrack(cfg, drives, disk, drive, track, length, buffer, unique, io);
    forall d | d in after
      ensures VersionNames(cfg, t, d, after[d])
    {
      assert d in drives && after[d].version == drives[d].version && after[d].master == drives[d].master;
    }
  }

  lemma WriteAside(cfg: Config, drives: Drives, disk: Disk, drive: nat, track: nat, length: int, buffer: seq<byte>,
                   unique: nat, io: SessionIo)
    requires CopiesAside(drives, disk)
    ensures var (after, f, _) := WriteTrack(cfg, drives, disk, drive, track, length, buffer, unique, io);
            CopiesAside(after, f)
  {
  }

  ghost predicate Scenes(cfg: Config, run: seq<Scene>, events: seq<Event>) {
    |run| == |events| + 1 && forall i :: 0 <= i < |events| ==> SceneNext(cfg, run[i], events[i], run[i + 1])
  }

  lemma {:induction false} ScenesSound(cfg: Config, run: seq<Scene>, events: seq<Event>, i: nat)
    requires Scenes(cfg, run, events) && SceneSound(cfg, run[0]) && i < |run|
    ensures SceneSound(cfg, run[i])
  {
    if i > 0 {
      ScenesSound(cfg, run, events, i - 1);
      var k := i - 1;
      assert SceneNext(cfg, run[k], events[k], run[k + 1]);
      SceneKept(cfg, run[i - 1], events[i - 1], run[i]);
    }
  }

  /** After every sync of every run, each drive is where the tables say. */
  lemma EverySyncIsSound(cfg: Config, run: seq<Scene>, events: seq<Event>, i: nat, drive: nat)
    requires Scenes(cfg, run, events) && run[0].drives == map[] && run[0].disk.rows == map[] && TablesStamped(run[0].tables)
    requires i < |events| && events[i].SyncNow? && drive < MAX_DRIVES
    ensures var m := Resolved(cfg, run[i].tables, drive);
            var after := run[i + 1].drives;
            && (drive in after ==> m.Some? && after[drive].master == m.value.image && after[drive].version == m.value.version)
            && (drive in after <==> m.Some? && (KeptOpen(run[i].drives, drive, m.value) || CanOpen(cfg, run[i].disk, drive, m.value, events[i].sync)))
    ensures Synced(cfg, run[i + 1].tables, run[i + 1].drives, run[i + 1].disk, MAX_DRIVES, events[i].now, events[i].sync)
            == (run[i + 1].drives, run[i + 1].disk)
  {
    ScenesSound(cfg, run, events, i);
    var s := run[i];
    assert SceneNext(cfg, s, events[i], run[i + 1]);
    SyncOpensExactly(cfg, s.tables, s.drives, s.disk, drive, events[i].now, events[i].sync);
    SyncedInStep(cfg, s.tables, s.drives, s.disk, MAX_DRIVES, events[i].now, events[i].sync);
    forall d: nat | d < MAX_DRIVES && Resolved(cfg, s.tables, d).Some? && d !in run[i + 1].drives
      ensures !ImageOpens(run[i + 1].disk, d, Resolved(cfg, s.tables, d).value, events[i].sync)
    {
      assert InStep(cfg, Resolved(cfg, s.tables, d), s.drives, s.disk, run[i + 1].drives, run[i + 1].disk, d, events[i].now, events[i].sync);
    }
    SecondSyncDoesNothing(cfg, s.tables, s.drives, s.disk, events[i].now, events[i].sync, events[i].now, events[i].sync);
  }

  // ---- swaps without a window ----------------------------------------------

  ghost predicate OpenOn(s: Scene, d: nat, image: Image) {
    d in s.drives && s.drives[d].master == image
  }

  /** A sync that finds the drive ejected, or on a new mount that cannot be opened. */
  ghost predicate GivesUp(cfg: Config, s: Scene, e: Event, d: nat) {
    && e.SyncNow?
    && match Resolved(cfg, s.tables, d)
       case None => true
       case Some(m) => !KeptOpen(s.drives, d, m) && !CanOpen(cfg, s.disk, d, m, e.sync)
  }

  /** What one event does to an open drive: it closes it, or moves it to another image with a window, or leaves it on its image. */
  lemma OpenDriveNext(cfg: Config, s: Scene, e: Event, t: Scene, d: nat)
    requires SceneSound(cfg, s) && SceneNext(cfg, s, e, t) && d in s.drives && d < MAX_DRIVES
    ensures d !in t.drives <==> GivesUp(cfg, s, e, d)
    ensures d in t.drives && t.drives[d].master != s.drives[d].master ==>
              e.SyncNow? && t.drives[d].unavailableUntil == Some(e.now + SWAP_INVALIDATE_WINDOW_MS)
  {
    if e.SyncNow? {
      SyncedInStep(cfg, s.tables, s.drives, s.disk, MAX_DRIVES, e.now, e.sync);
      assert InStep(cfg, Resolved(cfg, s.tables, d), s.drives, s.disk, t.drives, t.disk, d, e.now, e.sync);
    }
  }

  /** What one event does to a closed drive: if it opens it, it is a sync, and there is no window. */
  lemma ClosedDriveNext(cfg: Config, s: Scene, e: Event, t: Scene, d: nat)
    requires SceneSound(cfg, s) && SceneNext(cfg, s, e, t) && d !in s.drives && d < MAX_DRIVES
    ensures d in t.drives ==> e.SyncNow? && t.drives[d].unavailableUntil == None
  {
    if e.SyncNow? {
      SyncedInStep(cfg, s.tables, s.drives, s.disk, MAX_DRIVES, e.now, e.sync);
      assert InStep(cfg, Resolved(cfg, s.tables, d), s.drives, s.disk, t.drives, t.disk, d, e.now, e.sync);
    }
  }

  /**
   When a session's drive goes from one image to another, with nothing open in
   between: it has no swap window exactly when the sync that took the first
   image away found the drive ejected or could not open the new mount. The
   record of the drive, and with it the window, goes with the close.
   */
  lemma SwapUnnoticedExactly(cfg: Config, run: seq<Scene>, events: seq<Event>, d: nat, i: nat, j: nat, a: Image, b: Image)
    requires Scenes(cfg, run, events) && SceneSound(cfg, run[0]) && d < MAX_DRIVES && i < j < |run|
    requires OpenOn(run[i], d, a) && OpenOn(run[j], d, b) && a != b
    requires forall m :: i < m < j ==> d !in run[m].drives
    ensures events[i].SyncNow? && events[j - 1].SyncNow?
    ensures run[j].drives[d].unavailableUntil
            == if GivesUp(cfg, run[i], events[i], d) then None else Some(events[j - 1].now + 2500)
  {
    ScenesSound(cfg, run, events, i);
    assert SceneNext(cfg, run[i], events[i], run[i + 1]);
    OpenDriveNext(cfg, run[i], events[i], run[i + 1], d);
    if j > i + 1 {
      var k := j - 1;
      ScenesSound(cfg, run, events, k);
      assert SceneNext(cfg, run[k], events[k], run[k + 1]);
      ClosedDriveNext(cfg, run[k], events[k], run[k + 1], d);
    }
  }

  /** Over any stretch of a run in which no sync gives the drive up, it does not leave its image without a window. */
  lemma {:induction false} SwapNoticed(cfg: Config, run: seq<Scene>, events: seq<Event>, d: nat, i: nat, j: nat, a: Image)
    returns (k: nat)
    requires Scenes(cfg, run, events) && SceneSound(cfg, run[0]) && d < MAX_DRIVES && i <= j < |run| && OpenOn(run[i], d, a)
    requires forall m :: i <= m < j ==> !GivesUp(cfg, run[m], events[m], d)
    ensures d in run[j].drives
    ensures OpenOn(run[j], d, a)
            || (i <= k < j && OpenOn(run[k], d, a) && events[k].SyncNow? && d in run[k + 1].drives
                && run[k + 1].drives[d].unavailableUntil == Some(events[k].now + SWAP_INVALIDATE_WINDOW_MS))
    decreases j
  {
    k := i;
    if i < j {
      var m := j - 1;
      k := SwapNoticed(cfg, run, events, d, i, m, a);
      ScenesSound(cfg, run, events, m);
      assert SceneNext(cfg, run[m], events[m], run[m + 1]);
      OpenDriveNext(cfg, run[m], events[m], run[m + 1], d);
      if OpenOn(run[m], d, a) && !OpenOn(run[j], d, a) { k := m; }
    }
  }
}
