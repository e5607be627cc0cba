/** One client's copy-on-write view of the mounted images. */
module DriveSession {
  import opened Bytes
  import opened FileStore
  import opened Registries

  const MAX_DRIVES: nat := 16
  const MAX_TRACK_LEN: nat := 4384
  const SWAP_INVALIDATE_WINDOW_MS: nat := 2500

  datatype FdcError = OK | NOT_READY | CHKSUM_ERR | WRITE_ERR

  /** Which table a mount was resolved from, and the epoch it had there. */
  datatype Version = Global(epoch: nat) | Client(epoch: nat)

  datatype Mount = Mount(image: Image, version: Version)

  /** How a session is set up. */
  datatype Config = Config(clientId: Option<string>, hasDatabase: bool, writesMaster: bool, inheritsGlobal: bool)

  /** Copies survive a disconnect: there is an id to keep them under and a database to record them in. */
  predicate Persistent(cfg: Config) {
    !cfg.writesMaster && cfg.clientId.Some? && cfg.hasDatabase
  }

  /** The id persistent copies are kept under; an empty id does not count. */
  function KeepId(cfg: Config): Option<string> {
    if Persistent(cfg) && cfg.clientId.value != "" then cfg.clientId else None
  }

  /** An open drive; handle is None once its file has been closed under it. */
  datatype SessionDrive = SessionDrive(
    handle: Option<Path>,
    master: Image,
    version: Version,
    scratchPath: Option<Path>,
    dirty: bool,
    unavailableUntil: Option<int>,
    track: nat)

  type Drives = map<nat, SessionDrive>

  /** A recorded persistent copy. */
  datatype Row = Row(base: string, path: Path, dirty: bool)

  /** Files and the table of recorded copies, shared by all sessions. */
  datatype Disk = Disk(files: Files, rows: map<(string, nat), Row>)

  datatype ForkIo = ForkWorks | CopyFails | OpenFails

  /** How a session's write goes: its fork, how many bytes reach the file, and whether the write or the flush after it fails. */
  datatype SessionIo = SessionIo(fork: ForkIo, stored: nat, fails: bool)

  /** How the file operations of a sync go for each drive: opening the recorded copy, opening the image, removing a copy. */
  datatype SyncIo = SyncIo(attaches: nat -> bool, opens: nat -> bool, removes: nat -> bool)

  // ---- the steps as functions ----------------------------------------------

  function ResolveEffective(cfg: Config, overrides: Overrides, mounts: map<nat, MountEntry>, drive: nat): Option<Mount> {
    var o := if cfg.clientId.Some? && cfg.clientId.value != "" then OverrideAt(overrides, Slot(cfg.clientId.value, drive)) else None;
    if o.Some? then Some(Mount(o.value.image, Client(o.value.epoch)))
    else if cfg.inheritsGlobal && drive in mounts then Some(Mount(mounts[drive].image, Global(mounts[drive].epoch)))
    else None
  }

  function Window(wasMounted: bool, now: int): Option<int> {
    if wasMounted then Some(now + SWAP_INVALIDATE_WINDOW_MS) else None
  }

  function Opened(handle: Path, mount: Mount, scratch: Option<Path>, dirty: bool, wasMounted: bool, now: int): SessionDrive {
    SessionDrive(Some(handle), mount.image, mount.version, scratch, dirty, Window(wasMounted, now), 0)
  }

  /** Opens the image itself when it is there and can be opened. */
  function OpenImage(drives: Drives, disk: Disk, drive: nat, mount: Mount, wasMounted: bool, now: int, opens: bool): (r: (Drives, Disk)) {
    if Base(mount.image) in disk.files && opens
    then (drives[drive := Opened(Base(mount.image), mount, None, false, wasMounted, now)], disk)
    else (drives - {drive}, disk)
  }

  /**
   Re-attach the client's copy of the same image, or drop a copy that is
   stale or cannot be opened, and open the image.
   */
  function OpenDrive(cfg: Config, drives: Drives, disk: Disk, drive: nat, mount: Mount, wasMounted: bool, now: int,
                     io: SyncIo): (r: (Drives, Disk))
  {
    var id := KeepId(cfg);
    if id.Some? && (id.value, drive) in disk.rows then
      var key := (id.value, drive);
      var row := disk.rows[key];
      if row.base == mount.image.name then
        if row.path in disk.files && io.attaches(drive)
        then (drives[drive := Opened(row.path, mount, Some(row.path), row.dirty, wasMounted, now)], disk)
        else OpenImage(drives, disk.(rows := disk.rows - {key}), drive, mount, wasMounted, now, io.opens(drive))
      else
        var left := Disk(WithoutFile(disk.files, row.path, io.removes(drive)), disk.rows - {key});
        OpenImage(drives, left, drive, mount, wasMounted, now, io.opens(drive))
    else OpenImage(drives, disk, drive, mount, wasMounted, now, io.opens(drive))
  }

  /** A removal that fails is passed over. */
  function WithoutFile(files: Files, path: Path, removes: bool): Files {
    if removes then files - {path} else files
  }

  /** Throwaway copies go with the drive; persistent ones stay. */
  function CloseDrive(cfg: Config, drives: Drives, disk: Disk, drive: nat, removes: bool): (r: (Drives, Disk)) {
    if drive !in drives then (drives, disk)
    else
      var scratch := drives[drive].scratchPath;
      (drives - {drive},
       if scratch.Some? && !Persistent(cfg) then disk.(files := WithoutFile(disk.files, scratch.value, removes)) else disk)
  }

  /** One drive of a sync: close what is gone, leave what is unchanged, re-open the rest with a swap window. */
  function SyncDrive(cfg: Config, drives: Drives, disk: Disk, drive: nat, mount: Option<Mount>, now: int, io: SyncIo)
    : (r: (Drives, Disk))
  {
    match mount
    case None => CloseDrive(cfg, drives, disk, drive, io.removes(drive))
    case Some(m) =>
      if drive in drives && drives[drive].version == m.version then (drives, disk)
      else
        var (closed, after) := CloseDrive(cfg, drives, disk, drive, io.removes(drive));
        OpenDrive(cfg, closed, after, drive, m, drive in drives, now, io)
  }

  function ScratchFor(cfg: Config, master: Image, drive: nat, unique: nat): Path {
    match KeepId(cfg)
    case Some(id) => Splinter(master.dir, id, drive)
    case None => Scratch(master.dir, if cfg.clientId.Some? then cfg.clientId.value else "anon", drive, unique)
  }

  /** Copies the image and moves the drive over to the copy; a failure leaves the drive unforked. */
  function ForkSplinter(cfg: Config, sd: SessionDrive, disk: Disk, drive: nat, unique: nat, io: ForkIo)
    : (r: (SessionDrive, Disk, bool))
  {
    var path := ScratchFor(cfg, sd.master, drive, unique);
    if io == CopyFails || Base(sd.master) !in disk.files then (sd, disk, false)
    else
      var copied := disk.(files := disk.files[path := disk.files[Base(sd.master)]]);
      if io == OpenFails then (sd.(handle := None), copied, false)
      else
        (sd.(handle := Some(path), scratchPath := Some(path)),
         match KeepId(cfg)
         case Some(id) => copied.(rows := copied.rows[(id, drive) := Row(sd.master.name, path, true)])
         case None => copied,
         true)
  }

  datatype Access<+T> = Done(value: T) | Refused(errno: FdcError) | IoError

  function ReadTrack(drives: Drives, disk: Disk, drive: nat, track: nat, length: int): (r: Access<seq<byte>>) {
    if drive !in drives then Refused(NOT_READY)
    else if length <= 0 || length > MAX_TRACK_LEN then Refused(NOT_READY)
    else
      var handle := drives[drive].handle;
      if handle.Some? && handle.value in disk.files then Done(ReadAt(disk.files[handle.value], track * length, length)) else IoError
  }

  /** The drive with its own copy, forked now if it is not yet, and whether its file can be written to. */
  function CopyReady(cfg: Config, sd: SessionDrive, disk: Disk, drive: nat, unique: nat, io: ForkIo): (r: (SessionDrive, Disk, bool)) {
    var (forked, after, ok) :=
      if !cfg.writesMaster && sd.scratchPath.None? then ForkSplinter(cfg, sd, disk, drive, unique, io) else (sd, disk, true);
    (forked, after, ok && forked.handle.Some? && forked.handle.value in after.files)
  }

  predicate WriteAsked(drives: Drives, drive: nat, length: int, buffer: seq<byte>) {
    drive in drives && 0 < length <= MAX_TRACK_LEN && length <= |buffer|
  }

  /** A write notes the track once it is done. */
  function Noted(sd: SessionDrive, track: nat, io: SessionIo): SessionDrive {
    if io.fails then sd else sd.(dirty := true, track := track)
  }

  /**
   The first write forks; every write goes to the drive's own file. A write
   that fails may have stored some of the data, and so may one that does not:
   how much of it was stored is not looked at.
   */
  function WriteTrack(cfg: Config, drives: Drives, disk: Disk, drive: nat, track: nat, length: int, buffer: seq<byte>,
                      unique: nat, io: SessionIo): (r: (Drives, Disk, Access<nat>))
  {
    if drive !in drives then (drives, disk, Refused(NOT_READY))
    else if !WriteAsked(drives, drive, length, buffer) then (drives, disk, Refused(WRITE_ERR))
    else
      var (sd, after, ready) := CopyReady(cfg, drives[drive], disk, drive, unique, io.fork);
      if !ready then (drives[drive := sd], after, IoError)
      else
        var path, data := sd.handle.value, Front(buffer[..length], io.stored);
        (drives[drive := Noted(sd, track, io)],
         after.(files := after.files[path := WriteAt(after.files[path], track * length, data)]),
         if io.fails then IoError else Done(|data|))
  }

  // ---- the class -----------------------------------------------------------

  /** The file system and the database the sessions share. */
  class DiskStore {
    var files: Files
    var rows: map<(string, nat), Row>

    function Contents(): Disk
      reads this
    {
      Disk(files, rows)
    }

    constructor (files: Files)
      ensures Contents() == Disk(files, map[])
    {
      this.files, rows := files, map[];
    }
  }

  class DriveSession {
    const cfg: Config
    const store: DiskStore
    const registry: MountRegistry
    const clientMounts: ClientMountRegistry
    var drives: Drives
    var fdcErrno: FdcError

    constructor (cfg: Config, store: DiskStore, registry: MountRegistry, clientMounts: ClientMountRegistry)
      ensures this.cfg == cfg && this.store == store && this.registry == registry && this.clientMounts == clientMounts
      ensures drives == map[] && fdcErrno == OK
    {
      this.cfg, this.store, this.registry, this.clientMounts := cfg, store, registry, clientMounts;
      drives, fdcErrno := map[], OK;
    }

    function Effective(drive: nat): Option<Mount>
      reads this, registry, clientMounts
    {
      ResolveEffective(cfg, clientMounts.byClient, registry.mounts, drive)
    }

    method Sync(now: int, io: SyncIo)
      modifies this`drives, store
      ensures (drives, store.Contents())
              == SyncAll(cfg, clientMounts.byClient, registry.mounts, old(drives), old(store.Contents()), MAX_DRIVES, now, io)
    {
      for drive := 0 to MAX_DRIVES
        invariant (drives, store.Contents())
                  == SyncAll(cfg, clientMounts.byClient, registry.mounts, old(drives), old(store.Contents()), drive, now, io)
      {
        SyncOne(drive, Effective(drive), now, io);
      }
    }

    method SyncOne(drive: nat, entry: Option<Mount>, now: int, io: SyncIo)
      modifies this`drives, store
      ensures (drives, store.Contents()) == SyncDrive(cfg, old(drives), old(store.Contents()), drive, entry, now, io)
    {
      if entry.None? {
        if drive in drives {
          Close(drive, io.removes(drive));
        }
        return;
      }
      if drive in drives && drives[drive].version == entry.value.version {
        return;
      }
      var wasMounted := drive in drives;
      if wasMounted {
        Close(drive, io.removes(drive));
      }
      Open(drive, entry.value, wasMounted, now, io);
    }

    method Open(drive: nat, mount: Mount, wasMounted: bool, now: int, io: SyncIo)
      modifies this`drives, store
      ensures (drives, store.Contents())
              == OpenDrive(cfg, old(drives), old(store.Contents()), drive, mount, wasMounted, now, io)
    {
      var id := KeepId(cfg);
      if id.Some? && (id.value, drive) in store.rows {
        var row := store.rows[(id.value, drive)];
        if row.base == mount.image.name && row.path in store.files && io.attaches(drive) {
          drives := drives[drive := Opened(row.path, mount, Some(row.path), row.dirty, wasMounted, now)];
          return;
        }
        if row.base != mount.image.name && io.removes(drive) {
          store.files := store.files - {row.path};
        }
        store.rows := store.rows - {(id.value, drive)};
      }
      if Base(mount.image) !in store.files || !io.opens(drive) {
        drives := drives - {drive};
        return;
      }
      drives := drives[drive := Opened(Base(mount.image), mount, None, false, wasMounted, now)];
    }

    method Close(drive: nat, removes: bool)
      modifies this`drives, store
      ensures (drives, store.Contents()) == CloseDrive(cfg, old(drives), old(store.Contents()), drive, removes)
    {
      if drive !in drives {
        return;
      }
      var scratch := drives[drive].scratchPath;
      if scratch.Some? && !Persistent(cfg) && removes {
        store.files := store.files - {scratch.value};
      }
      drives := drives - {drive};
    }

    /** Closes every drive. */
    method Dispose(removes: nat -> bool)
      modifies this`drives, store
      ensures drives == map[]
      ensures store.Contents() == Disposed(cfg, old(drives), old(store.Contents()), removes)
    {
      ghost var start, disk := drives, store.Contents();
      while drives.Keys != {}
        invariant PartlyClosed(cfg, start, disk, drives, store.Contents(), removes)
        decreases |drives.Keys|
      {
        var drive :| drive in drives.Keys;
        CloseNext(cfg, start, disk, drives, store.Contents(), drive, removes);
        Close(drive, removes(drive));
      }
      assert start.Keys - {} == start.Keys;
    }

    method Read(drive: nat, track: nat, length: int) returns (r: Access<seq<byte>>)
      modifies this
      ensures r == ReadTrack(old(drives), store.Contents(), drive, track, length)
      ensures drives == if r.Done? then old(drives)[drive := old(drives)[drive].(track := track)] else old(drives)
      ensures fdcErrno == match r case Done(_) => OK case Refused(e) => e case IoError => old(fdcErrno)
    {
      if drive !in drives || length <= 0 || length > MAX_TRACK_LEN {
        fdcErrno := NOT_READY;
        return Refused(NOT_READY);
      }
      var handle := drives[drive].handle;
      if handle.None? || handle.value !in store.files {
        return IoError;
      }
      var buffer := ReadAt(store.files[handle.value], track * length, length);
      drives := drives[drive := drives[drive].(track := track)];
      fdcErrno := OK;
      return Done(buffer);
    }

    method Write(drive: nat, track: nat, length: int, buffer: seq<byte>, unique: nat, io: SessionIo) returns (r: Access<nat>)
      modifies this, store
      ensures (drives, store.Contents(), r)
              == WriteTrack(cfg, old(drives), old(store.Contents()), drive, track, length, buffer, unique, io)
      ensures fdcErrno == match r case Done(_) => OK case Refused(e) => e case IoError => old(fdcErrno)
    {
      if drive !in drives {
        fdcErrno := NOT_READY;
        return Refused(NOT_READY);
      }
      if length <= 0 || length > MAX_TRACK_LEN || |buffer| < length {
        fdcErrno := WRITE_ERR;
        return Refused(WRITE_ERR);
      }
      var ok := true;
      if !cfg.writesMaster && drives[drive].scratchPath.None? {
        ok := Fork(drive, unique, io.fork);
      } else {
        assert drives[drive := drives[drive]] == drives;
      }
      var handle := drives[drive].handle;
      if !ok || handle.None? || handle.value !in store.files {
        return IoError;
      }
      var data := Front(buffer[..length], io.stored);
      store.files := store.files[handle.value := WriteAt(store.files[handle.value], track * length, data)];
      ghost var written := Noted(drives[drive], track, io);
      if io.fails {
        return IoError;
      }
      drives := drives[drive := drives[drive].(dirty := true, track := track)];
      assert drives == old(drives)[drive := written];
      fdcErrno := OK;
      return Done(|data|);
    }

    method Fork(drive: nat, unique: nat, io: ForkIo) returns (ok: bool)
      requires drive in drives
      modifies this`drives, store
      ensures var (sd, disk, fine) := ForkSplinter(cfg, old(drives)[drive], old(store.Contents()), drive, unique, io);
              drives == old(drives)[drive := sd] && store.Contents() == disk && ok == fine
    {
      var sd := drives[drive];
      var splinter := ScratchFor(cfg, sd.master, drive, unique);
      if io == CopyFails || Base(sd.master) !in store.files {
        return false;
      }
      store.files := store.files[splinter := store.files[Base(sd.master)]];
      drives := drives[drive := sd.(handle := None)];
      if io == OpenFails {
        return false;
      }
      drives := drives[drive := sd.(handle := Some(splinter), scratchPath := Some(splinter))];
      var id := KeepId(cfg);
      if id.Some? {
        store.rows := store.rows[(id.value, drive) := Row(sd.master.name, splinter, true)];
      }
      return true;
    }
  }

  /** The drives 0 to n - 1 synced in turn. */
  function SyncAll(cfg: Config, overrides: Overrides, mounts: map<nat, MountEntry>, drives: Drives, disk: Disk, n: nat,
                   now: int, io: SyncIo): (r: (Drives, Disk))
  {
    if n == 0 then (drives, disk)
    else
      var (before, d) := SyncAll(cfg, overrides, mounts, drives, disk, n - 1, now, io);
      SyncDrive(cfg, before, d, n - 1, ResolveEffective(cfg, overrides, mounts, n - 1), now, io)
  }

  /** The files closing the given drives removes. */
  ghost function Discarded(cfg: Config, drives: Drives, which: set<nat>, removes: nat -> bool): set<Path>
    requires which <= drives.Keys
  {
    if Persistent(cfg) then {}
    else set d | d in which && drives[d].scratchPath.Some? && removes(d) :: drives[d].scratchPath.value
  }

  /** Some drives have been closed, the others are as they were. */
  ghost predicate PartlyClosed(cfg: Config, start: Drives, disk: Disk, drives: Drives, now: Disk, removes: nat -> bool) {
    && drives.Keys <= start.Keys
    && (forall d :: d in drives ==> drives[d] == start[d])
    && now == Disk(disk.files - Discarded(cfg, start, start.Keys - drives.Keys, removes), disk.rows)
  }

  ghost function Removed(cfg: Config, sd: SessionDrive, removes: bool): set<Path> {
    if sd.scratchPath.Some? && !Persistent(cfg) && removes then {sd.scratchPath.value} else {}
  }

  lemma DiscardedOneMore(cfg: Config, start: Drives, closed: set<nat>, drive: nat, removes: nat -> bool)
    requires closed <= start.Keys && drive in start
    ensures Discarded(cfg, start, closed + {drive}, removes) == Discarded(cfg, start, closed, removes) + Removed(cfg, start[drive], removes(drive))
  {
  }

  lemma WithoutTwice(files: Files, a: set<Path>, b: set<Path>)
    ensures files - a - b == files - (a + b)
  {
  }

  /** What closing a drive leaves of the disk. */
  lemma CloseDisk(cfg: Config, drives: Drives, now: Disk, drive: nat, removes: bool)
    requires drive in drives
    ensures CloseDrive(cfg, drives, now, drive, removes) == (drives - {drive}, Disk(now.files - Removed(cfg, drives[drive], removes), now.rows))
  {
    assert now.files - {} == now.files;
  }

  lemma OneFewer(start: Drives, drives: Drives, drive: nat)
    requires drives.Keys <= start.Keys && drive in drives
    ensures start.Keys - (drives - {drive}).Keys == start.Keys - drives.Keys + {drive}
    ensures |(drives - {drive}).Keys| < |drives.Keys|
  {
    assert (drives - {drive}).Keys == drives.Keys - {drive};
  }

  lemma CloseNext(cfg: Config, start: Drives, disk: Disk, drives: Drives, now: Disk, drive: nat, removes: nat -> bool)
    requires PartlyClosed(cfg, start, disk, drives, now, removes) && drive in drives
    ensures var (d, after) := CloseDrive(cfg, drives, now, drive, removes(drive));
            PartlyClosed(cfg, start, disk, d, after, removes) && |d.Keys| < |drives.Keys|
  {
    var closed := start.Keys - drives.Keys;
    CloseDisk(cfg, drives, now, drive, removes(drive));
    OneFewer(start, drives, drive);
    DiscardedOneMore(cfg, start, closed, drive, removes);
    WithoutTwice(disk.files, Discarded(cfg, start, closed, removes), Removed(cfg, start[drive], removes(drive)));
  }

  ghost function Disposed(cfg: Config, drives: Drives, disk: Disk, removes: nat -> bool): Disk {
    Disk(disk.files - Discarded(cfg, drives, drives.Keys, removes), disk.rows)
  }

  // ---- what an acknowledged write means ------------------------------------

  /**
   A write a session acknowledges reads back as sent exactly when the file
   already held the bytes it did not store. So it does when all were stored.
   */
  lemma AcknowledgedReadsBack(cfg: Config, drives: Drives, disk: Disk, drive: nat, track: nat, length: int, buffer: seq<byte>,
                              unique: nat, io: SessionIo)
    requires WriteTrack(cfg, drives, disk, drive, track, length, buffer, unique, io).2.Done?
    ensures var (after, f, r) := WriteTrack(cfg, drives, disk, drive, track, length, buffer, unique, io);
            var (sd, before, _) := CopyReady(cfg, drives[drive], disk, drive, unique, io.fork);
            && r.value == (if io.stored < length then io.stored else length)
            && (ReadTrack(after, f, drive, track, length) == Done(buffer[..length]) <==>
                  ReadAt(before.files[sd.handle.value], track * length + r.value, length - r.value) == buffer[r.value..length])
  {
    var (sd, before, _) := CopyReady(cfg, drives[drive], disk, drive, unique, io.fork);
    var c, data := before.files[sd.handle.value], buffer[..length];
    var front := Front(data, io.stored);
    PartlyWrittenExactly(c, track * length, data, io.stored);
    assert data[|front|..] == buffer[|front|..length];
  }

  // ---- copies, kept and thrown away ----------------------------------------

  /** The sessions whose copies outlive them. */
  predicate KeepsCopies(cfg: Config) {
    !cfg.writesMaster && cfg.clientId != None && cfg.hasDatabase
  }

  /** Those of them that find their copies again: an empty id is none. */
  predicate RecordsCopies(cfg: Config) {
    KeepsCopies(cfg) && cfg.clientId != Some("")
  }

  /** A disconnect removes the copies of the session's own drives unless they are kept, and no other file. */
  lemma DisconnectLeaves(cfg: Config, drives: Drives, disk: Disk, removes: nat -> bool, path: Path)
    ensures var after := Disposed(cfg, drives, disk, removes);
            && after.rows == disk.rows
            && (path in after.files ==> path in disk.files && after.files[path] == disk.files[path])
            && (path in disk.files ==>
                  (path !in after.files <==> !KeepsCopies(cfg) && exists d :: d in drives && drives[d].scratchPath == Some(path) && removes(d)))
  {
    var gone := Discarded(cfg, drives, drives.Keys, removes);
    if path in gone {
      var d :| d in drives && drives[d].scratchPath.Some? && removes(d) && drives[d].scratchPath.value == path;
    }
    if !KeepsCopies(cfg) && exists d :: d in drives && drives[d].scratchPath == Some(path) && removes(d) {
      var d :| d in drives && drives[d].scratchPath == Some(path) && removes(d);
      assert drives[d].scratchPath.value in gone;
    }
  }

  /** So does closing one drive. */
  lemma CloseLeaves(cfg: Config, drives: Drives, disk: Disk, drive: nat, removes: bool, path: Path)
    requires drive in drives
    ensures var (after, f) := CloseDrive(cfg, drives, disk, drive, removes);
            && after == drives - {drive} && f.rows == disk.rows
            && (path in f.files ==> path in disk.files && f.files[path] == disk.files[path])
            && (path in disk.files ==> (path !in f.files <==> !KeepsCopies(cfg) && drives[drive].scratchPath == Some(path) && removes))
  {
  }

  /** What a write leaves of a drive: it notes the write once it is acknowledged, and not before. */
  predicate NotedSo(sd: SessionDrive, path: Path, track: nat, acknowledged: bool, after: SessionDrive) {
    && after.handle == Some(path) && after.master == sd.master && after.version == sd.version
    && after.unavailableUntil == sd.unavailableUntil
    && (if acknowledged then after.dirty && after.track == track else after.dirty == sd.dirty && after.track == sd.track)
  }

  /**
   The first write of a drive, copying and opening the copy having worked. The
   copy is the image with the bytes written; it is recorded, under the client
   and the drive, exactly when it can be found again. No other file changes.
   */
  lemma FirstWriteForks(cfg: Config, drives: Drives, disk: Disk, drive: nat, track: nat, length: int, buffer: seq<byte>,
                        unique: nat, io: SessionIo)
    requires WriteAsked(drives, drive, length, buffer) && !cfg.writesMaster && drives[drive].scratchPath.None?
    requires io.fork == ForkWorks && Base(drives[drive].master) in disk.files
    ensures var (after, f, r) := WriteTrack(cfg, drives, disk, drive, track, length, buffer, unique, io);
            var sd := drives[drive];
            && r == (if io.fails then IoError else Done(if io.stored < length then io.stored else length))
            && drive in after && after[drive].scratchPath.Some?
            && var path := after[drive].scratchPath.value;
               && !path.Base? && NotedSo(sd, path, track, !io.fails, after[drive]) && after == drives[drive := after[drive]]
               && f.files == disk.files[path := WriteAt(disk.files[Base(sd.master)], track * length, Front(buffer[..length], io.stored))]
               && (if RecordsCopies(cfg)
                   then path == Splinter(sd.master.dir, cfg.clientId.value, drive)
                        && f.rows == disk.rows[(cfg.clientId.value, drive) := Row(sd.master.name, path, true)]
                   else path == Scratch(sd.master.dir, if cfg.clientId == None then "anon" else cfg.clientId.value, drive, unique)
                        && f.rows == disk.rows)
  {
    var path := ScratchFor(cfg, drives[drive].master, drive, unique);
    var copied := disk.files[path := disk.files[Base(drives[drive].master)]];
    var written := WriteAt(copied[path], track * length, Front(buffer[..length], io.stored));
    assert copied[path := written] == disk.files[path := written];
  }

  /** Every later write goes to the drive's own file; the master client's do from the start. */
  lemma LaterWriteStays(cfg: Config, drives: Drives, disk: Disk, drive: nat, track: nat, length: int, buffer: seq<byte>,
                        unique: nat, io: SessionIo)
    requires WriteAsked(drives, drive, length, buffer) && (cfg.writesMaster || drives[drive].scratchPath.Some?)
    requires drives[drive].handle.Some? && drives[drive].handle.value in disk.files
    ensures var (after, f, r) := WriteTrack(cfg, drives, disk, drive, track, length, buffer, unique, io);
            var sd, path := drives[drive], drives[drive].handle.value;
            && r == (if io.fails then IoError else Done(if io.stored < length then io.stored else length))
            && drive in after && NotedSo(sd, path, track, !io.fails, after[drive]) && after == drives[drive := after[drive]]
            && after[drive].scratchPath == sd.scratchPath && f.rows == disk.rows
            && f.files == disk.files[path := WriteAt(disk.files[path], track * length, Front(buffer[..length], io.stored))]
  {
  }

  /**
   A first write that cannot copy, or cannot open the copy, fails. It leaves
   the image and the records; after a copy that cannot be opened the drive has
   lost its file and reads nothing until a later write copies again.
   */
  lemma FailedForkIsRepeated(cfg: Config, drives: Drives, disk: Disk, drive: nat, track: nat, length: int, buffer: seq<byte>,
                             unique: nat, io: SessionIo)
    requires WriteAsked(drives, drive, length, buffer) && !cfg.writesMaster && drives[drive].scratchPath.None?
    requires io.fork != ForkWorks && Base(drives[drive].master) in disk.files
    ensures var (after, f, r) := WriteTrack(cfg, drives, disk, drive, track, length, buffer, unique, io);
            && r == IoError && f.rows == disk.rows && (forall p: Path :: p.Base? && p in disk.files ==> p in f.files && f.files[p] == disk.files[p])
            && WriteAsked(after, drive, length, buffer) && after[drive].scratchPath.None?
            && (io.fork == CopyFails ==> after == drives && f == disk)
            && (io.fork == OpenFails ==> ReadTrack(after, f, drive, track, length) == IoError)
            && forall later: SessionIo :: later.fork == ForkWorks && !later.fails ==>
                 WriteTrack(cfg, after, f, drive, track, length, buffer, unique, later).2.Done?
  {
    var (after, f, r) := WriteTrack(cfg, drives, disk, drive, track, length, buffer, unique, io);
    if io.fork == CopyFails { assert drives[drive := drives[drive]] == drives; }
    forall later: SessionIo | later.fork == ForkWorks && !later.fails
      ensures WriteTrack(cfg, after, f, drive, track, length, buffer, unique, later).2.Done?
    {
      FirstWriteForks(cfg, after, f, drive, track, length, buffer, unique, later);
    }
  }

  /** The copy of this drive that the records name, if they name one that is of this image and can be attached. */
  function FoundCopy(cfg: Config, disk: Disk, drive: nat, image: Image, io: SyncIo): Option<Row> {
    if RecordsCopies(cfg) && (cfg.clientId.value, drive) in disk.rows && disk.rows[(cfg.clientId.value, drive)].base == image.name
       && disk.rows[(cfg.clientId.value, drive)].path in disk.files && io.attaches(drive)
    then Some(disk.rows[(cfg.clientId.value, drive)]) else None
  }

  /**
   A drive is opened on the copy found, as changed as its record says, and else
   unchanged on the image. A record that did not serve is dropped, and the copy
   it names removed if it is of an image of another name.
   */
  lemma OpenedOn(cfg: Config, drives: Drives, disk: Disk, drive: nat, mount: Mount, wasMounted: bool, now: int, io: SyncIo)
    ensures var (after, f) := OpenDrive(cfg, drives, disk, drive, mount, wasMounted, now, io);
            var copy := FoundCopy(cfg, disk, drive, mount.image, io);
            && (drive in after ==>
                  && after[drive].track == 0 && after[drive].unavailableUntil == (if wasMounted then Some(now + 2500) else None)
                  && after[drive].scratchPath == (if copy.Some? then Some(copy.value.path) else None)
                  && after[drive].handle == Some(if copy.Some? then copy.value.path else Base(mount.image))
                  && after[drive].dirty == (copy.Some? && copy.value.dirty))
            && (copy.Some? ==> drive in after && f == disk)
            && (copy.None? && RecordsCopies(cfg) ==> f.rows == disk.rows - {(cfg.clientId.value, drive)})
            && (!RecordsCopies(cfg) ==> f == disk)
    ensures var f := OpenDrive(cfg, drives, disk, drive, mount, wasMounted, now, io).1;
            var stale := RecordsCopies(cfg) && (cfg.clientId.value, drive) in disk.rows
                         && disk.rows[(cfg.clientId.value, drive)].base != mount.image.name && io.removes(drive);
            f.files == if stale then disk.files - {disk.rows[(cfg.clientId.value, drive)].path} else disk.files
  {
    if RecordsCopies(cfg) && (cfg.clientId.value, drive) !in disk.rows {
      assert disk.rows - {(cfg.clientId.value, drive)} == disk.rows;
    }
  }
}
