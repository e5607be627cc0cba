/** The shared rack of drives: mounting, write protection, transient backing and the swap window. */
module DriveManager {
  import opened Bytes
  import opened FileStore
  import opened Registries
  import opened DriveSession

  /** A drive's file name, which marks a failed mount too. */
  datatype FileName = NoFile | ErrorMark | Of(image: Image)

  datatype DriveState = DriveState(
    filename: FileName,
    mounted: bool,
    readonly: bool,
    hdld: bool,
    track: int,
    unavailableUntil: Option<int>,
    transient: bool,
    scratchPath: Option<Path>,
    dirty: bool)

  const EMPTY := DriveState(NoFile, false, false, false, 0, None, false, None, false)

  datatype Handle = Handle(path: Path, writable: bool)

  /** One drive with its open file, if it has one. */
  datatype Bay = Bay(state: DriveState, handle: Option<Handle>)

  /** Which of the file operations of an open goes wrong, if any. */
  datatype Opening = Opens | NoAccess | CopyRefused | OpenRefused

  /** How a command that opens a file goes: whether an old scratch copy can be removed, and the open. */
  datatype OpenIo = OpenIo(removes: bool, opening: Opening)

  /** One attempt at a write: it stores the data, or stops after some bytes, with an error worth another attempt or not. */
  datatype Attempt = Stored | Stopped(bytes: nat, again: bool)

  /** How the attempts at a write go, in turn; those not listed store the data. */
  type WriteIo = seq<Attempt>

  const WRITE_ATTEMPTS: nat := 3

  /** Whether read-only images of a base name get a transient copy. */
  type Policy = string -> bool

  // ---- the steps of one drive as functions ---------------------------------

  predicate InWindow(s: DriveState, now: int) {
    s.unavailableUntil.Some? && now < s.unavailableUntil.value
  }

  /** The status bit the controller polls. */
  predicate Ready(s: DriveState, now: int) {
    s.mounted && !InWindow(s, now)
  }

  function WithoutScratch(s: DriveState): DriveState {
    s.(scratchPath := None, transient := false, dirty := false)
  }

  /** Removes the scratch copy; a removal that fails is passed over. */
  function DiscardScratch(s: DriveState, files: Files, removes: bool): Files {
    if s.scratchPath.Some? && removes then files - {s.scratchPath.value} else files
  }

  /** The copy made, or the image itself; None when a file operation fails. */
  function OpenBacking(files: Files, drive: nat, image: Image, readonly: bool, useTransient: bool, unique: nat, io: OpenIo)
    : (r: (Option<Handle>, Files))
  {
    if useTransient then
      var scratch := DriveScratch(image.dir, drive, unique);
      if io.opening == CopyRefused || Base(image) !in files then (None, files)
      else
        var copied := files[scratch := files[Base(image)]];
        (if io.opening == OpenRefused then None else Some(Handle(scratch, true)), copied)
    else (if io.opening == OpenRefused || Base(image) !in files then None else Some(Handle(Base(image), !readonly)), files)
  }

  /** The drive once its file is closed: a drive that held one, or is in a window, gets a new window. */
  function Vacated(s: DriveState, now: int): DriveState {
    WithoutScratch(s).(unavailableUntil := if s.mounted || InWindow(s, now) then Some(now + SWAP_INVALIDATE_WINDOW_MS) else s.unavailableUntil)
  }

  /** The drive on its new file, or marked when there is none. */
  function Settled(s: DriveState, image: Image, useTransient: bool, handle: Option<Handle>): DriveState {
    match handle
    case None => s.(mounted := false, filename := ErrorMark)
    case Some(h) => s.(filename := Of(image), mounted := true, track := 0, hdld := false, transient := useTransient,
                       scratchPath := if useTransient then Some(h.path) else None, dirty := false)
  }

  function MountBay(policy: Policy, bay: Bay, files: Files, drive: nat, image: Image, now: int, unique: nat, io: OpenIo)
    : (r: (Bay, Files, bool))
  {
    var s, left := Vacated(bay.state, now), DiscardScratch(bay.state, files, io.removes);
    if io.opening == NoAccess || Base(image) !in left then (Bay(Settled(s, image, false, None), None), left, false)
    else
      var useTransient := s.readonly && policy(image.name);
      var (handle, after) := OpenBacking(left, drive, image, s.readonly, useTransient, unique, io);
      (Bay(Settled(s, image, useTransient, handle), handle), after, handle.Some?)
  }

  function UnmountBay(bay: Bay, files: Files, now: int, closeFails: bool, removes: bool): (r: (Bay, Files, bool)) {
    if bay.state.mounted && bay.handle.Some? && closeFails then (Bay(bay.state, None), files, false)
    else
      var s := WithoutScratch(bay.state);
      (Bay(s.(filename := NoFile, mounted := false, track := 0, hdld := false,
              unavailableUntil := if s.mounted then Some(now + SWAP_INVALIDATE_WINDOW_MS) else s.unavailableUntil),
           if bay.state.mounted then None else bay.handle),
       DiscardScratch(bay.state, files, removes), true)
  }

  /** Opens the same file again in the other mode. A failed open leaves the drive unmounted, a failed copy without a file. */
  function RemountBay(policy: Policy, bay: Bay, files: Files, drive: nat, readonly: bool, unique: nat, io: OpenIo)
    : (r: (Bay, Files, bool))
  {
    if !bay.state.filename.Of? || !bay.state.mounted then (bay, files, true)
    else
      var image := bay.state.filename.image;
      var s := WithoutScratch(bay.state);
      var left := DiscardScratch(bay.state, files, io.removes);
      var useTransient := readonly && policy(image.name);
      var (handle, after) := OpenBacking(left, drive, image, readonly, useTransient, unique, io);
      if handle.Some? then
        (Bay(s.(transient := useTransient, scratchPath := if useTransient then Some(handle.value.path) else None), handle), after, true)
      else if useTransient && (io.opening == CopyRefused || Base(image) !in left) then (Bay(s, None), after, false)
      else (Bay(s.(mounted := false), None), after, false)
  }

  function ProtectBay(policy: Policy, bay: Bay, files: Files, drive: nat, flag: bool, unique: nat, io: OpenIo)
    : (r: (Bay, Files, bool))
  {
    var flagged := bay.(state := bay.state.(readonly := flag));
    if bay.state.mounted && bay.state.readonly != flag
    then RemountBay(policy, flagged, files, drive, flag, unique, io)
    else (flagged, files, true)
  }

  function ReadBay(bay: Bay, files: Files, track: nat, length: int, now: int, ioWorks: bool): (r: (Bay, Access<seq<byte>>)) {
    if InWindow(bay.state, now) || !bay.state.mounted || bay.handle.None? then (bay, Refused(NOT_READY))
    else
      var at := bay.(state := bay.state.(track := track, hdld := true));
      var path := bay.handle.value.path;
      if length < 0 || !ioWorks || path !in files || (length > 0 && track * length + length > |files[path]|) then (at, Refused(NOT_READY))
      else (at, Done(ReadAt(files[path], track * length, length)))
  }

  function AttemptAt(io: WriteIo, k: nat): Attempt {
    if k < |io| then io[k] else Stored
  }

  /** Another attempt follows only an error worth it, and there are at most three. */
  predicate GoesOn(io: WriteIo, k: nat) {
    AttemptAt(io, k).Stopped? && AttemptAt(io, k).again && k + 1 < WRITE_ATTEMPTS
  }

  /** The file once n bytes of the data have reached it. */
  function Landed(c: Content, off: nat, data: seq<byte>, n: nat): Content {
    WriteAt(c, off, Front(data, n))
  }

  /** The file after the attempts from the k-th on, and whether the last of them stored the data. */
  function Attempts(c: Content, off: nat, data: seq<byte>, io: WriteIo, k: nat): (r: (Content, bool))
    decreases WRITE_ATTEMPTS - k
  {
    match AttemptAt(io, k)
    case Stored => (WriteAt(c, off, data), true)
    case Stopped(bytes, _) =>
      if GoesOn(io, k) then Attempts(Landed(c, off, data, bytes), off, data, io, k + 1)
      else (Landed(c, off, data, bytes), false)
  }

  function WriteBay(bay: Bay, files: Files, track: int, length: int, buffer: seq<byte>, now: int, io: WriteIo)
    : (r: (Bay, Files, Access<nat>))
  {
    if InWindow(bay.state, now) || !bay.state.mounted || bay.handle.None? then (bay, files, Refused(NOT_READY))
    else if (bay.state.readonly && !bay.state.transient) || !bay.handle.value.writable then (bay, files, Refused(WRITE_ERR))
    else if length <= 0 || length > MAX_TRACK_LEN || |buffer| < length || track < 0 then (bay, files, Refused(WRITE_ERR))
    else
      var at := bay.state.(track := track, hdld := true);
      var path := bay.handle.value.path;
      if path !in files then (bay.(state := at), files, Refused(WRITE_ERR))
      else
        var (content, stored) := Attempts(files[path], track * length, buffer[..length], io, 0);
        (bay.(state := if stored then at.(dirty := at.dirty || at.transient) else at),
         files[path := content],
         if stored then Done(length) else Refused(WRITE_ERR))
  }

  predicate TransientBacked(s: DriveState) {
    s.transient && s.scratchPath.Some? && s.filename.Of?
  }

  /** Copies the scratch to a temporary file and renames that over the image. */
  function CommitBay(bay: Bay, files: Files, ioWorks: bool): (r: (Bay, Files, bool)) {
    if !TransientBacked(bay.state) then (bay, files, false)
    else
      var tmp := CommitTemp(bay.state.filename.image);
      var scratch := bay.state.scratchPath.value;
      if !ioWorks || scratch !in files then (bay, files - {tmp}, false)
      else (bay.(state := bay.state.(dirty := false)), files[Base(bay.state.filename.image) := files[scratch]] - {tmp}, true)
  }

  predicate CanWriteBay(bay: Bay, now: int) {
    && !InWindow(bay.state, now) && bay.state.mounted && bay.handle.Some?
    && !(bay.state.readonly && !bay.state.transient) && bay.handle.value.writable
  }

  // ---- the class -----------------------------------------------------------

  class DriveManager {
    const policy: Policy
    const store: DiskStore
    const registry: MountRegistry
    var drives: map<nat, DriveState>
    var fileHandles: map<nat, Handle>
    var fdcErrno: FdcError

    constructor (policy: Policy, store: DiskStore, registry: MountRegistry)
      ensures this.policy == policy && this.store == store && this.registry == registry
      ensures Valid() && forall d: nat :: d < MAX_DRIVES ==> BayAt(d) == Bay(EMPTY, None)
      ensures fdcErrno == OK
    {
      this.policy, this.store, this.registry := policy, store, registry;
      drives, fileHandles, fdcErrno := map[], map[], OK;
      new;
      for i := 0 to MAX_DRIVES
        invariant fileHandles == map[] && fdcErrno == OK
        invariant forall d: nat :: d < i <==> d in drives
        invariant forall d :: d in drives ==> drives[d] == EMPTY
      {
        drives := drives[i := EMPTY];
      }
    }

    ghost predicate Valid()
      reads this
    {
      forall d: nat :: d < MAX_DRIVES <==> d in drives
    }

    function BayAt(drive: nat): Bay
      requires drive in drives
      reads this
    {
      Bay(drives[drive], if drive in fileHandles then Some(fileHandles[drive]) else None)
    }

    /** Every other drive is as it was. */
    twostate predicate OnlyDrive(drive: nat)
      reads this
    {
      forall d :: d in old(drives) && d != drive ==>
        d in drives && drives[d] == old(drives)[d] && (d in fileHandles <==> d in old(fileHandles))
        && (d in fileHandles ==> fileHandles[d] == old(fileHandles)[d])
    }

    method CloseHandle(drive: nat)
      modifies this`fileHandles
      ensures fileHandles == old(fileHandles) - {drive}
    {
      fileHandles := fileHandles - {drive};
    }

    method Discard(drive: nat, removes: bool)
      requires drive in drives
      modifies this`drives, store`files
      ensures drives == old(drives)[drive := WithoutScratch(old(drives)[drive])]
      ensures store.files == DiscardScratch(old(drives)[drive], old(store.files), removes)
    {
      var s := drives[drive];
      if s.scratchPath.Some? && removes {
        store.files := store.files - {s.scratchPath.value};
      }
      drives := drives[drive := s.(scratchPath := None, transient := false, dirty := false)];
    }

    method OpenFile(drive: nat, image: Image, readonly: bool, useTransient: bool, unique: nat, io: OpenIo) returns (handle: Option<Handle>)
      modifies store`files
      ensures (handle, store.files) == OpenBacking(old(store.files), drive, image, readonly, useTransient, unique, io)
    {
      var openPath := Base(image);
      if useTransient {
        if io.opening == CopyRefused || Base(image) !in store.files {
          return None;
        }
        openPath := DriveScratch(image.dir, drive, unique);
        store.files := store.files[openPath := store.files[Base(image)]];
      }
      if io.opening == OpenRefused || openPath !in store.files {
        return None;
      }
      return Some(Handle(openPath, useTransient || !readonly));
    }

    method Mount(drive: nat, image: Image, now: int, unique: nat, io: OpenIo) returns (ok: bool)
      requires Valid() && registry.Valid()
      modifies this, store`files, registry
      ensures Valid() && registry.Valid()
      ensures drive >= MAX_DRIVES ==> !ok && drives == old(drives) && fileHandles == old(fileHandles) && store.files == old(store.files)
      ensures drive < MAX_DRIVES ==>
                && (BayAt(drive), store.files, ok)
                   == MountBay(policy, old(BayAt(drive)), old(store.files), drive, image, now, unique, io)
                && OnlyDrive(drive)
      ensures registry.mounts
              == if ok then old(registry.mounts)[drive := MountEntry(image, drives[drive].readonly, registry.epochCounter)]
                 else old(registry.mounts)
    {
      if drive >= MAX_DRIVES {
        return false;
      }
      Vacate(drive, now, io.removes);
      var useTransient, handle := drives[drive].readonly && policy(image.name), None;
      if io.opening != NoAccess && Base(image) in store.files {
        handle := OpenFile(drive, image, drives[drive].readonly, useTransient, unique, io);
      }
      Settle(drive, image, useTransient, handle);
      if handle.Some? {
        registry.Set(drive, image, drives[drive].readonly);
      }
      return handle.Some?;
    }

    method Vacate(drive: nat, now: int, removes: bool)
      requires drive in drives
      modifies this`drives, this`fileHandles, store`files
      ensures drives == old(drives)[drive := Vacated(old(drives)[drive], now)]
      ensures fileHandles == old(fileHandles) - {drive}
      ensures store.files == DiscardScratch(old(drives)[drive], old(store.files), removes)
    {
      var wasMounted, stillInPriorWindow := drives[drive].mounted, InWindow(drives[drive], now);
      CloseHandle(drive);
      Discard(drive, removes);
      if wasMounted || stillInPriorWindow {
        drives := drives[drive := drives[drive].(unavailableUntil := Some(now + SWAP_INVALIDATE_WINDOW_MS))];
      }
    }

    method Settle(drive: nat, image: Image, useTransient: bool, handle: Option<Handle>)
      requires drive in drives && drive !in fileHandles
      modifies this`drives, this`fileHandles
      ensures drives == old(drives)[drive := Settled(old(drives)[drive], image, useTransient, handle)]
      ensures fileHandles == if handle.Some? then old(fileHandles)[drive := handle.value] else old(fileHandles)
    {
      if handle.None? {
        drives := drives[drive := drives[drive].(mounted := false, filename := ErrorMark)];
        return;
      }
      drives := drives[drive := drives[drive].(filename := Of(image), mounted := true, track := 0, hdld := false,
      transient := useTransient, scratchPath := if useTransient then Some(handle.value.path) else None, dirty := false)];
      fileHandles := fileHandles[drive := handle.value];
    }

    method Unmount(drive: nat, now: int, closeFails: bool, removes: bool) returns (ok: bool)
      requires Valid() && registry.Valid()
      modifies this, store`files, registry
      ensures Valid() && registry.Valid()
      ensures drive >= MAX_DRIVES ==> !ok && drives == old(drives) && fileHandles == old(fileHandles) && store.files == old(store.files)
      ensures drive < MAX_DRIVES ==>
                (BayAt(drive), store.files, ok) == UnmountBay(old(BayAt(drive)), old(store.files), now, closeFails, removes) && OnlyDrive(drive)
      ensures registry.mounts == if ok then old(registry.mounts) - {drive} else old(registry.mounts)
    {
      if drive >= MAX_DRIVES {
        return false;
      }
      var wasMounted := drives[drive].mounted;
      if wasMounted && drive in fileHandles {
        CloseHandle(drive);
        if closeFails {
          return false;
        }
      }
      Discard(drive, removes);
      registry.Clear(drive);
      drives := drives[drive := drives[drive].(filename := NoFile, mounted := false, track := 0, hdld := false)];
      if wasMounted {
        drives := drives[drive := drives[drive].(unavailableUntil := Some(now + SWAP_INVALIDATE_WINDOW_MS))];
      }
      return true;
    }

    method RemountWithMode(drive: nat, readonly: bool, unique: nat, io: OpenIo) returns (ok: bool)
      requires Valid() && drive < MAX_DRIVES
      modifies this`drives, this`fileHandles, store`files
      ensures Valid() && OnlyDrive(drive)
      ensures (BayAt(drive), store.files, ok)
              == RemountBay(policy, old(BayAt(drive)), old(store.files), drive, readonly, unique, io)
    {
      var s := drives[drive];
      if !s.filename.Of? || !s.mounted {
        return true;
      }
      var image := s.filename.image;
      CloseHandle(drive);
      Discard(drive, io.removes);
      var useTransient := readonly && policy(image.name);
      ghost var left := store.files;
      var copyFails := useTransient && (io.opening == CopyRefused || Base(image) !in store.files);
      var handle := OpenFile(drive, image, readonly, useTransient, unique, io);
      if handle.Some? {
        drives := drives[drive := drives[drive].(transient := useTransient,
        scratchPath := if useTransient then Some(handle.value.path) else None)];
        fileHandles := fileHandles[drive := handle.value];
        return true;
      }
      if !copyFails {
        drives := drives[drive := drives[drive].(mounted := false)];
      }
      return false;
    }

    method WriteProtect(drive: nat, flag: bool, unique: nat, io: OpenIo) returns (ok: bool)
      requires Valid() && registry.Valid()
      modifies this, store`files, registry
      ensures Valid() && registry.Valid()
      ensures drive >= MAX_DRIVES ==> !ok && drives == old(drives) && fileHandles == old(fileHandles) && store.files == old(store.files)
      ensures drive < MAX_DRIVES ==>
                && (BayAt(drive), store.files, ok) == ProtectBay(policy, old(BayAt(drive)), old(store.files), drive, flag, unique, io)
                && OnlyDrive(drive)
      ensures ok && drives[drive].mounted && drive in old(registry.mounts) ==>
                && drive in registry.mounts && registry.mounts[drive].readonly == flag
                && registry.mounts[drive].image == old(registry.mounts)[drive].image
      ensures forall d :: d != drive || !ok ==> MountAt(registry.mounts, d) == MountAt(old(registry.mounts), d)
    {
      if drive >= MAX_DRIVES {
        return false;
      }
      ok := SetMode(drive, flag, unique, io);
      if ok && drives[drive].mounted {
        registry.SetReadonly(drive, flag);
      }
    }

    method SetMode(drive: nat, flag: bool, unique: nat, io: OpenIo) returns (ok: bool)
      requires Valid() && drive < MAX_DRIVES
      modifies this`drives, this`fileHandles, store`files
      ensures Valid() && OnlyDrive(drive)
      ensures (BayAt(drive), store.files, ok) == ProtectBay(policy, old(BayAt(drive)), old(store.files), drive, flag, unique, io)
    {
      var oldFlag := drives[drive].readonly;
      drives := drives[drive := drives[drive].(readonly := flag)];
      ok := true;
      if drives[drive].mounted && oldFlag != flag {
        ok := RemountWithMode(drive, flag, unique, io);
      }
    }

    method Read(drive: nat, track: nat, length: int, now: int, ioWorks: bool) returns (r: Access<seq<byte>>)
      requires Valid()
      modifies this
      ensures Valid() && fileHandles == old(fileHandles)
      ensures drive >= MAX_DRIVES ==> r == Refused(NOT_READY) && drives == old(drives)
      ensures drive < MAX_DRIVES ==>
                (BayAt(drive), r) == ReadBay(old(BayAt(drive)), store.files, track, length, now, ioWorks) && OnlyDrive(drive)
      ensures fdcErrno == if r.Done? then OK else NOT_READY
    {
      fdcErrno := NOT_READY;
      if drive >= MAX_DRIVES || InWindow(drives[drive], now) || !drives[drive].mounted || drive !in fileHandles {
        return Refused(NOT_READY);
      }
      drives := drives[drive := drives[drive].(track := track, hdld := true)];
      var path := fileHandles[drive].path;
      if length < 0 || !ioWorks || path !in store.files || (length > 0 && track * length + length > |store.files[path]|) {
        return Refused(NOT_READY);
      }
      fdcErrno := OK;
      return Done(ReadAt(store.files[path], track * length, length));
    }

    method Write(drive: nat, track: int, length: int, buffer: seq<byte>, now: int, io: WriteIo) returns (r: Access<nat>)
      requires Valid()
      modifies this, store`files
      ensures Valid() && fileHandles == old(fileHandles)
      ensures drive >= MAX_DRIVES ==> r == Refused(NOT_READY) && drives == old(drives) && store.files == old(store.files)
      ensures drive < MAX_DRIVES ==>
                && (BayAt(drive), store.files, r) == WriteBay(old(BayAt(drive)), old(store.files), track, length, buffer, now, io)
                && OnlyDrive(drive)
      ensures fdcErrno == match r case Done(_) => OK case Refused(e) => e case IoError => WRITE_ERR
    {
      if drive >= MAX_DRIVES || InWindow(drives[drive], now) || !drives[drive].mounted || drive !in fileHandles {
        fdcErrno := NOT_READY;
        return Refused(NOT_READY);
      }
      fdcErrno := WRITE_ERR;
      var s, handle := drives[drive], fileHandles[drive];
      if (s.readonly && !s.transient) || !handle.writable {
        return Refused(WRITE_ERR);
      }
      if length <= 0 || length > MAX_TRACK_LEN || |buffer| < length || track < 0 {
        return Refused(WRITE_ERR);
      }
      drives := drives[drive := s.(track := track, hdld := true)];
      if handle.path !in store.files {
        return Refused(WRITE_ERR);
      }
      var stored := Store(handle.path, track * length, buffer[..length], io);
      if !stored {
        return Refused(WRITE_ERR);
      }
      if s.transient {
        drives := drives[drive := drives[drive].(dirty := true)];
      }
      fdcErrno := OK;
      return Done(length);
    }

    /** Tries the write until the data is stored, an attempt fails for good, or three have failed. */
    method Store(path: Path, off: nat, data: seq<byte>, io: WriteIo) returns (stored: bool)
      requires path in store.files
      modifies store`files
      ensures var (content, done) := Attempts(old(store.files[path]), off, data, io, 0);
              stored == done && store.files == old(store.files)[path := content]
    {
      var attempt := 0;
      while attempt < WRITE_ATTEMPTS
        invariant attempt < WRITE_ATTEMPTS && path in store.files
        invariant store.files == old(store.files)[path := store.files[path]]
        invariant Attempts(store.files[path], off, data, io, attempt) == Attempts(old(store.files[path]), off, data, io, 0)
        decreases WRITE_ATTEMPTS - attempt
      {
        match AttemptAt(io, attempt) {
          case Stored =>
            store.files := store.files[path := WriteAt(store.files[path], off, data)];
            return true;
          case Stopped(bytes, again) =>
            store.files := store.files[path := Landed(store.files[path], off, data, bytes)];
            if !again || attempt == WRITE_ATTEMPTS - 1 {
              return false;
            }
        }
        attempt := attempt + 1;
      }
    }

    method Commit(drive: nat, ioWorks: bool) returns (ok: bool)
      requires Valid()
      modifies this`drives, store`files
      ensures Valid()
      ensures drive >= MAX_DRIVES ==> !ok && drives == old(drives) && store.files == old(store.files)
      ensures drive < MAX_DRIVES ==>
                (BayAt(drive), store.files, ok) == CommitBay(old(BayAt(drive)), old(store.files), ioWorks) && OnlyDrive(drive)
    {
      if drive !in drives || !TransientBacked(drives[drive]) {
        return false;
      }
      var master, scratch := drives[drive].filename.image, drives[drive].scratchPath.value;
      if !ioWorks || scratch !in store.files {
        store.files := store.files - {CommitTemp(master)};
        return false;
      }
      store.files := store.files[Base(master) := store.files[scratch]] - {CommitTemp(master)};
      drives := drives[drive := drives[drive].(dirty := false)];
      return true;
    }

    /** Mounts a mounted drive's file again; an error counts as not reloaded. */
    method Reload(drive: nat, now: int, unique: nat, io: OpenIo) returns (reloaded: bool)
      requires Valid() && registry.Valid()
      modifies this, store`files, registry
      ensures Valid() && registry.Valid()
      ensures drive < MAX_DRIVES && old(drives)[drive].mounted && old(drives)[drive].filename.Of? ==>
                && (BayAt(drive), store.files, reloaded)
                   == MountBay(policy, old(BayAt(drive)), old(store.files), drive, old(drives)[drive].filename.image, now, unique, io)
                && OnlyDrive(drive)
      ensures !(drive < MAX_DRIVES && old(drives)[drive].mounted && old(drives)[drive].filename.Of?) ==>
                !reloaded && drives == old(drives) && fileHandles == old(fileHandles) && store.files == old(store.files)
    {
      if drive !in drives || !drives[drive].mounted || !drives[drive].filename.Of? {
        return false;
      }
      reloaded := Mount(drive, drives[drive].filename.image, now, unique, io);
    }

    method CanWrite(drive: nat, now: int) returns (r: bool)
      requires Valid()
      ensures r == (drive < MAX_DRIVES && CanWriteBay(BayAt(drive), now))
    {
      if drive >= MAX_DRIVES || InWindow(drives[drive], now) {
        return false;
      }
      if !drives[drive].mounted || drive !in fileHandles {
        return false;
      }
      if drives[drive].readonly && !drives[drive].transient {
        return false;
      }
      return fileHandles[drive].writable;
    }
  }

  // ---- what the attempts at a write leave ----------------------------------

  /** Whether the attempts from the k-th on get the data stored. */
  predicate Succeeds(io: WriteIo, k: nat)
    decreases WRITE_ATTEMPTS - k
  {
    AttemptAt(io, k).Stored? || (GoesOn(io, k) && Succeeds(io, k + 1))
  }

  /** The most bytes any of them got to the file. */
  function Furthest(io: WriteIo, k: nat): nat
    decreases WRITE_ATTEMPTS - k
  {
    match AttemptAt(io, k)
    case Stored => 0
    case Stopped(bytes, _) =>
      if GoesOn(io, k) && bytes < Furthest(io, k + 1) then Furthest(io, k + 1) else bytes
  }

  lemma LandedTwice(c: Content, off: nat, data: seq<byte>, m: nat, n: nat)
    ensures Landed(Landed(c, off, data, m), off, data, n) == Landed(c, off, data, if m < n then n else m)
    ensures WriteAt(Landed(c, off, data, m), off, data) == WriteAt(c, off, data)
  {
  }

  /**
   Attempts that end well leave the file as one good write does, whatever
   the ones before got to it; attempts that fail leave a front of the data
   in its place, as far as the longest of them came, and nothing else changed.
   */
  lemma {:induction false} AttemptsLeave(c: Content, off: nat, data: seq<byte>, io: WriteIo, k: nat)
    ensures Attempts(c, off, data, io, k).1 <==> Succeeds(io, k)
    ensures Attempts(c, off, data, io, k).0
            == if Succeeds(io, k) then WriteAt(c, off, data) else Landed(c, off, data, Furthest(io, k))
    decreases WRITE_ATTEMPTS - k
  {
    if GoesOn(io, k) {
      var bytes := AttemptAt(io, k).bytes;
      AttemptsLeave(Landed(c, off, data, bytes), off, data, io, k + 1);
      LandedTwice(c, off, data, bytes, if Succeeds(io, k + 1) then 0 else Furthest(io, k + 1));
    }
  }

  /** However the attempts go, bytes of the file outside the place written stay. */
  lemma AttemptsMiss(c: Content, off: nat, data: seq<byte>, io: WriteIo, at: nat, n: nat)
    requires at + n <= |c| && (at + n <= off || off + |data| <= at)
    ensures var d := Attempts(c, off, data, io, 0).0;
            at + n <= |d| && ReadAt(d, at, n) == ReadAt(c, at, n)
  {
    AttemptsLeave(c, off, data, io, 0);
    var m := Furthest(io, 0);
    ReadAfterWrite(c, off, data, at, n);
    ReadAfterWrite(c, off, Front(data, m), at, n);
  }

  /** A write succeeds exactly when one of its first three attempts does and those before it failed with errors worth another. */
  lemma SucceedsInThree(io: WriteIo)
    ensures Succeeds(io, 0) <==>
              exists k: nat :: k < 3 && AttemptAt(io, k).Stored? && forall j: nat :: j < k ==> AttemptAt(io, j).Stopped? && AttemptAt(io, j).again
  {
    if Succeeds(io, 0) {
      var k: nat := if AttemptAt(io, 0).Stored? then 0 else if AttemptAt(io, 1).Stored? then 1 else 2;
      assert k < 3 && AttemptAt(io, k).Stored?;
    }
  }

  /** Tracks of up to 32 records of 137 bytes can be written, and no longer ones. */
  lemma TrackLengths(bay: Bay, files: Files, track: nat, length: int, buffer: seq<byte>, now: int)
    requires CanWriteBay(bay, now) && bay.handle.value.path in files && length <= |buffer|
    ensures WriteBay(bay, files, track, length, buffer, now, []).2.Done? <==> 1 <= length <= 32 * 137
  {
  }

  /**
   A commit succeeds exactly when a scratch copy is there and the operations
   work. The image is then the scratch copy, which counts as clean; otherwise
   nothing of the drive and no file changes, but for the temporary copy.
   */
  lemma CommitExactly(bay: Bay, files: Files, ioWorks: bool, p: Path)
    ensures var (next, after, ok) := CommitBay(bay, files, ioWorks);
            var s := bay.state;
            && (ok <==> s.transient && s.filename.Of? && s.scratchPath.Some? && s.scratchPath.value in files && ioWorks)
            && next == (if ok then Bay(DriveState(s.filename, s.mounted, s.readonly, s.hdld, s.track, s.unavailableUntil,
                                             s.transient, s.scratchPath, false), bay.handle)
                        else bay)
            && (ok && p == Base(s.filename.image) ==> p in after && after[p] == files[s.scratchPath.value])
            && (!p.CommitTemp? && !(ok && p == Base(s.filename.image)) ==> (p in after <==> p in files) && (p in files ==> after[p] == files[p]))
            && (p.CommitTemp? && s.filename == Of(p.image) && s.transient && s.scratchPath.Some? ==> p !in after)
  {
  }

  /** The drive with the head loaded on that track. */
  predicate HeadOn(before: DriveState, track: int, after: DriveState) {
    && after.track == track && after.hdld && after.mounted == before.mounted && after.filename == before.filename
    && after.readonly == before.readonly && after.unavailableUntil == before.unavailableUntil
    && after.transient == before.transient && after.scratchPath == before.scratchPath
  }

  /**
   A read or write that gets to the file loads the head on its track, whatever
   comes of it; one that is refused before leaves the drive alone. A scratch
   copy is no longer clean once a write to it has succeeded, and only then.
   */
  lemma TransfersLoadHead(bay: Bay, files: Files, track: nat, length: int, buffer: seq<byte>, now: int, ioWorks: bool, io: WriteIo)
    ensures var (next, r) := ReadBay(bay, files, track, length, now, ioWorks);
            && (r.Done? ==> Ready(bay.state, now))
            && (if Ready(bay.state, now) && bay.handle.Some?
                then HeadOn(bay.state, track, next.state) && next.state.dirty == bay.state.dirty && next.handle == bay.handle
                else next == bay && r == Refused(NOT_READY))
    ensures var (next, after, r) := WriteBay(bay, files, track, length, buffer, now, io);
            && (if CanWriteBay(bay, now) && 0 < length <= 4384 && length <= |buffer|
                then HeadOn(bay.state, track, next.state) && next.handle == bay.handle
                else next == bay && after == files && r == Refused(if Ready(bay.state, now) && bay.handle.Some? then WRITE_ERR else NOT_READY))
            && (next.state.dirty <==> bay.state.dirty || (r.Done? && bay.state.transient))
            && (r.Done? ==> r.value == length)
            && (!r.Done? && CanWriteBay(bay, now) ==> r == Refused(WRITE_ERR))
  {
  }

  /** A mount that fails marks the drive; it is empty of files, and what it was mounted on is gone. */
  lemma FailedMountMarks(policy: Policy, bay: Bay, files: Files, drive: nat, image: Image, now: int, unique: nat, io: OpenIo)
    requires !MountBay(policy, bay, files, drive, image, now, unique, io).2
    ensures var next := MountBay(policy, bay, files, drive, image, now, unique, io).0;
            && next.handle.None? && !next.state.mounted && next.state.filename == ErrorMark
            && !next.state.transient && next.state.scratchPath.None? && !next.state.dirty
            && next.state.readonly == bay.state.readonly && next.state.track == bay.state.track && next.state.hdld == bay.state.hdld
  {
  }

  /** The window is until 2500 ms after the time it was stamped; a drive is ready when mounted and outside it. */
  lemma ReadyOutsideWindow(s: DriveState, now: int)
    ensures Ready(s, now) <==> s.mounted && (s.unavailableUntil == None || now >= s.unavailableUntil.value)
  {
  }
}
