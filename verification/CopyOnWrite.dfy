/**
 Many sessions at once, and a master client that changes the images under
 them: a drive follows its image until its first write, and from then on is a
 private copy that nobody else can touch.
 */
module CopyOnWrite {
  import opened Bytes
  import opened FileStore
  import opened Registries
  import opened DriveSession

  datatype Session = Session(cfg: Config, drives: Drives)

  /** The shared files and recorded copies, and the connected sessions. */
  datatype World = World(disk: Disk, sessions: map<nat, Session>)

  datatype Step =
    | Connect(sid: nat, cfg: Config)
    | SyncOne(sid: nat, drive: nat, mount: Option<Mount>, now: int, sync: SyncIo)
    | Write(sid: nat, drive: nat, track: nat, length: int, buffer: seq<byte>, unique: nat, io: SessionIo)
    | Disconnect(sid: nat, removes: nat -> bool)
    | Master(image: Image, content: Content)

  /**
   A client id has one session at a time; throwaway copies get names no file
   has. A Master step is any other change of an image there is, such as a commit.
   */
  ghost predicate Allowed(w: World, step: Step) {
    match step
    case Connect(sid, cfg) =>
      && sid !in w.sessions
      && (KeepId(cfg).Some? ==> forall s :: s in w.sessions ==> KeepId(w.sessions[s].cfg) != KeepId(cfg))
    case SyncOne(sid, _, _, _, _) => sid in w.sessions
    case Write(sid, drive, _, _, _, unique, _) =>
      && sid in w.sessions
      && (OpenAt(w, Seat(sid, drive)) && KeepId(w.sessions[sid].cfg).None? && !w.sessions[sid].cfg.writesMaster ==>
            ScratchFor(w.sessions[sid].cfg, w.sessions[sid].drives[drive].master, drive, unique) !in w.disk.files)
    case Disconnect(sid, _) => sid in w.sessions
    case Master(image, _) => Base(image) in w.disk.files
  }

  ghost function Next(w: World, step: Step): World
    requires Allowed(w, step)
  {
    match step
    case Connect(sid, cfg) => w.(sessions := w.sessions[sid := Session(cfg, map[])])
    case SyncOne(sid, drive, mount, now, io) =>
      var s := w.sessions[sid];
      var (drives, disk) := SyncDrive(s.cfg, s.drives, w.disk, drive, mount, now, io);
      World(disk, w.sessions[sid := s.(drives := drives)])
    case Write(sid, drive, track, length, buffer, unique, io) =>
      var s := w.sessions[sid];
      var (drives, disk, _) := WriteTrack(s.cfg, s.drives, w.disk, drive, track, length, buffer, unique, io);
      World(disk, w.sessions[sid := s.(drives := drives)])
    case Disconnect(sid, _) =>
      var s := w.sessions[sid];
      World(Disposed(s.cfg, s.drives, w.disk, step.removes), w.sessions - {sid})
    case Master(image, content) => w.(disk := w.disk.(files := w.disk.files[Base(image) := content]))
  }

  /** The write reached the drive's file, some bytes of it or all. */
  ghost predicate Written(w: World, step: Step)
    requires Allowed(w, step) && step.Write?
  {
    var s := w.sessions[step.sid];
    && WriteAsked(s.drives, step.drive, step.length, step.buffer)
    && CopyReady(s.cfg, s.drives[step.drive], w.disk, step.drive, step.unique, step.io.fork).2
  }

  // ---- the simple system ---------------------------------------------------

  datatype Seat = Seat(sid: nat, drive: nat)

  /** An open drive: the image it was opened on, and its own copy once it has one. */
  datatype View = View(image: Image, version: Version, own: Option<Content>)

  /** A client's kept copy of a drive, of an image of that base name. */
  datatype Saved = Saved(base: string, content: Content)

  datatype Private = Private(bases: map<Image, Content>, cfgs: map<nat, Config>, views: map<Seat, View>, saved: map<(string, nat), Saved>)

  /** What a drive reads from: its own copy, or the image as it is now. */
  ghost function ContentOf(e: Private, view: View): Content {
    match view.own
    case Some(content) => content
    case None => if view.image in e.bases then e.bases[view.image] else []
  }

  /** Takes up the kept copy of an image of that name, or follows the image. */
  ghost function PrivateOpen(e: Private, seat: Seat, mount: Mount, io: SyncIo): Private
    requires seat.sid in e.cfgs
  {
    var id := KeepId(e.cfgs[seat.sid]);
    if id.Some? && (id.value, seat.drive) in e.saved then
      var key := (id.value, seat.drive);
      if e.saved[key].base == mount.image.name && io.attaches(seat.drive)
      then e.(views := e.views[seat := View(mount.image, mount.version, Some(e.saved[key].content))])
      else FollowImage(e.(saved := e.saved - {key}), seat, mount, io.opens(seat.drive))
    else FollowImage(e, seat, mount, io.opens(seat.drive))
  }

  ghost function FollowImage(e: Private, seat: Seat, mount: Mount, opens: bool): Private {
    if mount.image in e.bases && opens
    then e.(views := e.views[seat := View(mount.image, mount.version, None)])
    else e.(views := e.views - {seat})
  }

  /** Writes to the drive's own content; a client whose copies are kept has its kept copy follow. */
  ghost function PrivateWrite(e: Private, seat: Seat, off: nat, data: seq<byte>): Private
    requires seat in e.views && seat.sid in e.cfgs
  {
    Keep(e, seat, KeepId(e.cfgs[seat.sid]), WriteAt(ContentOf(e, e.views[seat]), off, data))
  }

  /** The master client writes to the image itself. */
  ghost function ImageWrite(e: Private, seat: Seat, off: nat, data: seq<byte>): Private
    requires seat in e.views
  {
    e.(bases := e.bases[e.views[seat].image := WriteAt(ContentOf(e, e.views[seat]), off, data)])
  }

  /** The drive gets this content as its own. */
  ghost function Keep(e: Private, seat: Seat, id: Option<string>, content: Content): Private
    requires seat in e.views
  {
    e.(views := e.views[seat := e.views[seat].(own := Some(content))],
       saved := match id
                case Some(id) => e.saved[(id, seat.drive) := Saved(e.views[seat].image.name, content)]
                case None => e.saved)
  }

  ghost predicate CanStep(e: Private, step: Step, written: bool) {
    && (step.Connect? || step.Master? || step.sid in e.cfgs) && (step.Connect? ==> step.sid !in e.cfgs)
    && (step.Write? && written ==> Seat(step.sid, step.drive) in e.views && 0 <= step.length <= |step.buffer|)
  }

  /** The same steps in the simple system; a write reaches the copy or does not. */
  ghost function PrivateNext(e: Private, step: Step, written: bool): Private
    requires CanStep(e, step, written)
  {
    match step
    case Connect(sid, cfg) => e.(cfgs := e.cfgs[sid := cfg])
    case SyncOne(sid, drive, mount, _, io) =>
      var seat := Seat(sid, drive);
      if mount.None? then e.(views := e.views - {seat})
      else if seat in e.views && e.views[seat].version == mount.value.version then e
      else PrivateOpen(e, seat, mount.value, io)
    case Write(sid, drive, track, length, buffer, _, io) =>
      var seat := Seat(sid, drive);
      if !written then e
      else if e.cfgs[sid].writesMaster then ImageWrite(e, seat, track * length, Front(buffer[..length], io.stored))
      else PrivateWrite(e, seat, track * length, Front(buffer[..length], io.stored))
    case Disconnect(sid, _) => e.(cfgs := e.cfgs - {sid}, views := map s | s in e.views && s.sid != sid :: e.views[s])
    case Master(image, content) => e.(bases := e.bases[image := content])
  }

  // ---- the relation --------------------------------------------------------

  predicate OpenAt(w: World, seat: Seat) {
    seat.sid in w.sessions && seat.drive in w.sessions[seat.sid].drives
  }

  function DriveAt(w: World, seat: Seat): SessionDrive
    requires OpenAt(w, seat)
  {
    w.sessions[seat.sid].drives[seat.drive]
  }

  predicate IsKeyOf(cfg: Config, drive: nat, key: (string, nat)) {
    KeepId(cfg) == Some(key.0) && drive == key.1
  }

  /** Where copies of this drive go; for throwaway copies, the random part tells them apart. */
  predicate OwnPath(cfg: Config, drive: nat, path: Path) {
    match KeepId(cfg)
    case Some(id) => path.Splinter? && path.client == id && path.drive == drive
    case None => path.Scratch? && path.drive == drive
  }

  predicate UnforkedMatches(cfg: Config, drive: nat, sd: SessionDrive, disk: Disk, view: View) {
    && (sd.handle == Some(Base(sd.master)) || sd.handle == None)
    && Base(sd.master) in disk.files && view.own == None
    && (KeepId(cfg).Some? ==> (KeepId(cfg).value, drive) !in disk.rows)
  }

  predicate ForkedMatches(cfg: Config, drive: nat, sd: SessionDrive, disk: Disk, view: View, path: Path) {
    && sd.handle == Some(path) && OwnPath(cfg, drive, path)
    && path in disk.files && view.own == Some(disk.files[path])
    && (KeepId(cfg).Some? ==>
          var key := (KeepId(cfg).value, drive);
          key in disk.rows && disk.rows[key].path == path && disk.rows[key].base == sd.master.name)
  }

  /** What a drive reads from holds what its view holds. */
  predicate Matches(cfg: Config, drive: nat, sd: SessionDrive, disk: Disk, view: View) {
    && view.image == sd.master && view.version == sd.version
    && (cfg.writesMaster ==> sd.scratchPath.None? && sd.handle == Some(Base(sd.master)))
    && match sd.scratchPath
       case None => UnforkedMatches(cfg, drive, sd, disk, view)
       case Some(path) => ForkedMatches(cfg, drive, sd, disk, view, path)
  }

  ghost predicate SeatMatches(w: World, e: Private, seat: Seat) {
    && (OpenAt(w, seat) <==> seat in e.views)
    && (OpenAt(w, seat) ==> Matches(w.sessions[seat.sid].cfg, seat.drive, DriveAt(w, seat), w.disk, e.views[seat]))
  }

  predicate RowMatches(disk: Disk, e: Private, key: (string, nat)) {
    && (key in disk.rows <==> key in e.saved)
    && (key in disk.rows ==>
          var row := disk.rows[key];
          && row.path.Splinter? && row.path.client == key.0 && row.path.drive == key.1
          && row.path in disk.files
          && e.saved[key] == Saved(row.base, disk.files[row.path]))
  }

  ghost predicate SessionsMatch(w: World, e: Private) {
    && (forall s :: s in w.sessions <==> s in e.cfgs)
    && (forall s :: s in w.sessions ==> w.sessions[s].cfg == e.cfgs[s])
    && (forall s, t ::
          (s in w.sessions && t in w.sessions && KeepId(w.sessions[s].cfg).Some?
           && KeepId(w.sessions[s].cfg) == KeepId(w.sessions[t].cfg))
          ==> s == t)
  }

  /** No two seats share a copy. */
  ghost predicate CopiesApart(w: World) {
    forall a, b ::
      (OpenAt(w, a) && OpenAt(w, b) && DriveAt(w, a).scratchPath.Some?
       && DriveAt(w, a).scratchPath == DriveAt(w, b).scratchPath)
      ==> a == b
  }

  /** The image files are exactly these. */
  ghost predicate ImagesAre(files: Files, bases: map<Image, Content>) {
    && (forall image :: image in bases <==> Base(image) in files)
    && (forall image :: image in bases ==> files[Base(image)] == bases[image])
  }

  ghost predicate Related(w: World, e: Private) {
    && SessionsMatch(w, e) && CopiesApart(w)
    && ImagesAre(w.disk.files, e.bases)
    && (forall seat :: SeatMatches(w, e, seat))
    && (forall key :: RowMatches(w.disk, e, key))
  }

  // ---- steps of one drive --------------------------------------------------

  /** A step of one drive: its record, its copies and its row may change, nothing else that anyone uses. */
  ghost predicate OnlyAt(w: World, v: World, seat: Seat)
    requires seat.sid in w.sessions
  {
    var cfg := w.sessions[seat.sid].cfg;
    && v.sessions.Keys == w.sessions.Keys
    && (forall s :: s in w.sessions ==> v.sessions[s].cfg == w.sessions[s].cfg)
    && (forall t :: t != seat ==> (OpenAt(v, t) <==> OpenAt(w, t)) && (OpenAt(w, t) ==> DriveAt(v, t) == DriveAt(w, t)))
    && DiskOnlyAt(cfg, seat.drive, w.disk, v.disk)
    && (forall t :: t != seat && OpenAt(w, t) && DriveAt(w, t).scratchPath.Some? ==>
          SameFile(w.disk, v.disk, DriveAt(w, t).scratchPath.value))
  }

  predicate SameFile(d: Disk, f: Disk, path: Path) {
    path in d.files ==> path in f.files && f.files[path] == d.files[path]
  }

  ghost predicate DiskOnlyAt(cfg: Config, drive: nat, d: Disk, f: Disk) {
    && (forall p :: p in d.files && !OwnPath(cfg, drive, p) ==> p in f.files && f.files[p] == d.files[p])
    && (forall p :: p in f.files && !OwnPath(cfg, drive, p) ==> p in d.files)
    && (forall key :: !IsKeyOf(cfg, drive, key) ==>
          (key in f.rows <==> key in d.rows) && (key in d.rows ==> f.rows[key] == d.rows[key]))
  }

  /** The private copies of every other drive are as they were. */
  ghost predicate PrivateOnlyAt(e: Private, f: Private, seat: Seat)
    requires seat.sid in e.cfgs
  {
    && f.cfgs == e.cfgs && f.bases == e.bases
    && (forall t :: t != seat ==> (t in f.views <==> t in e.views) && (t in e.views ==> f.views[t] == e.views[t]))
    && (forall key :: !IsKeyOf(e.cfgs[seat.sid], seat.drive, key) ==>
          (key in f.saved <==> key in e.saved) && (key in e.saved ==> f.saved[key] == e.saved[key]))
  }

  lemma OtherSeatKept(w: World, v: World, e: Private, f: Private, seat: Seat, t: Seat)
    requires Related(w, e) && seat.sid in w.sessions && OnlyAt(w, v, seat) && PrivateOnlyAt(e, f, seat) && t != seat
    ensures SeatMatches(v, f, t)
  {
    assert SeatMatches(w, e, t);
    if OpenAt(w, t) {
      var cfg, own, sd := w.sessions[t.sid].cfg, w.sessions[seat.sid].cfg, DriveAt(w, t);
      if KeepId(cfg).Some? && IsKeyOf(own, seat.drive, (KeepId(cfg).value, t.drive)) {
        assert false;
      }
      assert !OwnPath(own, seat.drive, Base(sd.master));
    }
  }

  lemma OtherRowKept(w: World, v: World, e: Private, f: Private, seat: Seat, key: (string, nat))
    requires Related(w, e) && seat.sid in w.sessions && OnlyAt(w, v, seat) && PrivateOnlyAt(e, f, seat)
    requires !IsKeyOf(w.sessions[seat.sid].cfg, seat.drive, key)
    ensures RowMatches(v.disk, f, key)
  {
    assert RowMatches(w.disk, e, key);
    if key in w.disk.rows {
      assert !OwnPath(w.sessions[seat.sid].cfg, seat.drive, w.disk.rows[key].path);
    }
  }

  lemma ImagesKept(cfg: Config, drive: nat, d: Disk, f: Disk, bases: map<Image, Content>)
    requires DiskOnlyAt(cfg, drive, d, f) && ImagesAre(d.files, bases)
    ensures ImagesAre(f.files, bases)
  {
    forall image: Image
      ensures !OwnPath(cfg, drive, Base(image))
    {
    }
  }

  lemma CopiesKeptApart(w: World, v: World, e: Private, seat: Seat)
    requires Related(w, e) && seat.sid in w.sessions && OnlyAt(w, v, seat)
    requires forall t :: t != seat && OpenAt(w, t) && OpenAt(v, seat) && DriveAt(v, seat).scratchPath.Some? ==>
               DriveAt(w, t).scratchPath != DriveAt(v, seat).scratchPath
    ensures CopiesApart(v)
  {
    forall a, b | OpenAt(v, a) && OpenAt(v, b) && DriveAt(v, a).scratchPath.Some?
                  && DriveAt(v, a).scratchPath == DriveAt(v, b).scratchPath
      ensures a == b
    {
      if a != seat { assert OpenAt(w, a); }
      if b != seat { assert OpenAt(w, b); }
    }
  }

  /** A kept copy's path is no other seat's; nor is one no other seat has taken. */
  lemma OwnCopyApart(w: World, e: Private, seat: Seat, path: Path, t: Seat)
    requires Related(w, e) && seat.sid in w.sessions && OwnPath(w.sessions[seat.sid].cfg, seat.drive, path)
    requires KeepId(w.sessions[seat.sid].cfg).None? ==>
               path !in w.disk.files || (OpenAt(w, seat) && DriveAt(w, seat).scratchPath == Some(path))
    requires t != seat && OpenAt(w, t)
    ensures DriveAt(w, t).scratchPath != Some(path)
  {
    assert SeatMatches(w, e, t);
  }

  lemma RelatedAfter(w: World, v: World, e: Private, f: Private, seat: Seat)
    requires Related(w, e) && seat.sid in w.sessions && OnlyAt(w, v, seat) && PrivateOnlyAt(e, f, seat)
    requires CopiesApart(v) && SeatMatches(v, f, seat)
    requires KeepId(w.sessions[seat.sid].cfg).Some? ==> RowMatches(v.disk, f, (KeepId(w.sessions[seat.sid].cfg).value, seat.drive))
    ensures Related(v, f)
  {
    var cfg := w.sessions[seat.sid].cfg;
    forall t
      ensures SeatMatches(v, f, t)
    {
      if t != seat { OtherSeatKept(w, v, e, f, seat, t); }
    }
    forall key
      ensures RowMatches(v.disk, f, key)
    {
      if !IsKeyOf(cfg, seat.drive, key) { OtherRowKept(w, v, e, f, seat, key); }
    }
    ImagesKept(cfg, seat.drive, w.disk, v.disk, e.bases);
  }

  // ---- one drive's records -------------------------------------------------

  /** Seat, row and images agree, as far as one drive of one session goes. */
  ghost predicate Local(cfg: Config, seat: Seat, drives: Drives, disk: Disk, e: Private) {
    && ImagesAre(disk.files, e.bases)
    && (seat.drive in drives <==> seat in e.views)
    && (seat.drive in drives ==> Matches(cfg, seat.drive, drives[seat.drive], disk, e.views[seat]))
    && (KeepId(cfg).Some? ==> RowMatches(disk, e, (KeepId(cfg).value, seat.drive)))
  }

  /** What a step of one drive may do to the drives and the disk. */
  ghost predicate LocalStep(cfg: Config, drive: nat, drives: Drives, disk: Disk, after: Drives, f: Disk) {
    && DiskOnlyAt(cfg, drive, disk, f)
    && (forall d :: d != drive ==> (d in after <==> d in drives) && (d in drives ==> after[d] == drives[d]))
    && (KeepId(cfg).None? ==>
          && (forall p :: p in disk.files && !(drive in drives && drives[drive].scratchPath == Some(p)) ==>
                p in f.files && f.files[p] == disk.files[p])
          && (drive in after && after[drive].scratchPath.Some? ==>
                || after[drive].scratchPath.value !in disk.files
                || (drive in drives && drives[drive].scratchPath == after[drive].scratchPath)))
  }

  lemma LocalStepIsOnlyAt(w: World, e: Private, seat: Seat, after: Drives, f: Disk)
    requires Related(w, e) && seat.sid in w.sessions
    requires LocalStep(w.sessions[seat.sid].cfg, seat.drive, w.sessions[seat.sid].drives, w.disk, after, f)
    ensures OnlyAt(w, World(f, w.sessions[seat.sid := w.sessions[seat.sid].(drives := after)]), seat)
  {
    var cfg := w.sessions[seat.sid].cfg;
    forall t | t != seat && OpenAt(w, t) && DriveAt(w, t).scratchPath.Some?
      ensures SameFile(w.disk, f, DriveAt(w, t).scratchPath.value)
    {
      var path := DriveAt(w, t).scratchPath.value;
      assert !(OpenAt(w, seat) && DriveAt(w, seat).scratchPath == Some(path));
      if path in w.disk.files && OwnPath(cfg, seat.drive, path) && KeepId(cfg).Some? {
        OwnCopyApart(w, e, seat, path, t);
      }
    }
  }

  /** A step of one drive that leaves its own records in agreement leaves everything related. */
  lemma LocalStepKeeps(w: World, e: Private, f: Private, seat: Seat, after: Drives, disk: Disk)
    requires Related(w, e) && seat.sid in w.sessions
    requires LocalStep(w.sessions[seat.sid].cfg, seat.drive, w.sessions[seat.sid].drives, w.disk, after, disk)
    requires Local(w.sessions[seat.sid].cfg, seat, after, disk, f)
    requires PrivateOnlyAt(e, f, seat)
    ensures Related(World(disk, w.sessions[seat.sid := w.sessions[seat.sid].(drives := after)]), f)
  {
    var cfg := w.sessions[seat.sid].cfg;
    var v := World(disk, w.sessions[seat.sid := w.sessions[seat.sid].(drives := after)]);
    LocalStepIsOnlyAt(w, e, seat, after, disk);
    forall t | t != seat && OpenAt(w, t) && OpenAt(v, seat) && DriveAt(v, seat).scratchPath.Some?
      ensures DriveAt(w, t).scratchPath != DriveAt(v, seat).scratchPath
    {
      OwnCopyApart(w, e, seat, DriveAt(v, seat).scratchPath.value, t);
    }
    CopiesKeptApart(w, v, e, seat);
    assert SeatMatches(v, f, seat);
    RelatedAfter(w, v, e, f, seat);
  }

  lemma LocalOf(w: World, e: Private, seat: Seat)
    requires Related(w, e) && seat.sid in w.sessions
    ensures Local(w.sessions[seat.sid].cfg, seat, w.sessions[seat.sid].drives, w.disk, e)
  {
    assert SeatMatches(w, e, seat);
  }

  // ---- opening and closing -------------------------------------------------

  lemma CloseLocal(cfg: Config, seat: Seat, drives: Drives, disk: Disk, e: Private, removes: bool)
    requires Local(cfg, seat, drives, disk, e)
    ensures var (after, f) := CloseDrive(cfg, drives, disk, seat.drive, removes);
            && LocalStep(cfg, seat.drive, drives, disk, after, f)
            && Local(cfg, seat, after, f, e.(views := e.views - {seat}))
            && seat.drive !in after
  {
  }

  /** Opening the image, with no row of the drive's own. */
  lemma OpenImageLocal(cfg: Config, seat: Seat, drives: Drives, disk: Disk, e: Private,
                       mount: Mount, wasMounted: bool, now: int, opens: bool)
    requires Local(cfg, seat, drives, disk, e) && seat.drive !in drives
    requires KeepId(cfg).Some? ==> (KeepId(cfg).value, seat.drive) !in disk.rows
    ensures var (after, f) := OpenImage(drives, disk, seat.drive, mount, wasMounted, now, opens);
            LocalStep(cfg, seat.drive, drives, disk, after, f) && Local(cfg, seat, after, f, FollowImage(e, seat, mount, opens))
  {
  }

  /** Taking up the drive's kept copy. */
  lemma AttachLocal(cfg: Config, seat: Seat, drives: Drives, disk: Disk, e: Private,
                    mount: Mount, wasMounted: bool, now: int, io: SyncIo)
    requires Local(cfg, seat, drives, disk, e) && seat.drive !in drives
    requires seat.sid in e.cfgs && e.cfgs[seat.sid] == cfg
    requires KeepId(cfg).Some? && (KeepId(cfg).value, seat.drive) in disk.rows
    requires disk.rows[(KeepId(cfg).value, seat.drive)].base == mount.image.name && io.attaches(seat.drive)
    ensures var (after, f) := OpenDrive(cfg, drives, disk, seat.drive, mount, wasMounted, now, io);
            && LocalStep(cfg, seat.drive, drives, disk, after, f)
            && Local(cfg, seat, after, f, PrivateOpen(e, seat, mount, io))
  {
  }

  lemma OpenLocal(cfg: Config, seat: Seat, drives: Drives, disk: Disk, e: Private,
                  mount: Mount, wasMounted: bool, now: int, io: SyncIo)
    requires Local(cfg, seat, drives, disk, e) && seat.drive !in drives
    requires seat.sid in e.cfgs && e.cfgs[seat.sid] == cfg
    ensures var (after, f) := OpenDrive(cfg, drives, disk, seat.drive, mount, wasMounted, now, io);
            && LocalStep(cfg, seat.drive, drives, disk, after, f)
            && Local(cfg, seat, after, f, PrivateOpen(e, seat, mount, io))
  {
    var id := KeepId(cfg);
    if id.Some? && (id.value, seat.drive) in disk.rows {
      var key := (id.value, seat.drive);
      var row := disk.rows[key];
      if row.base == mount.image.name && io.attaches(seat.drive) {
        AttachLocal(cfg, seat, drives, disk, e, mount, wasMounted, now, io);
      } else {
        var files := if row.base == mount.image.name then disk.files else WithoutFile(disk.files, row.path, io.removes(seat.drive));
        var left := Disk(files, disk.rows - {key});
        OpenImageLocal(cfg, seat, drives, left, e.(saved := e.saved - {key}), mount, wasMounted, now, io.opens(seat.drive));
      }
    } else {
      OpenImageLocal(cfg, seat, drives, disk, e, mount, wasMounted, now, io.opens(seat.drive));
    }
  }

  /** Opening does not depend on what the seat held before. */
  lemma OpeningForgets(e: Private, seat: Seat, mount: Mount, io: SyncIo)
    requires seat.sid in e.cfgs
    ensures PrivateOpen(e.(views := e.views - {seat}), seat, mount, io) == PrivateOpen(e, seat, mount, io)
  {
    var gone := e.(views := e.views - {seat});
    assert gone.views - {seat} == e.views - {seat};
  }

  /** Closing and opening anew. */
  lemma ReopenLocal(cfg: Config, seat: Seat, drives: Drives, disk: Disk, e: Private, mount: Mount, wasMounted: bool, now: int,
                    io: SyncIo)
    requires Local(cfg, seat, drives, disk, e)
    requires seat.sid in e.cfgs && e.cfgs[seat.sid] == cfg
    ensures var (closed, d) := CloseDrive(cfg, drives, disk, seat.drive, io.removes(seat.drive));
            var (after, f) := OpenDrive(cfg, closed, d, seat.drive, mount, wasMounted, now, io);
            && LocalStep(cfg, seat.drive, drives, disk, after, f)
            && Local(cfg, seat, after, f, PrivateOpen(e, seat, mount, io))
  {
    CloseLocal(cfg, seat, drives, disk, e, io.removes(seat.drive));
    var (closed, d) := CloseDrive(cfg, drives, disk, seat.drive, io.removes(seat.drive));
    var gone := e.(views := e.views - {seat});
    OpenLocal(cfg, seat, closed, d, gone, mount, wasMounted, now, io);
    OpeningForgets(e, seat, mount, io);
    var (after, f) := OpenDrive(cfg, closed, d, seat.drive, mount, wasMounted, now, io);
    ClosedThenOpened(cfg, seat.drive, drives, disk, closed, d, after, f);
  }

  lemma ClosedThenOpened(cfg: Config, drive: nat, drives: Drives, disk: Disk, closed: Drives, d: Disk, after: Drives, f: Disk)
    requires LocalStep(cfg, drive, drives, disk, closed, d) && LocalStep(cfg, drive, closed, d, after, f)
    requires drive !in closed && (drive in after && KeepId(cfg).None? ==> after[drive].scratchPath.None?)
    ensures LocalStep(cfg, drive, drives, disk, after, f)
  {
  }

  lemma SyncLocal(cfg: Config, seat: Seat, drives: Drives, disk: Disk, e: Private,
                  mount: Option<Mount>, now: int, io: SyncIo)
    requires Local(cfg, seat, drives, disk, e)
    requires seat.sid in e.cfgs && e.cfgs[seat.sid] == cfg
    ensures var (after, f) := SyncDrive(cfg, drives, disk, seat.drive, mount, now, io);
            && LocalStep(cfg, seat.drive, drives, disk, after, f)
            && Local(cfg, seat, after, f, PrivateNext(e, Step.SyncOne(seat.sid, seat.drive, mount, now, io), false))
  {
    if mount.None? {
      CloseLocal(cfg, seat, drives, disk, e, io.removes(seat.drive));
    } else if seat.drive in drives && drives[seat.drive].version == mount.value.version {
      assert seat in e.views && e.views[seat].version == mount.value.version;
    } else {
      ReopenLocal(cfg, seat, drives, disk, e, mount.value, seat.drive in drives, now, io);
    }
  }

  /** A fork that works gives the drive its content, as it is then, for its own. */
  ghost function PrivateFork(e: Private, seat: Seat, id: Option<string>): Private
    requires seat in e.views
  {
    Keep(e, seat, id, ContentOf(e, e.views[seat]))
  }

  lemma ForkLocal(cfg: Config, seat: Seat, drives: Drives, disk: Disk, e: Private,
                  unique: nat, io: ForkIo)
    requires !cfg.writesMaster && Local(cfg, seat, drives, disk, e) && seat.drive in drives && drives[seat.drive].scratchPath.None?
    requires KeepId(cfg).None? ==> ScratchFor(cfg, drives[seat.drive].master, seat.drive, unique) !in disk.files
    ensures var (sd, f, ok) := ForkSplinter(cfg, drives[seat.drive], disk, seat.drive, unique, io);
            var after := drives[seat.drive := sd];
            && LocalStep(cfg, seat.drive, drives, disk, after, f)
            && (ok ==> sd.scratchPath.Some?)
            && Local(cfg, seat, after, f, if ok then PrivateFork(e, seat, KeepId(cfg)) else e)
  {
    ForkSteps(cfg, seat, drives, disk, e, unique, io);
  }

  lemma ForkSteps(cfg: Config, seat: Seat, drives: Drives, disk: Disk, e: Private,
                  unique: nat, io: ForkIo)
    requires Local(cfg, seat, drives, disk, e) && seat.drive in drives && drives[seat.drive].scratchPath.None?
    requires KeepId(cfg).None? ==> ScratchFor(cfg, drives[seat.drive].master, seat.drive, unique) !in disk.files
    ensures var (sd, f, ok) := ForkSplinter(cfg, drives[seat.drive], disk, seat.drive, unique, io);
            LocalStep(cfg, seat.drive, drives, disk, drives[seat.drive := sd], f)
  {
  }

  /** A write to a copy already there. */
  lemma ForkedWriteLocal(cfg: Config, seat: Seat, drives: Drives, disk: Disk, e: Private,
                         track: nat, off: nat, data: seq<byte>, io: SessionIo)
    requires Local(cfg, seat, drives, disk, e) && seat.drive in drives && drives[seat.drive].scratchPath.Some?
    requires seat.sid in e.cfgs && e.cfgs[seat.sid] == cfg
    ensures var path := drives[seat.drive].scratchPath.value;
            path in disk.files && drives[seat.drive].handle == Some(path)
    ensures var path := drives[seat.drive].scratchPath.value;
            var after := drives[seat.drive := Noted(drives[seat.drive], track, io)];
            var f := disk.(files := disk.files[path := WriteAt(disk.files[path], off, data)]);
            LocalStep(cfg, seat.drive, drives, disk, after, f) && Local(cfg, seat, after, f, PrivateWrite(e, seat, off, data))
  {
  }

  lemma LocalStepTwice(cfg: Config, drive: nat, drives: Drives, disk: Disk, then1: Drives, d1: Disk, then2: Drives, d2: Disk)
    requires LocalStep(cfg, drive, drives, disk, then1, d1) && LocalStep(cfg, drive, then1, d1, then2, d2)
    requires drive in drives && drive in then1 && drive in then2
    requires then2[drive].scratchPath == then1[drive].scratchPath
    requires then1[drive].scratchPath.Some? && drives[drive].scratchPath.None?
    requires KeepId(cfg).None? ==> then1[drive].scratchPath.value !in disk.files
    ensures LocalStep(cfg, drive, drives, disk, then2, d2)
  {
  }

  /** The drive and the disk once a copy has been written to. */
  ghost function Stored(drives: Drives, disk: Disk, drive: nat, sd: SessionDrive, track: nat, off: nat, data: seq<byte>, io: SessionIo)
    : (Drives, Disk)
    requires sd.scratchPath.Some? && sd.scratchPath.value in disk.files
  {
    var path := sd.scratchPath.value;
    (drives[drive := Noted(sd, track, io)],
     disk.(files := disk.files[path := WriteAt(disk.files[path], off, data)]))
  }

  /** Forking first makes no difference to what a write leaves. */
  lemma ForkThenWrite(e: Private, seat: Seat, off: nat, data: seq<byte>)
    requires seat in e.views && seat.sid in e.cfgs
    ensures PrivateWrite(PrivateFork(e, seat, KeepId(e.cfgs[seat.sid])), seat, off, data) == PrivateWrite(e, seat, off, data)
  {
    var p := PrivateFork(e, seat, KeepId(e.cfgs[seat.sid]));
    var v, w := PrivateWrite(p, seat, off, data), PrivateWrite(e, seat, off, data);
    assert ContentOf(p, p.views[seat]) == ContentOf(e, e.views[seat]);
    assert v.saved == w.saved && v.views == w.views;
  }

  /** A first write forks and then stores. */
  lemma FirstWriteLocal(cfg: Config, seat: Seat, drives: Drives, disk: Disk, e: Private,
                        track: nat, off: nat, data: seq<byte>, unique: nat, io: SessionIo)
    requires !cfg.writesMaster && Local(cfg, seat, drives, disk, e)
    requires seat.sid in e.cfgs && e.cfgs[seat.sid] == cfg
    requires seat.drive in drives && drives[seat.drive].scratchPath.None?
    requires KeepId(cfg).None? ==> ScratchFor(cfg, drives[seat.drive].master, seat.drive, unique) !in disk.files
    requires ForkSplinter(cfg, drives[seat.drive], disk, seat.drive, unique, io.fork).2
    ensures var (sd, f, _) := ForkSplinter(cfg, drives[seat.drive], disk, seat.drive, unique, io.fork);
            && sd.scratchPath.Some? && sd.handle == sd.scratchPath && sd.scratchPath.value in f.files
            && var (after, g) := Stored(drives, f, seat.drive, sd, track, off, data, io);
               LocalStep(cfg, seat.drive, drives, disk, after, g) && Local(cfg, seat, after, g, PrivateWrite(e, seat, off, data))
  {
    ForkLocal(cfg, seat, drives, disk, e, unique, io.fork);
    var (sd, f, _) := ForkSplinter(cfg, drives[seat.drive], disk, seat.drive, unique, io.fork);
    var forked, p := drives[seat.drive := sd], PrivateFork(e, seat, KeepId(cfg));
    ForkedWriteLocal(cfg, seat, forked, f, p, track, off, data, io);
    var (after, g) := Stored(drives, f, seat.drive, sd, track, off, data, io);
    assert after == Stored(forked, f, seat.drive, sd, track, off, data, io).0;
    ForkThenWrite(e, seat, off, data);
    LocalStepTwice(cfg, seat.drive, drives, disk, forked, f, after, g);
  }

  /** A write, done or failed, keeps the drive's records in agreement; it goes to the copy. */
  lemma WriteLocal(cfg: Config, seat: Seat, drives: Drives, disk: Disk, e: Private,
                   track: nat, length: int, buffer: seq<byte>, unique: nat, io: SessionIo)
    requires Local(cfg, seat, drives, disk, e) && !cfg.writesMaster
    requires seat.sid in e.cfgs && e.cfgs[seat.sid] == cfg
    requires seat.drive in drives && KeepId(cfg).None? ==>
               ScratchFor(cfg, drives[seat.drive].master, seat.drive, unique) !in disk.files
    ensures var (after, f, _) := WriteTrack(cfg, drives, disk, seat.drive, track, length, buffer, unique, io);
            var reached := WriteAsked(drives, seat.drive, length, buffer) && CopyReady(cfg, drives[seat.drive], disk, seat.drive, unique, io.fork).2;
            && LocalStep(cfg, seat.drive, drives, disk, after, f)
            && (reached ==> seat in e.views)
            && Local(cfg, seat, after, f,
                     if reached then PrivateWrite(e, seat, track * length, Front(buffer[..length], io.stored)) else e)
  {
    if seat.drive in drives && 0 < length <= MAX_TRACK_LEN && length <= |buffer| {
      var sd := drives[seat.drive];
      if sd.scratchPath.Some? {
        ForkedWriteLocal(cfg, seat, drives, disk, e, track, track * length, Front(buffer[..length], io.stored), io);
      } else if ForkSplinter(cfg, sd, disk, seat.drive, unique, io.fork).2 {
        FirstWriteLocal(cfg, seat, drives, disk, e, track, track * length, Front(buffer[..length], io.stored), unique, io);
      } else {
        ForkLocal(cfg, seat, drives, disk, e, unique, io.fork);
      }
    }
  }

  // ---- steps ---------------------------------------------------------------

  /** One step of the simple system. */
  ghost predicate PrivateStep(e: Private, step: Step, written: bool, f: Private) {
    CanStep(e, step, written) && f == PrivateNext(e, step, written)
  }

  ghost predicate WrittenBy(w: World, step: Step)
    requires Allowed(w, step)
  {
    step.Write? && Written(w, step)
  }

  lemma ConnectKeeps(w: World, e: Private, step: Step)
    requires Related(w, e) && step.Connect? && Allowed(w, step)
    ensures Related(Next(w, step), PrivateNext(e, step, false))
  {
    var v, f := Next(w, step), PrivateNext(e, step, false);
    forall seat
      ensures SeatMatches(v, f, seat)
    {
      assert SeatMatches(w, e, seat);
      if seat.sid == step.sid { assert !OpenAt(w, seat); }
    }
    forall key
      ensures RowMatches(v.disk, f, key)
    {
      assert RowMatches(w.disk, e, key);
    }
    forall a | OpenAt(v, a)
      ensures OpenAt(w, a) && DriveAt(w, a) == DriveAt(v, a)
    {
    }
  }

  lemma DisconnectKeeps(w: World, e: Private, step: Step)
    requires Related(w, e) && step.Disconnect? && Allowed(w, step)
    ensures Related(Next(w, step), PrivateNext(e, step, false))
  {
    var v, f := Next(w, step), PrivateNext(e, step, false);
    var gone := w.sessions[step.sid];
    forall p | p in Discarded(gone.cfg, gone.drives, gone.drives.Keys, step.removes)
      ensures p.Scratch? && forall t :: OpenAt(w, t) && t.sid != step.sid ==> DriveAt(w, t).scratchPath != Some(p)
    {
      var d :| d in gone.drives && gone.drives[d].scratchPath == Some(p);
      assert SeatMatches(w, e, Seat(step.sid, d));
      assert OpenAt(w, Seat(step.sid, d));
    }
    forall seat
      ensures SeatMatches(v, f, seat)
    {
      assert SeatMatches(w, e, seat);
    }
    forall key
      ensures RowMatches(v.disk, f, key)
    {
      assert RowMatches(w.disk, e, key);
    }
    forall a | OpenAt(v, a)
      ensures OpenAt(w, a) && DriveAt(w, a) == DriveAt(v, a)
    {
    }
  }

  /** A changed image is read by the drives that follow it, and by no copy. */
  lemma MasterKeeps(w: World, e: Private, step: Step)
    requires Related(w, e) && step.Master? && Allowed(w, step)
    ensures Related(Next(w, step), PrivateNext(e, step, false))
  {
    var v, f := Next(w, step), PrivateNext(e, step, false);
    forall seat
      ensures SeatMatches(v, f, seat)
    {
      assert SeatMatches(w, e, seat);
    }
    forall key
      ensures RowMatches(v.disk, f, key)
    {
      assert RowMatches(w.disk, e, key);
    }
    forall a | OpenAt(v, a)
      ensures OpenAt(w, a) && DriveAt(w, a) == DriveAt(v, a)
    {
    }
  }

  lemma PrivateSyncOnlyAt(e: Private, step: Step)
    requires step.SyncOne? && step.sid in e.cfgs
    ensures PrivateOnlyAt(e, PrivateNext(e, step, false), Seat(step.sid, step.drive))
  {
  }

  lemma SyncKeeps(w: World, e: Private, step: Step)
    requires Related(w, e) && step.SyncOne? && Allowed(w, step)
    ensures Related(Next(w, step), PrivateNext(e, step, false))
  {
    var SyncOne(sid, drive, mount, now, io) := step;
    var s, seat, f := w.sessions[sid], Seat(sid, drive), PrivateNext(e, step, false);
    LocalOf(w, e, seat);
    SyncLocal(s.cfg, seat, s.drives, w.disk, e, mount, now, io);
    PrivateSyncOnlyAt(e, step);
    var (drives, disk) := SyncDrive(s.cfg, s.drives, w.disk, drive, mount, now, io);
    LocalStepKeeps(w, e, f, seat, drives, disk);
  }

  lemma PrivateWriteOnlyAt(e: Private, step: Step, written: bool)
    requires step.Write? && CanStep(e, step, written) && !e.cfgs[step.sid].writesMaster
    ensures PrivateOnlyAt(e, PrivateNext(e, step, written), Seat(step.sid, step.drive))
  {
  }

  /** What a write step does to its own drive. */
  lemma WriteOfSession(w: World, e: Private, step: Step)
    requires Related(w, e) && step.Write? && Allowed(w, step) && !w.sessions[step.sid].cfg.writesMaster
    ensures var s, seat := w.sessions[step.sid], Seat(step.sid, step.drive);
            var (drives, disk, _) := WriteTrack(s.cfg, s.drives, w.disk, step.drive, step.track, step.length, step.buffer, step.unique, step.io);
            && LocalStep(s.cfg, step.drive, s.drives, w.disk, drives, disk)
            && CanStep(e, step, Written(w, step))
            && Local(s.cfg, seat, drives, disk, PrivateNext(e, step, Written(w, step)))
  {
    var s, seat := w.sessions[step.sid], Seat(step.sid, step.drive);
    LocalOf(w, e, seat);
    WriteLocal(s.cfg, seat, s.drives, w.disk, e, step.track, step.length, step.buffer, step.unique, step.io);
  }

  /** A write of the master client, done or failed, changes the image it has open and nothing else. */
  lemma MasterWriteLands(cfg: Config, drives: Drives, disk: Disk, drive: nat, track: nat, length: int, buffer: seq<byte>,
                         unique: nat, io: SessionIo)
    requires cfg.writesMaster && drive in drives && drives[drive].handle == Some(Base(drives[drive].master))
    requires Base(drives[drive].master) in disk.files && 0 < length <= MAX_TRACK_LEN && length <= |buffer|
    ensures var (after, f, r) := WriteTrack(cfg, drives, disk, drive, track, length, buffer, unique, io);
            var image := drives[drive].master;
            && f.files == disk.files[Base(image) := WriteAt(disk.files[Base(image)], track * length, Front(buffer[..length], io.stored))]
            && f.rows == disk.rows
            && after.Keys == drives.Keys && (forall d :: d in drives && d != drive ==> after[d] == drives[d])
            && after[drive].scratchPath == drives[drive].scratchPath && after[drive].handle == drives[drive].handle
            && after[drive].master == image && after[drive].version == drives[drive].version
            && (r.Done? <==> !io.fails)
  {
  }

  lemma MasterWriteKeeps(w: World, e: Private, step: Step)
    requires Related(w, e) && step.Write? && Allowed(w, step) && w.sessions[step.sid].cfg.writesMaster
    ensures CanStep(e, step, Written(w, step))
    ensures Related(Next(w, step), PrivateNext(e, step, Written(w, step)))
  {
    var s, seat := w.sessions[step.sid], Seat(step.sid, step.drive);
    assert SeatMatches(w, e, seat);
    if Written(w, step) {
      MasterWriteLands(s.cfg, s.drives, w.disk, step.drive, step.track, step.length, step.buffer, step.unique, step.io);
      ImageWritten(w, e, step);
    } else {
      NothingWritten(w, e, step);
    }
  }

  lemma NothingWritten(w: World, e: Private, step: Step)
    requires Related(w, e) && step.Write? && Allowed(w, step) && w.sessions[step.sid].cfg.writesMaster && !Written(w, step)
    ensures Next(w, step) == w
  {
    var s, seat := w.sessions[step.sid], Seat(step.sid, step.drive);
    assert SeatMatches(w, e, seat);
    assert w.sessions[step.sid := s] == w.sessions;
    if step.drive in s.drives { assert s.drives[step.drive := s.drives[step.drive]] == s.drives; }
  }

  /** The written image is read by the drives that follow it, and by no copy. */
  lemma ImageWritten(w: World, e: Private, step: Step)
    requires Related(w, e) && step.Write? && Allowed(w, step) && w.sessions[step.sid].cfg.writesMaster && Written(w, step)
    requires CanStep(e, step, true)
    ensures Related(Next(w, step), PrivateNext(e, step, true))
  {
    var v, f := Next(w, step), PrivateNext(e, step, true);
    var seat := Seat(step.sid, step.drive);
    assert SeatMatches(w, e, seat);
    forall t
      ensures SeatMatches(v, f, t)
    {
      assert SeatMatches(w, e, t);
    }
    forall key
      ensures RowMatches(v.disk, f, key)
    {
      assert RowMatches(w.disk, e, key);
    }
    forall a | OpenAt(v, a)
      ensures OpenAt(w, a) && DriveAt(v, a).scratchPath == DriveAt(w, a).scratchPath
    {
    }
  }

  lemma WriteKeeps(w: World, e: Private, step: Step)
    requires Related(w, e) && step.Write? && Allowed(w, step)
    ensures CanStep(e, step, Written(w, step))
    ensures Related(Next(w, step), PrivateNext(e, step, Written(w, step)))
  {
    var s := w.sessions[step.sid];
    if s.cfg.writesMaster {
      MasterWriteKeeps(w, e, step);
      return;
    }
    WriteOfSession(w, e, step);
    PrivateWriteOnlyAt(e, step, Written(w, step));
    var (drives, disk, _) := WriteTrack(s.cfg, s.drives, w.disk, step.drive, step.track, step.length, step.buffer, step.unique, step.io);
    LocalStepKeeps(w, e, PrivateNext(e, step, Written(w, step)), Seat(step.sid, step.drive), drives, disk);
  }

  /** Every step of the shared system is the same step of the simple one. */
  lemma StepSimulates(w: World, e: Private, step: Step)
    requires Related(w, e) && Allowed(w, step)
    ensures CanStep(e, step, WrittenBy(w, step))
    ensures Related(Next(w, step), PrivateNext(e, step, WrittenBy(w, step)))
  {
    match step
    case Connect(_, _) => ConnectKeeps(w, e, step);
    case SyncOne(_, _, _, _, _) => SyncKeeps(w, e, step);
    case Write(_, _, _, _, _, _, _) => WriteKeeps(w, e, step);
    case Disconnect(_, _) => DisconnectKeeps(w, e, step);
    case Master(_, _) => MasterKeeps(w, e, step);
  }
}
