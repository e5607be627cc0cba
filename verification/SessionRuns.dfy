/** Whole runs of many sessions: what a read returns, and what outlives a session. */
module SessionRuns {
  import opened Bytes
  import opened FileStore
  import opened DriveSession
  import opened CopyOnWrite

  ghost predicate Execution(ws: seq<World>, steps: seq<Step>) {
    && |ws| == |steps| + 1
    && forall i :: 0 <= i < |steps| ==> Allowed(ws[i], steps[i]) && ws[i + 1] == Next(ws[i], steps[i])
  }

  /** Which steps were writes that reached the drive's copy. */
  ghost function Done(ws: seq<World>, steps: seq<Step>): (done: seq<bool>)
    requires Execution(ws, steps)
    ensures |done| == |steps|
  {
    seq(|steps|, i requires 0 <= i < |steps| => WrittenBy(ws[i], steps[i]))
  }

  /** A run of the simple system. */
  ghost predicate PrivateRun(es: seq<Private>, steps: seq<Step>, done: seq<bool>) {
    && |es| == |steps| + 1 && |done| == |steps|
    && forall i :: 0 <= i < |steps| ==> PrivateStep(es[i], steps[i], done[i], es[i + 1])
  }

  ghost predicate Simulated(ws: seq<World>, steps: seq<Step>, es: seq<Private>)
    requires Execution(ws, steps)
  {
    && PrivateRun(es, steps, Done(ws, steps))
    && forall i :: 0 <= i < |ws| ==> Related(ws[i], es[i])
  }

  /** Whatever the sessions and the master client do, and in whatever order, it is a run of the simple system. */
  lemma {:induction false} RunSimulates(ws: seq<World>, steps: seq<Step>, e: Private) returns (es: seq<Private>)
    requires Execution(ws, steps) && Related(ws[0], e)
    ensures Simulated(ws, steps, es) && es[0] == e
    decreases |steps|
  {
    if steps == [] {
      es := [e];
    } else {
      FrontExecution(ws, steps);
      var before := RunSimulates(ws[..|steps|], steps[..|steps| - 1], e);
      es := OneMoreStep(ws, steps, before);
    }
  }

  lemma FrontExecution(ws: seq<World>, steps: seq<Step>)
    requires Execution(ws, steps) && steps != []
    ensures Execution(ws[..|steps|], steps[..|steps| - 1]) && ws[..|steps|][0] == ws[0]
  {
  }

  lemma OneMoreStep(ws: seq<World>, steps: seq<Step>, before: seq<Private>) returns (es: seq<Private>)
    requires Execution(ws, steps) && steps != []
    requires var n := |steps| - 1;
             Execution(ws[..n + 1], steps[..n]) && Simulated(ws[..n + 1], steps[..n], before)
    ensures Simulated(ws, steps, es) && es[0] == before[0]
  {
    var n := |steps| - 1;
    var done := Done(ws, steps);
    assert ws[..n + 1][n] == ws[n];
    StepSimulates(ws[n], before[n], steps[n]);
    DoneFront(ws, steps);
    var next := PrivateNext(before[n], steps[n], done[n]);
    RunExtends(before, steps, done, next);
    es := before + [next];
    forall i | 0 <= i < |ws|
      ensures Related(ws[i], es[i])
    {
      if i <= n { assert Related(ws[..n + 1][i], before[i]); }
    }
  }

  lemma DoneFront(ws: seq<World>, steps: seq<Step>)
    requires Execution(ws, steps) && steps != []
    requires Execution(ws[..|steps|], steps[..|steps| - 1])
    ensures Done(ws[..|steps|], steps[..|steps| - 1]) == Done(ws, steps)[..|steps| - 1]
  {
  }

  lemma RunExtends(before: seq<Private>, steps: seq<Step>, done: seq<bool>, next: Private)
    requires steps != [] && |done| == |steps|
    requires var n := |steps| - 1;
             PrivateRun(before, steps[..n], done[..n]) && PrivateStep(before[n], steps[n], done[n], next)
    ensures PrivateRun(before + [next], steps, done)
  {
    var n, es := |steps| - 1, before + [next];
    forall i | 0 <= i < |steps|
      ensures PrivateStep(es[i], steps[i], done[i], es[i + 1])
    {
      if i < n {
        assert PrivateStep(before[i], steps[..n][i], done[..n][i], before[i + 1]);
      }
    }
  }

  // ---- the start -----------------------------------------------------------

  ghost function ImagesIn(files: Files): map<Image, Content> {
    map p | p in files && p.Base? :: p.image := files[p]
  }

  ghost function NoSessions(files: Files): Private {
    Private(ImagesIn(files), map[], map[], map[])
  }

  lemma StartRelated(files: Files)
    ensures Related(World(Disk(files, map[]), map[]), NoSessions(files))
  {
    forall image
      ensures image in ImagesIn(files) <==> Base(image) in files
    {
      if Base(image) in files { assert Base(image).image == image; }
    }
  }

  // ---- what reads return ---------------------------------------------------

  ghost function ReadAtSeat(w: World, seat: Seat, track: nat, length: int): Access<seq<byte>>
    requires seat.sid in w.sessions
  {
    ReadTrack(w.sessions[seat.sid].drives, w.disk, seat.drive, track, length)
  }

  /** Reads of an open drive return the content of its view; they fail only once a fork failed to open its copy. */
  lemma ReadsAreOwn(w: World, e: Private, seat: Seat, track: nat, length: int)
    requires Related(w, e) && seat.sid in w.sessions
    ensures OpenAt(w, seat) <==> seat in e.views
    ensures OpenAt(w, seat) && 0 < length <= MAX_TRACK_LEN ==>
              ReadAtSeat(w, seat, track, length)
              == if DriveAt(w, seat).handle.Some? then Access.Done(ReadAt(ContentOf(e, e.views[seat]), track * length, length)) else IoError
    ensures !(OpenAt(w, seat) && 0 < length <= MAX_TRACK_LEN) ==> ReadAtSeat(w, seat, track, length) == Refused(NOT_READY)
  {
    assert SeatMatches(w, e, seat);
  }

  /** Every read that succeeds returns the content of the reader's view. */
  ghost predicate ReadsReturnViews(w: World, e: Private) {
    forall seat: Seat, track: nat, length: int ::
      seat.sid in w.sessions && ReadAtSeat(w, seat, track, length).Done? ==>
        seat in e.views && length > 0
        && ReadAtSeat(w, seat, track, length).value == ReadAt(ContentOf(e, e.views[seat]), track * length, length)
  }

  lemma RelatedReadsReturnViews(w: World, e: Private)
    requires Related(w, e)
    ensures ReadsReturnViews(w, e)
  {
    forall seat: Seat, track: nat, length: int | seat.sid in w.sessions && ReadAtSeat(w, seat, track, length).Done?
      ensures seat in e.views && length > 0
      ensures ReadAtSeat(w, seat, track, length).value == ReadAt(ContentOf(e, e.views[seat]), track * length, length)
    {
      ReadsAreOwn(w, e, seat, track, length);
    }
  }

  /** Starting with no sessions: every run is one of the simple system, and every read that succeeds in it returns the reader's view. */
  lemma RunReadsAreOwn(ws: seq<World>, steps: seq<Step>) returns (es: seq<Private>)
    requires Execution(ws, steps) && ws[0].sessions == map[] && ws[0].disk.rows == map[]
    ensures Simulated(ws, steps, es) && es[0] == NoSessions(ws[0].disk.files)
    ensures forall i :: 0 <= i < |ws| ==> ReadsReturnViews(ws[i], es[i])
  {
    StartRelated(ws[0].disk.files);
    assert ws[0] == World(Disk(ws[0].disk.files, map[]), map[]);
    es := RunSimulates(ws, steps, NoSessions(ws[0].disk.files));
    forall i | 0 <= i < |ws|
      ensures ReadsReturnViews(ws[i], es[i])
    {
      assert Related(ws[i], es[i]);
      RelatedReadsReturnViews(ws[i], es[i]);
    }
  }

  /** Only the master client changes an image: by a write of a session of its own, or otherwise. */
  ghost predicate ChangesImage(w: World, step: Step, image: Image)
    requires Allowed(w, step)
  {
    || (step.Master? && step.image == image)
    || (step.Write? && Written(w, step) && w.sessions[step.sid].cfg.writesMaster
        && w.sessions[step.sid].drives[step.drive].master == image)
  }

  /** From one time to another the bytes of an image change only by such steps. */
  lemma {:induction false} ImagesOnlyByMaster(ws: seq<World>, steps: seq<Step>, es: seq<Private>, image: Image, i: nat, j: nat)
    requires Execution(ws, steps) && Simulated(ws, steps, es) && i <= j < |ws|
    requires forall k :: i <= k < j ==> !ChangesImage(ws[k], steps[k], image)
    ensures Base(image) in ws[j].disk.files <==> Base(image) in ws[i].disk.files
    ensures Base(image) in ws[i].disk.files ==> ws[j].disk.files[Base(image)] == ws[i].disk.files[Base(image)]
    decreases j
  {
    if i < j {
      var k := j - 1;
      ImagesOnlyByMaster(ws, steps, es, image, i, k);
      assert PrivateStep(es[k], steps[k], Done(ws, steps)[k], es[k + 1]);
      assert Related(ws[k], es[k]) && Related(ws[j], es[j]);
      BaseKept(ws[k], es[k], steps[k], image);
    }
  }

  lemma BaseKept(w: World, e: Private, step: Step, image: Image)
    requires Related(w, e) && Allowed(w, step) && CanStep(e, step, WrittenBy(w, step)) && !ChangesImage(w, step, image)
    ensures var f := PrivateNext(e, step, WrittenBy(w, step));
            (image in f.bases <==> image in e.bases) && (image in e.bases ==> f.bases[image] == e.bases[image])
  {
    if WrittenBy(w, step) {
      assert SeatMatches(w, e, Seat(step.sid, step.drive));
    }
  }

  /**
   A write by a session of the master client lands in the image its drive is
   on: of all files and records that image alone changes, and the drive stays on it.
   */
  lemma MasterWritesImage(ws: seq<World>, steps: seq<Step>, es: seq<Private>, k: nat)
    requires Execution(ws, steps) && Simulated(ws, steps, es) && k < |steps| && steps[k].Write?
    requires var s := ws[k].sessions[steps[k].sid];
             s.cfg.writesMaster && WriteAsked(s.drives, steps[k].drive, steps[k].length, steps[k].buffer)
    ensures var step, seat := steps[k], Seat(steps[k].sid, steps[k].drive);
            var path := Base(DriveAt(ws[k], seat).master);
            && path in ws[k].disk.files
            && ws[k + 1].disk.files == ws[k].disk.files[path := WriteAt(ws[k].disk.files[path], step.track * step.length,
                                                                      Front(step.buffer[..step.length], step.io.stored))]
            && ws[k + 1].disk.rows == ws[k].disk.rows
            && OpenAt(ws[k + 1], seat) && DriveAt(ws[k + 1], seat).scratchPath.None?
            && DriveAt(ws[k + 1], seat).handle == Some(path) && DriveAt(ws[k + 1], seat).master == DriveAt(ws[k], seat).master
  {
    var step, s, seat := steps[k], ws[k].sessions[steps[k].sid], Seat(steps[k].sid, steps[k].drive);
    assert Related(ws[k], es[k]) && ws[k + 1] == Next(ws[k], step);
    assert SeatMatches(ws[k], es[k], seat);
    MasterWriteLands(s.cfg, s.drives, ws[k].disk, step.drive, step.track, step.length, step.buffer, step.unique, step.io);
  }

  /** A drive of the master client reads its image as it is, at all times. */
  lemma MasterReadsImage(ws: seq<World>, steps: seq<Step>, es: seq<Private>, i: nat, seat: Seat, track: nat, length: int)
    requires Execution(ws, steps) && Simulated(ws, steps, es) && i < |ws| && OpenAt(ws[i], seat) && 0 < length <= MAX_TRACK_LEN
    requires ws[i].sessions[seat.sid].cfg.writesMaster
    ensures var path := Base(DriveAt(ws[i], seat).master);
            && path in ws[i].disk.files
            && ReadAtSeat(ws[i], seat, track, length) == Access.Done(ReadAt(ws[i].disk.files[path], track * length, length))
  {
    assert Related(ws[i], es[i]);
    assert SeatMatches(ws[i], es[i], seat);
  }

  /** The image the drive follows, not yet forked, is changed by the step. */
  ghost predicate Reaches(w: World, step: Step, seat: Seat)
    requires Allowed(w, step)
  {
    OpenAt(w, seat) && DriveAt(w, seat).scratchPath.None? && ChangesImage(w, step, DriveAt(w, seat).master)
  }

  /** In the simple system it is plain that sessions leave each other's views alone. */
  lemma PrivateFrame(e: Private, step: Step, written: bool, seat: Seat)
    requires CanStep(e, step, written) && (step.Master? || step.sid != seat.sid)
    ensures var f := PrivateNext(e, step, written);
            (seat in f.views <==> seat in e.views) && (seat in e.views ==> f.views[seat] == e.views[seat])
  {
  }

  /** A step of one session changes no read of another, unless it is the master client's and changes the image the other follows. */
  lemma OthersStepsUnseen(w: World, e: Private, step: Step, seat: Seat, track: nat, length: int)
    requires Related(w, e) && Allowed(w, step) && (step.Master? || step.sid != seat.sid) && seat.sid in w.sessions
    requires !Reaches(w, step, seat)
    ensures seat.sid in Next(w, step).sessions
    ensures ReadAtSeat(Next(w, step), seat, track, length) == ReadAtSeat(w, seat, track, length)
  {
    StepSimulates(w, e, step);
    PrivateFrame(e, step, WrittenBy(w, step), seat);
    OthersDrivesKept(w, step, seat);
    if seat in e.views { SameContent(w, e, step, seat); }
    SameViewSameReads(w, e, Next(w, step), PrivateNext(e, step, WrittenBy(w, step)), seat, track, length);
  }

  lemma SameContent(w: World, e: Private, step: Step, seat: Seat)
    requires Related(w, e) && Allowed(w, step) && CanStep(e, step, WrittenBy(w, step)) && !Reaches(w, step, seat) && seat in e.views
    ensures ContentOf(PrivateNext(e, step, WrittenBy(w, step)), e.views[seat]) == ContentOf(e, e.views[seat])
  {
    assert SeatMatches(w, e, seat);
    if e.views[seat].own.None? { BaseKept(w, e, step, e.views[seat].image); }
  }

  /** Reads depend on the drive's records and the content of its view alone. */
  lemma SameViewSameReads(w: World, e: Private, v: World, f: Private, seat: Seat, track: nat, length: int)
    requires Related(w, e) && Related(v, f) && seat.sid in w.sessions && seat.sid in v.sessions
    requires v.sessions[seat.sid] == w.sessions[seat.sid]
    requires (seat in f.views <==> seat in e.views) && (seat in e.views ==> ContentOf(f, f.views[seat]) == ContentOf(e, e.views[seat]))
    ensures ReadAtSeat(v, seat, track, length) == ReadAtSeat(w, seat, track, length)
  {
    ReadsAreOwn(w, e, seat, track, length);
    ReadsAreOwn(v, f, seat, track, length);
  }

  lemma OthersDrivesKept(w: World, step: Step, seat: Seat)
    requires Allowed(w, step) && (step.Master? || step.sid != seat.sid) && seat.sid in w.sessions
    ensures seat.sid in Next(w, step).sessions && Next(w, step).sessions[seat.sid] == w.sessions[seat.sid]
  {
  }

  // ---- a view as its image and its own writes ------------------------------

  datatype Patch = Patch(off: nat, data: seq<byte>)

  /** Content with writes laid over it, the last on top. */
  function Overlaid(content: Content, patches: seq<Patch>): Content {
    if patches == [] then content
    else WriteAt(Overlaid(content, patches[..|patches| - 1]), patches[|patches| - 1].off, patches[|patches| - 1].data)
  }

  ghost predicate WritesTo(step: Step, written: bool, seat: Seat) {
    step.Write? && written && Seat(step.sid, step.drive) == seat && 0 <= step.length <= |step.buffer|
  }

  ghost function PatchOf(step: Step): Patch
    requires step.Write? && 0 <= step.length <= |step.buffer|
  {
    Patch(step.track * step.length, Front(step.buffer[..step.length], step.io.stored))
  }

  /** What writes to a drive stored in the steps i to j - 1. */
  ghost function OwnPatches(steps: seq<Step>, done: seq<bool>, seat: Seat, i: nat, j: nat): seq<Patch>
    requires i <= j <= |steps| == |done|
  {
    if i == j then []
    else
      OwnPatches(steps, done, seat, i, j - 1) + if WritesTo(steps[j - 1], done[j - 1], seat) then [PatchOf(steps[j - 1])] else []
  }

  /** The step neither opens nor closes the drive. */
  ghost predicate Undisturbed(e: Private, step: Step, seat: Seat) {
    match step
    case SyncOne(sid, drive, mount, _, _) =>
      Seat(sid, drive) == seat ==> mount.Some? && seat in e.views && e.views[seat].version == mount.value.version
    case Disconnect(sid, _) => sid != seat.sid
    case _ => true
  }

  /** The seat is a session's that writes to copies. */
  ghost predicate Copies(e: Private, seat: Seat) {
    seat.sid in e.cfgs && !e.cfgs[seat.sid].writesMaster
  }

  lemma ViewAfter(e: Private, step: Step, written: bool, seat: Seat)
    requires CanStep(e, step, written) && Undisturbed(e, step, seat) && seat in e.views && Copies(e, seat)
    ensures var f := PrivateNext(e, step, written);
            && seat in f.views && Copies(f, seat)
            && f.views[seat] == if WritesTo(step, written, seat)
                                then e.views[seat].(own := Some(WriteAt(ContentOf(e, e.views[seat]), PatchOf(step).off, PatchOf(step).data)))
                                else e.views[seat]
  {
  }

  lemma OverlaidNext(content: Content, patches: seq<Patch>, p: Patch, before: Content)
    requires before == Overlaid(content, patches)
    ensures Overlaid(content, patches + [p]) == WriteAt(before, p.off, p.data)
  {
    assert (patches + [p])[..|patches|] == patches;
  }

  lemma OwnPatchesNext(steps: seq<Step>, done: seq<bool>, seat: Seat, i: nat, k: nat)
    requires i <= k < |steps| == |done|
    ensures OwnPatches(steps, done, seat, i, k + 1)
            == if WritesTo(steps[k], done[k], seat)
               then OwnPatches(steps, done, seat, i, k) + [PatchOf(steps[k])]
               else OwnPatches(steps, done, seat, i, k)
  {
  }

  /**
   What a view holds after patches, as long as it is neither opened nor closed:
   its own copy overlaid, or nothing of its own yet, or the image as it was at
   its fork overlaid with the writes since.
   */
  predicate OwnAfter(before: Option<Content>, patches: seq<Patch>, atFork: Content, since: seq<Patch>, after: Option<Content>) {
    match before
    case Some(content) => after == Some(Overlaid(content, patches))
    case None => if patches == [] then after == None else since == patches && after == Some(Overlaid(atFork, since))
  }

  /** The view at j of a drive open since i, with the first own write, if there is one, at step fork. */
  ghost predicate ViewIs(es: seq<Private>, steps: seq<Step>, done: seq<bool>, seat: Seat, i: nat, j: nat, fork: nat)
    requires |es| == |steps| + 1 && |done| == |steps| && i <= j < |es| && seat in es[i].views
  {
    && Copies(es[j], seat)
    && i <= fork <= j && OwnPatches(steps, done, seat, i, fork) == []
    && (OwnPatches(steps, done, seat, i, j) == [] ==> fork == j)
    && seat in es[fork].views && es[fork].views[seat] == es[i].views[seat]
    && seat in es[j].views && es[j].views[seat].image == es[i].views[seat].image
    && OwnAfter(es[i].views[seat].own, OwnPatches(steps, done, seat, i, j), ContentOf(es[fork], es[fork].views[seat]),
                OwnPatches(steps, done, seat, fork, j), es[j].views[seat].own)
  }

  lemma {:induction false} ViewIsOverlay(es: seq<Private>, steps: seq<Step>, done: seq<bool>, seat: Seat, i: nat, j: nat)
    returns (fork: nat)
    requires PrivateRun(es, steps, done) && i <= j < |es| && seat in es[i].views && Copies(es[i], seat)
    requires forall k :: i <= k < j ==> Undisturbed(es[k], steps[k], seat)
    ensures ViewIs(es, steps, done, seat, i, j, fork)
    decreases j
  {
    if i == j {
      fork := i;
    } else {
      fork := ViewIsOverlay(es, steps, done, seat, i, j - 1);
      assert PrivateStep(es[j - 1], steps[j - 1], done[j - 1], es[j - 1 + 1]);
      fork := ViewNext(es, steps, done, seat, i, j - 1, fork);
    }
  }

  lemma ViewNext(es: seq<Private>, steps: seq<Step>, done: seq<bool>, seat: Seat, i: nat, k: nat, fork: nat) returns (next: nat)
    requires |es| == |steps| + 1 && |done| == |steps| && i <= k < |steps| && seat in es[i].views
    requires ViewIs(es, steps, done, seat, i, k, fork)
    requires PrivateStep(es[k], steps[k], done[k], es[k + 1]) && Undisturbed(es[k], steps[k], seat)
    ensures ViewIs(es, steps, done, seat, i, k + 1, next)
  {
    ViewAfter(es[k], steps[k], done[k], seat);
    var patches, since := OwnPatches(steps, done, seat, i, k), OwnPatches(steps, done, seat, fork, k);
    var before, after := es[k].views[seat], es[k + 1].views[seat];
    OwnPatchesNext(steps, done, seat, i, k);
    if WritesTo(steps[k], done[k], seat) {
      next := fork;
      OwnPatchesNext(steps, done, seat, fork, k);
      OwnAfterNext(es[i].views[seat].own, patches, ContentOf(es[fork], es[fork].views[seat]), since, before.own,
                   PatchOf(steps[k]), ContentOf(es[k], before), after.own);
    } else if patches == [] {
      next := k + 1;
    } else {
      next := fork;
      OwnPatchesNext(steps, done, seat, fork, k);
    }
  }

  lemma OwnAfterNext(before: Option<Content>, patches: seq<Patch>, atFork: Content, since: seq<Patch>, after: Option<Content>, p: Patch,
                     content: Content, next: Option<Content>)
    requires OwnAfter(before, patches, atFork, since, after)
    requires after.Some? ==> content == after.value
    requires before.None? && patches == [] ==> since == [] && content == atFork
    requires next == Some(WriteAt(content, p.off, p.data))
    ensures OwnAfter(before, patches + [p], atFork, since + [p], next)
  {
    if before.Some? {
      OverlaidNext(before.value, patches, p, content);
    } else {
      OverlaidNext(atFork, since, p, content);
    }
  }

  /**
   What a drive reads, from any time i on while it stays open: the image as it
   is now until the drive's first write, at step fork, and from then on the
   image as it was at that step with exactly the drive's own writes laid over
   it. A drive that was forked already at i has its writes laid over that copy.
   */
  lemma ReadsFollowThenKeep(ws: seq<World>, steps: seq<Step>, es: seq<Private>, seat: Seat, i: nat, j: nat, track: nat, length: int)
    returns (fork: nat, content: Content)
    requires Execution(ws, steps) && Simulated(ws, steps, es) && i <= j < |ws| && OpenAt(ws[i], seat)
    requires !ws[i].sessions[seat.sid].cfg.writesMaster
    requires forall k :: i <= k < j ==> Undisturbed(es[k], steps[k], seat)
    requires 0 < length <= MAX_TRACK_LEN
    ensures OpenAt(ws[j], seat)
    ensures DriveAt(ws[j], seat).handle.Some? ==> ReadAtSeat(ws[j], seat, track, length) == Access.Done(ReadAt(content, track * length, length))
    ensures var patches, sd := OwnPatches(steps, Done(ws, steps), seat, i, j), DriveAt(ws[i], seat);
            if sd.scratchPath.Some? then
              sd.scratchPath.value in ws[i].disk.files && content == Overlaid(ws[i].disk.files[sd.scratchPath.value], patches)
            else if patches == [] then
              Base(sd.master) in ws[j].disk.files && content == ws[j].disk.files[Base(sd.master)]
            else
              && i <= fork <= j && OwnPatches(steps, Done(ws, steps), seat, i, fork) == []
              && Base(sd.master) in ws[fork].disk.files
              && content == Overlaid(ws[fork].disk.files[Base(sd.master)], OwnPatches(steps, Done(ws, steps), seat, fork, j))
  {
    assert SeatMatches(ws[i], es[i], seat);
    fork := ViewIsOverlay(es, steps, Done(ws, steps), seat, i, j);
    assert SeatMatches(ws[j], es[j], seat);
    content := ContentOf(es[j], es[j].views[seat]);
    ReadsAreOwn(ws[j], es[j], seat, track, length);
    if DriveAt(ws[i], seat).scratchPath.None? && OwnPatches(steps, Done(ws, steps), seat, i, j) != [] {
      assert SeatMatches(ws[fork], es[fork], seat);
    }
  }

  // ---- kept copies ---------------------------------------------------------

  /**
   The step leaves a client's kept copy of a drive: it does not write to it,
   and if it syncs it, that closes the drive, finds it as it is, or opens it on
   an image of the same base name with the copy readable.
   */
  ghost predicate LeavesKept(e: Private, step: Step, written: bool, key: (string, nat)) {
    (step.Write? || step.SyncOne?) && step.sid in e.cfgs && IsKeyOf(e.cfgs[step.sid], step.drive, key) ==>
      match step
      case Write(_, _, _, _, _, _, _) => !written
      case SyncOne(sid, drive, mount, _, io) =>
        || mount.None?
        || (Seat(sid, drive) in e.views && e.views[Seat(sid, drive)].version == mount.value.version)
        || (key in e.saved && mount.value.image.name == e.saved[key].base && io.attaches(drive))
      case _ => true
  }

  lemma SavedFrame(e: Private, step: Step, written: bool, key: (string, nat))
    requires CanStep(e, step, written) && LeavesKept(e, step, written, key) && key in e.saved
    ensures var f := PrivateNext(e, step, written);
            key in f.saved && f.saved[key] == e.saved[key]
  {
  }

  lemma {:induction false} KeptCopyWaits(es: seq<Private>, steps: seq<Step>, done: seq<bool>, key: (string, nat), i: nat, j: nat)
    requires PrivateRun(es, steps, done) && i <= j < |es| && key in es[i].saved
    requires forall k :: i <= k < j ==> LeavesKept(es[k], steps[k], done[k], key)
    ensures key in es[j].saved && es[j].saved[key] == es[i].saved[key]
    decreases j
  {
    if i < j {
      KeptCopyWaits(es, steps, done, key, i, j - 1);
      var k := j - 1;
      assert PrivateStep(es[k], steps[k], done[k], es[k + 1]);
      SavedFrame(es[k], steps[k], done[k], key);
    }
  }

  /** A drive of a client with a kept copy of it is forked and reads that copy. */
  lemma KeptIsRead(w: World, e: Private, seat: Seat, key: (string, nat), track: nat, length: int)
    requires Related(w, e) && OpenAt(w, seat) && IsKeyOf(w.sessions[seat.sid].cfg, seat.drive, key) && 0 < length <= MAX_TRACK_LEN
    requires key in e.saved || DriveAt(w, seat).scratchPath.Some?
    ensures key in e.saved && e.saved[key].base == DriveAt(w, seat).master.name
    ensures DriveAt(w, seat).scratchPath.Some?
    ensures ReadAtSeat(w, seat, track, length) == Access.Done(ReadAt(e.saved[key].content, track * length, length))
  {
    assert SeatMatches(w, e, seat);
    assert RowMatches(w.disk, e, key);
    ReadsAreOwn(w, e, seat, track, length);
  }

  /**
   A client's forked drive outlives its sessions: as long as nothing writes to
   it and it is opened only on images of that base name, whenever it is open,
   in whatever session of that client, it is forked and reads as it did.
   */
  lemma KeptViewStays(ws: seq<World>, steps: seq<Step>, es: seq<Private>, i: nat, j: nat, a: Seat, b: Seat, track: nat, length: int)
    requires Execution(ws, steps) && Simulated(ws, steps, es) && i <= j < |ws| && 0 < length <= MAX_TRACK_LEN
    requires OpenAt(ws[i], a) && DriveAt(ws[i], a).scratchPath.Some? && KeepId(ws[i].sessions[a.sid].cfg).Some?
    requires var key := (KeepId(ws[i].sessions[a.sid].cfg).value, a.drive);
             && (forall k :: i <= k < j ==> LeavesKept(es[k], steps[k], Done(ws, steps)[k], key))
             && OpenAt(ws[j], b) && IsKeyOf(ws[j].sessions[b.sid].cfg, b.drive, key)
    ensures DriveAt(ws[j], b).scratchPath.Some? && DriveAt(ws[j], b).master.name == DriveAt(ws[i], a).master.name
    ensures ReadAtSeat(ws[j], b, track, length).Done?
    ensures ReadAtSeat(ws[j], b, track, length) == ReadAtSeat(ws[i], a, track, length)
  {
    var key := (KeepId(ws[i].sessions[a.sid].cfg).value, a.drive);
    KeptIsRead(ws[i], es[i], a, key, track, length);
    KeptCopyWaits(es, steps, Done(ws, steps), key, i, j);
    KeptIsRead(ws[j], es[j], b, key, track, length);
  }

  /** A sync that mounts an image of that base name, with the copy readable, opens the drive: forked, and reading as it did. */
  lemma KeptViewComesBack(ws: seq<World>, steps: seq<Step>, es: seq<Private>, i: nat, j: nat, a: Seat, b: Seat, track: nat, length: int)
    requires Execution(ws, steps) && Simulated(ws, steps, es) && i <= j < |steps| && 0 < length <= MAX_TRACK_LEN
    requires OpenAt(ws[i], a) && DriveAt(ws[i], a).scratchPath.Some? && KeepId(ws[i].sessions[a.sid].cfg).Some?
    requires var key := (KeepId(ws[i].sessions[a.sid].cfg).value, a.drive);
             && (forall k :: i <= k < j ==> LeavesKept(es[k], steps[k], Done(ws, steps)[k], key))
             && b.sid in ws[j].sessions && IsKeyOf(ws[j].sessions[b.sid].cfg, b.drive, key)
    requires steps[j].SyncOne? && steps[j].sid == b.sid && steps[j].drive == b.drive && steps[j].sync.attaches(b.drive)
    requires steps[j].mount.Some? && steps[j].mount.value.image.name == DriveAt(ws[i], a).master.name
    ensures OpenAt(ws[j + 1], b) && DriveAt(ws[j + 1], b).scratchPath.Some?
    ensures ReadAtSeat(ws[j + 1], b, track, length).Done?
    ensures ReadAtSeat(ws[j + 1], b, track, length) == ReadAtSeat(ws[i], a, track, length)
  {
    var key, done := (KeepId(ws[i].sessions[a.sid].cfg).value, a.drive), Done(ws, steps);
    KeptIsRead(ws[i], es[i], a, key, track, length);
    KeptCopyWaits(es, steps, done, key, i, j);
    assert Related(ws[j], es[j]) && Related(ws[j + 1], es[j + 1]);
    assert PrivateStep(es[j], steps[j], done[j], es[j + 1]);
    OpensKept(es[j], steps[j], done[j], key);
    assert SeatMatches(ws[j + 1], es[j + 1], b);
    assert ws[j + 1].sessions[b.sid].cfg == ws[j].sessions[b.sid].cfg;
    KeptIsRead(ws[j + 1], es[j + 1], b, key, track, length);
  }

  lemma OpensKept(e: Private, step: Step, written: bool, key: (string, nat))
    requires CanStep(e, step, written) && step.SyncOne? && IsKeyOf(e.cfgs[step.sid], step.drive, key) && key in e.saved
    requires step.mount.Some? && step.mount.value.image.name == e.saved[key].base && step.sync.attaches(step.drive)
    ensures var f := PrivateNext(e, step, written);
            Seat(step.sid, step.drive) in f.views && key in f.saved && f.saved[key] == e.saved[key]
  {
  }

  // ---- a run ---------------------------------------------------------------

  function AllWell(): SyncIo {
    SyncIo(_ => true, _ => true, _ => true)
  }

  /** A client connects, writes to a drive, disconnects and connects again. */
  function Reconnecting(cfg: Config, mount: Mount, track: nat, length: int, buffer: seq<byte>, now: int): seq<Step> {
    [Step.Connect(0, cfg),
     Step.SyncOne(0, 0, Some(mount), now, AllWell()),
     Step.Write(0, 0, track, length, buffer, 0, SessionIo(ForkWorks, |buffer|, false)),
     Step.Disconnect(0, _ => true),
     Step.Connect(1, cfg),
     Step.SyncOne(1, 0, Some(mount), now, AllWell())]
  }

  /** Such a run exists for every client whose copies are kept, every image and every write; the new session reads what the old one wrote. */
  lemma ReconnectedClientReadsItsWrite(files: Files, cfg: Config, mount: Mount, track: nat, length: int, buffer: seq<byte>, now: int)
    returns (ws: seq<World>)
    requires KeepId(cfg).Some? && Base(mount.image) in files && 0 < length <= MAX_TRACK_LEN && length <= |buffer|
    ensures Execution(ws, Reconnecting(cfg, mount, track, length, buffer, now))
    ensures ws[0] == World(Disk(files, map[]), map[])
    ensures ReadAtSeat(ws[2], Seat(0, 0), track, length) == Access.Done(ReadAt(files[Base(mount.image)], track * length, length))
    ensures 1 in ws[6].sessions && ReadAtSeat(ws[6], Seat(1, 0), track, length) == Access.Done(buffer[..length])
  {
    var steps := Reconnecting(cfg, mount, track, length, buffer, now);
    var w0, w1, w2, w3 := FirstSession(files, cfg, mount, track, length, buffer, now);
    var w4, w5, w6 := SecondSession(w3, cfg, mount, track, length, buffer, now);
    ws := [w0, w1, w2, w3, w4, w5, w6];
    forall i | 0 <= i < |steps|
      ensures Allowed(ws[i], steps[i]) && ws[i + 1] == Next(ws[i], steps[i])
    {
      assert i == 0 || i == 1 || i == 2 || i == 3 || i == 4 || i == 5;
    }
    var es := RunReadsAreOwn(ws, steps);
    ReconnectedReads(ws, steps, es, 3, Seat(0, 0), Seat(1, 0), track, length);
  }

  /** The client disconnects, connects again and syncs. */
  lemma SecondSession(w3: World, cfg: Config, mount: Mount, track: nat, length: int, buffer: seq<byte>, now: int)
    returns (w4: World, w5: World, w6: World)
    requires w3.sessions.Keys == {0} && w3.sessions[0].cfg == cfg && !cfg.writesMaster
    ensures var steps := Reconnecting(cfg, mount, track, length, buffer, now);
            && Allowed(w3, steps[3]) && w4 == Next(w3, steps[3])
            && Allowed(w4, steps[4]) && w5 == Next(w4, steps[4])
            && Allowed(w5, steps[5]) && w6 == Next(w5, steps[5])
    ensures w5.sessions.Keys == {1} && w5.sessions[1].cfg == cfg && 1 in w6.sessions
  {
    var steps := Reconnecting(cfg, mount, track, length, buffer, now);
    w4 := Next(w3, steps[3]);
    assert w4.sessions == map[];
    w5 := Next(w4, steps[4]);
    w6 := Next(w5, steps[5]);
  }

  lemma ConnectionsLeaveKept(e: Private, step: Step, written: bool, key: (string, nat))
    requires step.Connect? || step.Disconnect?
    ensures LeavesKept(e, step, written, key)
  {
  }

  /** A disconnect, a connect of the same client and a sync to an image of the same base name bring the drive back. */
  lemma ReconnectedReads(ws: seq<World>, steps: seq<Step>, es: seq<Private>, i: nat, a: Seat, b: Seat, track: nat, length: int)
    requires Execution(ws, steps) && Simulated(ws, steps, es) && i + 2 < |steps| && 0 < length <= MAX_TRACK_LEN
    requires steps[i].Disconnect? && steps[i + 1].Connect?
    requires steps[i + 2].SyncOne? && steps[i + 2].sid == b.sid && steps[i + 2].drive == b.drive && steps[i + 2].sync.attaches(b.drive)
    requires OpenAt(ws[i], a) && DriveAt(ws[i], a).scratchPath.Some? && KeepId(ws[i].sessions[a.sid].cfg).Some? && a.drive == b.drive
    requires steps[i + 2].mount.Some? && steps[i + 2].mount.value.image == DriveAt(ws[i], a).master
    requires b.sid in ws[i + 2].sessions && ws[i + 2].sessions[b.sid].cfg == ws[i].sessions[a.sid].cfg
    ensures b.sid in ws[i + 3].sessions && ReadAtSeat(ws[i + 3], b, track, length) == ReadAtSeat(ws[i], a, track, length)
  {
    var key, done := (KeepId(ws[i].sessions[a.sid].cfg).value, a.drive), Done(ws, steps);
    forall k: nat | i <= k < i + 2
      ensures LeavesKept(es[k], steps[k], done[k], key)
    {
      if k == i {
        ConnectionsLeaveKept(es[i], steps[i], done[i], key);
      } else {
        ConnectionsLeaveKept(es[i + 1], steps[i + 1], done[i + 1], key);
      }
    }
    KeptViewComesBack(ws, steps, es, i, i + 2, a, b, track, length);
  }

  /** The first session, up to its write: its drive is forked and reads what it wrote. */
  lemma FirstSession(files: Files, cfg: Config, mount: Mount, track: nat, length: int, buffer: seq<byte>, now: int)
    returns (w0: World, w1: World, w2: World, w3: World)
    requires KeepId(cfg).Some? && Base(mount.image) in files && 0 < length <= MAX_TRACK_LEN && length <= |buffer|
    ensures var steps := Reconnecting(cfg, mount, track, length, buffer, now);
            && w0 == World(Disk(files, map[]), map[])
            && Allowed(w0, steps[0]) && w1 == Next(w0, steps[0])
            && Allowed(w1, steps[1]) && w2 == Next(w1, steps[1])
            && Allowed(w2, steps[2]) && w3 == Next(w2, steps[2])
    ensures 0 in w2.sessions
    ensures ReadAtSeat(w2, Seat(0, 0), track, length) == Access.Done(ReadAt(files[Base(mount.image)], track * length, length))
    ensures w3.sessions.Keys == {0} && w3.sessions[0].cfg == cfg
    ensures OpenAt(w3, Seat(0, 0)) && DriveAt(w3, Seat(0, 0)).scratchPath.Some? && DriveAt(w3, Seat(0, 0)).master == mount.image
    ensures ReadAtSeat(w3, Seat(0, 0), track, length) == Access.Done(buffer[..length])
  {
    var steps := Reconnecting(cfg, mount, track, length, buffer, now);
    assert Front(buffer[..length], |buffer|) == buffer[..length];
    w0 := World(Disk(files, map[]), map[]);
    w1 := Next(w0, steps[0]);
    w2 := Next(w1, steps[1]);
    w3 := Next(w2, steps[2]);
    ReadAfterWrite(files[Base(mount.image)], track * length, buffer[..length], 0, 0);
  }
}
