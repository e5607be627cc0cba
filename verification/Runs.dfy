/** Whole runs: from a formatted disk, any sequence of writes and deletes is a map from names to contents. */
module Runs {
  import opened Bytes
  import opened DiskGeometry
  import opened SectorFraming
  import opened BlockStore
  import opened Directory
  import opened FileView
  import opened FileLayout
  import opened FileSize
  import opened Allocation
  import opened DirectoryPlan
  import opened FileOps
  import opened Names
  import opened Lookup
  import opened Cpm

  // ---- the formatted disk --------------------------------------------------

  lemma FormattedBlocks(p: DiskParams, img: Image, b: nat, j: nat)
    requires ValidParams(p) && Formatted(p, img) && b < TotalBlocks(p) && j < p.blocksize
    ensures BlockView(p, SectorView(p, img))[b][j] == FORMAT_FILL
  {
    BlockFits(p, b);
    var n := b * SectorsPerBlock(p) + j / 128;
    FormattedSectors(p, img, n);
    BlockInView(p, SectorView(p, img), b);
  }

  lemma FormattedSlotsDeleted(p: DiskParams, img: Image, k: nat)
    requires ValidParams(p) && Formatted(p, img) && k < p.maxdir
    ensures DirView(p, BlockView(p, SectorView(p, img)))[k].status == DELETED
  {
    var s := BlockView(p, SectorView(p, img));
    SlotInDirectory(p, k);
    FormattedBlocks(p, img, SlotBlock(p, k), SlotOffset(p, k) * 32);
    assert EntryBytes(p, s, k)[0] == s[SlotBlock(p, k)][SlotOffset(p, k) * 32];
    EntryInView(p, s, k);
  }

  /** A formatted disk is a sound, empty volume. */
  lemma FormattedIsEmpty(p: DiskParams, img: Image)
    requires ValidParams(p) && Formatted(p, img)
    ensures var s := BlockView(p, SectorView(p, img)); ReadableStore(p, s) && Volume(p, s) == map[]
  {
    var dir := DirView(p, BlockView(p, SectorView(p, img)));
    forall k: nat | k < p.maxdir
      ensures !Live(dir[k])
    {
      FormattedSlotsDeleted(p, img, k);
    }
    assert LiveKeys(dir) == {};
  }

  // ---- operations ----------------------------------------------------------

  datatype Op =
    | Write(filename: seq<byte>, ext: seq<byte>, data: seq<byte>, user: byte)
    | Delete(filename: seq<byte>, ext: seq<byte>, user: byte)

  /** Names in printable ASCII. */
  predicate ValidOp(op: Op) {
    Printable(op.filename) && Printable(op.ext)
  }

  function KeyFor(op: Op): Key {
    match op
    case Write(f, e, _, user) => WriteKey(f, e, user)
    case Delete(f, e, user) => FileKey(f, e, user)
  }

  ghost function StepOp(p: DiskParams, s: Blocks, op: Op): (r: (Outcome, Blocks))
    requires ValidParams(p) && IsStore(p, s)
    ensures IsStore(p, r.1)
  {
    match op
    case Write(_, _, data, _) => WriteOp(p, s, KeyFor(op), data)
    case Delete(_, _, _) => DeleteOp(p, s, KeyFor(op))
  }

  ghost function RunOps(p: DiskParams, s: Blocks, ops: seq<Op>): (r: (seq<Outcome>, Blocks))
    requires ValidParams(p) && IsStore(p, s)
    ensures IsStore(p, r.1) && |r.0| == |ops|
  {
    if ops == [] then ([], s)
    else
      var (outcomes, before) := RunOps(p, s, ops[..|ops| - 1]);
      var (outcome, after) := StepOp(p, before, ops[|ops| - 1]);
      (outcomes + [outcome], after)
  }

  // ---- the abstract filesystem ---------------------------------------------

  /**
   Names to contents. A successful write for one of the 32 user areas stores
   what the format holds of its data; anything else removes the name.
   */
  function AbstractStep(p: DiskParams, m: map<Key, seq<byte>>, op: Op, outcome: Outcome): map<Key, seq<byte>>
    requires ValidParams(p)
  {
    match op
    case Write(_, _, data, _) =>
      if outcome == Done && op.user <= 0x1F then m[KeyFor(op) := StoredContent(p, data)] else m - {KeyFor(op)}
    case Delete(_, _, _) => m - {KeyFor(op)}
  }

  function AbstractRun(p: DiskParams, m: map<Key, seq<byte>>, ops: seq<Op>, outcomes: seq<Outcome>): map<Key, seq<byte>>
    requires ValidParams(p) && |outcomes| == |ops|
  {
    if ops == [] then m
    else AbstractStep(p, AbstractRun(p, m, ops[..|ops| - 1], outcomes[..|ops| - 1]), ops[|ops| - 1], outcomes[|ops| - 1])
  }

  /** The same with every file stored whole: its data padded to records. */
  function WholeStep(m: map<Key, seq<byte>>, op: Op, outcome: Outcome): map<Key, seq<byte>> {
    match op
    case Write(_, _, data, _) => if outcome == Done && op.user <= 0x1F then m[KeyFor(op) := Padded(data)] else m - {KeyFor(op)}
    case Delete(_, _, _) => m - {KeyFor(op)}
  }

  function WholeRun(m: map<Key, seq<byte>>, ops: seq<Op>, outcomes: seq<Outcome>): map<Key, seq<byte>>
    requires |outcomes| == |ops|
  {
    if ops == [] then m
    else WholeStep(WholeRun(m, ops[..|ops| - 1], outcomes[..|ops| - 1]), ops[|ops| - 1], outcomes[|ops| - 1])
  }

  /** The volume is the map: same names, same contents, sizes equal to the contents' lengths. */
  ghost predicate Refines(files: map<Key, FileRec>, m: map<Key, seq<byte>>) {
    && files.Keys == m.Keys
    && forall key :: key in m ==> files[key].content == m[key] && files[key].size == |m[key]|
  }

  lemma WriteKeyShaped(filename: seq<byte>, ext: seq<byte>, user: byte)
    requires Printable(filename) && Printable(ext)
    ensures var key := WriteKey(filename, ext, user);
            key.user == user && ShapedKey(key) && Printable(key.filename) && Printable(key.extension)
  {
    PrintableWriteName(filename, ext);
    PaddedPrintable(WriteName(filename, ext).0, 8);
    PaddedPrintable(WriteName(filename, ext).1, 3);
  }

  lemma PaddedPrintable(name: seq<byte>, n: nat)
    requires Printable(name)
    ensures Printable(PadEnd(name, n)) && SevenBit(PadEnd(name, n))
  {
  }

  lemma ErasePrintable(dir: Dir, key: Key)
    requires PrintableDir(dir)
    ensures PrintableDir(EraseFile(dir, key))
  {
  }

  lemma PlacePrintable(dir: Dir, es: seq<DirEntry>, key: Key)
    requires PrintableDir(dir) && AllBear(es, key) && Printable(key.filename) && Printable(key.extension)
    requires Place(dir, es).Some?
    ensures PrintableDir(Place(dir, es).value)
  {
    forall k | 0 <= k < |dir| && Live(Place(dir, es).value[k])
      ensures Printable(Place(dir, es).value[k].filename) && Printable(Place(dir, es).value[k].extension)
    {
      PlaceChanges(dir, es, k);
    }
  }

  lemma WritePrintable(p: DiskParams, s: Blocks, key: Key, data: seq<byte>)
    requires Cleared(p, s, key) && PrintableDir(DirView(p, s))
    requires Printable(key.filename) && Printable(key.extension)
    ensures PrintableDir(DirView(p, WriteOp(p, s, key, data).1))
  {
    var dir := DirView(p, s);
    assert DeleteOp(p, s, key).1 == s;
    var alloc := AllocationFor(p, dir, data);
    if WriteOp(p, s, key, data).0 == Done {
      var a, after := WriteDirectory(p, s, key, data);
      EntriesBearKey(p, key, data, alloc);
      PlacePrintable(dir, FileEntries(p, key, data, alloc), key);
    } else if |alloc| == BlocksNeeded(p, data) {
      FilledBlocks(p, s, data, alloc);
    }
  }

  /** Under any status byte that is no user area the files' names stay as they are. */
  lemma HiddenPrintable(p: DiskParams, s: Blocks, key: Key, data: seq<byte>)
    requires ReadableStore(p, s) && ShapedKey(key) && key.user > 0x1F
    ensures PrintableDir(DirView(p, WriteRest(p, s, key, data).1))
  {
    var dir := DirView(p, s);
    var alloc := AllocationFor(p, dir, data);
    if |alloc| == BlocksNeeded(p, data) {
      var filled := PutBlocks(s, alloc, Chunks(p, data, |alloc|));
      FilledBlocks(p, s, data, alloc);
      var placed := Place(dir, FileEntries(p, key, data, alloc));
      if placed.Some? {
        HiddenPlaced(p, dir, key, data, alloc, placed.value);
        DirRoundTrip(p, filled, placed.value);
        HiddenNames(p, dir, key, data, alloc, placed.value);
      }
    }
  }

  lemma HiddenNames(p: DiskParams, dir: Dir, key: Key, data: seq<byte>, alloc: seq<word>, after: Dir)
    requires ValidParams(p) && PrintableDir(dir) && key.user > 0x1F && |alloc| == BlocksNeeded(p, data)
    requires Place(dir, FileEntries(p, key, data, alloc)) == Some(after)
    ensures PrintableDir(after)
  {
    EntriesBearKey(p, key, data, alloc);
    forall k | 0 <= k < |dir| && Live(after[k])
      ensures Printable(after[k].filename) && Printable(after[k].extension)
    {
      PlaceChanges(dir, FileEntries(p, key, data, alloc), k);
    }
  }

  lemma WriteReadable(p: DiskParams, s: Blocks, key: Key, data: seq<byte>)
    requires ReadableStore(p, s) && ShapedKey(key) && Printable(key.filename) && Printable(key.extension)
    requires key !in Volume(p, s)
    ensures ReadableStore(p, WriteRest(p, s, key, data).1)
  {
    if key.user <= 0x1F {
      NamedIsLive(DirView(p, s), key);
      assert WriteOp(p, s, key, data) == WriteRest(p, s, key, data);
      WriteIntoCleared(p, s, key, data);
      WritePrintable(p, s, key, data);
    } else {
      HiddenWrite(p, s, key, data);
      HiddenPrintable(p, s, key, data);
    }
  }

  lemma StepReadable(p: DiskParams, s: Blocks, op: Op)
    requires ReadableStore(p, s) && ValidOp(op)
    ensures ReadableStore(p, StepOp(p, s, op).1)
  {
    var key := KeyFor(op);
    DeleteRemoves(p, s, key);
    DeleteDirectory(p, s, key);
    ErasePrintable(DirView(p, s), key);
    if op.Write? {
      WriteKeyShaped(op.filename, op.ext, op.user);
      WriteReadable(p, DeleteOp(p, s, key).1, key, op.data);
    }
  }

  lemma StoredIsWhole(p: DiskParams, data: seq<byte>)
    requires ValidParams(p)
    ensures |StoredContent(p, data)| == StoredSize(p, data)
    ensures LastRecords(p, data) <= 128 ==> StoredContent(p, data) == Padded(data)
  {
    StoredSizeExact(p, data);
  }

  lemma RefinesAfterRemove(files: map<Key, FileRec>, m: map<Key, seq<byte>>, key: Key)
    requires Refines(files, m)
    ensures Refines(files - {key}, m - {key})
  {
  }

  lemma RefinesAfterUpdate(files: map<Key, FileRec>, m: map<Key, seq<byte>>, key: Key, file: FileRec)
    requires Refines(files, m) && file.size == |file.content|
    ensures Refines(files[key := file], m[key := file.content])
  {
  }

  /** One operation on the disk is the same operation on the map. */
  lemma StepRefines(p: DiskParams, s: Blocks, m: map<Key, seq<byte>>, op: Op)
    requires ReadableStore(p, s) && ValidOp(op) && Refines(Volume(p, s), m)
    ensures ReadableStore(p, StepOp(p, s, op).1)
    ensures Refines(Volume(p, StepOp(p, s, op).1), AbstractStep(p, m, op, StepOp(p, s, op).0))
  {
    StepReadable(p, s, op);
    var key := KeyFor(op);
    RefinesAfterRemove(Volume(p, s), m, key);
    if op.Write? {
      WriteKeyShaped(op.filename, op.ext, op.user);
      WriteReplaces(p, s, key, op.data);
      StoredIsWhole(p, op.data);
      RefinesAfterUpdate(Volume(p, s), m, key, StoredFile(p, op.data));
    } else {
      DeleteRemoves(p, s, key);
    }
  }

  /**
   Whole runs, on every format: whatever the outcomes of the single
   operations, the volume is the abstract map.
   */
  lemma {:induction false} RunRefines(p: DiskParams, s: Blocks, m: map<Key, seq<byte>>, ops: seq<Op>)
    requires ReadableStore(p, s) && Refines(Volume(p, s), m)
    requires forall i :: 0 <= i < |ops| ==> ValidOp(ops[i])
    ensures ReadableStore(p, RunOps(p, s, ops).1)
    ensures Refines(Volume(p, RunOps(p, s, ops).1), AbstractRun(p, m, ops, RunOps(p, s, ops).0))
  {
    if ops != [] {
      var front := ops[..|ops| - 1];
      RunRefines(p, s, m, front);
      var (outcomes, before) := RunOps(p, s, front);
      StepRefines(p, before, AbstractRun(p, m, front, outcomes), ops[|ops| - 1]);
      assert RunOps(p, s, ops).0[..|front|] == outcomes;
    }
  }

  /** That map holds whole files when every file written ends in an entry whose records fit one logical extent. */
  lemma {:induction false} RunIsWhole(p: DiskParams, m: map<Key, seq<byte>>, ops: seq<Op>, outcomes: seq<Outcome>)
    requires ValidParams(p) && |outcomes| == |ops|
    requires forall i :: 0 <= i < |ops| && ops[i].Write? ==> LastRecords(p, ops[i].data) <= 128
    ensures AbstractRun(p, m, ops, outcomes) == WholeRun(m, ops, outcomes)
  {
    if ops != [] {
      var last := |ops| - 1;
      RunIsWhole(p, m, ops[..last], outcomes[..last]);
      if ops[last].Write? { StoredIsWhole(p, ops[last].data); }
    }
  }

  /** From a formatted disk of any format. */
  lemma FormattedRunRefines(p: DiskParams, img: Image, ops: seq<Op>)
    requires ValidParams(p) && Formatted(p, img)
    requires forall i :: 0 <= i < |ops| ==> ValidOp(ops[i])
    ensures var s := BlockView(p, SectorView(p, img));
            var (outcomes, t) := RunOps(p, s, ops);
            ReadableStore(p, t) && Refines(Volume(p, t), AbstractRun(p, map[], ops, outcomes))
  {
    FormattedIsEmpty(p, img);
    RunRefines(p, BlockView(p, SectorView(p, img)), map[], ops);
  }

  /** On formats with one logical extent per entry all files are stored whole. */
  lemma FloppyRunRefines(p: DiskParams, img: Image, ops: seq<Op>)
    requires ValidParams(p) && ExtentsPerEntry(p) == 1 && Formatted(p, img)
    requires forall i :: 0 <= i < |ops| ==> ValidOp(ops[i])
    ensures var s := BlockView(p, SectorView(p, img));
            var (outcomes, t) := RunOps(p, s, ops);
            ReadableStore(p, t) && Refines(Volume(p, t), WholeRun(map[], ops, outcomes))
  {
    FormattedRunRefines(p, img, ops);
    forall i | 0 <= i < |ops| && ops[i].Write?
      ensures LastRecords(p, ops[i].data) <= 128
    {
      SingleExtentExact(p, ops[i].data);
    }
    RunIsWhole(p, map[], ops, RunOps(p, BlockView(p, SectorView(p, img)), ops).0);
  }

  // ---- room on an empty disk -----------------------------------------------

  lemma {:induction false} CountAllDeleted(dir: Dir)
    requires forall k :: 0 <= k < |dir| ==> dir[k].status == DELETED
    ensures CountDeleted(dir) == |dir|
  {
    if dir != [] { CountAllDeleted(dir[..|dir| - 1]); }
  }

  lemma {:induction false} CountFreeAbove(bits: seq<bool>, n: nat)
    requires n <= |bits| && forall b :: 0 <= b < |bits| ==> (bits[b] <==> b < n)
    ensures CountFree(bits) == |bits| - n
  {
    if |bits| > n {
      CountFreeAbove(bits[..|bits| - 1], n);
    } else {
      AllTaken(bits);
    }
  }

  lemma {:induction false} AllTaken(bits: seq<bool>)
    requires forall b :: 0 <= b < |bits| ==> bits[b]
    ensures CountFree(bits) == 0
  {
    if bits != [] { AllTaken(bits[..|bits| - 1]); }
  }

  /** Every data block and every directory slot of a formatted disk is free. */
  lemma FormattedRoom(p: DiskParams, img: Image)
    requires ValidParams(p) && Formatted(p, img)
    ensures var dir := DirView(p, BlockView(p, SectorView(p, img)));
            CountFree(Bitmap(p, dir)) == TotalBlocks(p) - DirBlocks(p) && CountDeleted(dir) == p.maxdir
  {
    var dir := DirView(p, BlockView(p, SectorView(p, img)));
    forall k: nat | k < p.maxdir
      ensures dir[k].status == DELETED
    {
      FormattedSlotsDeleted(p, img, k);
    }
    CountAllDeleted(dir);
    NothingReserved(p, dir);
    CountFreeAbove(Bitmap(p, dir), DirBlocks(p));
  }

  lemma NothingReserved(p: DiskParams, dir: Dir)
    requires ValidParams(p) && forall k :: 0 <= k < |dir| ==> dir[k].status == DELETED
    ensures forall b: nat :: b < TotalBlocks(p) ==> (Bitmap(p, dir)[b] <==> b < DirBlocks(p))
  {
  }

  lemma ErasingNothing(dir: Dir, key: Key)
    requires forall k :: 0 <= k < |dir| ==> dir[k].status == DELETED
    ensures EraseFile(dir, key) == dir
  {
  }

  /** A write to a formatted disk succeeds exactly when the file fits the data blocks and the directory. */
  lemma FormattedWriteSucceeds(p: DiskParams, img: Image, key: Key, data: seq<byte>)
    requires ValidParams(p) && Formatted(p, img) && ValidKey(key)
    ensures WriteOp(p, BlockView(p, SectorView(p, img)), key, data).0 == Done <==>
              && BlocksNeeded(p, data) <= TotalBlocks(p) - DirBlocks(p)
              && (if data == [] then 1 else EntriesNeeded(p, data)) <= p.maxdir
  {
    var s := BlockView(p, SectorView(p, img));
    FormattedIsEmpty(p, img);
    forall k: nat | k < p.maxdir
      ensures DirView(p, s)[k].status == DELETED
    {
      FormattedSlotsDeleted(p, img, k);
    }
    ErasingNothing(DirView(p, s), key);
    FormattedRoom(p, img);
    WriteSucceeds(p, s, key, data);
  }

  /** A file that fits a formatted disk is written and then shows the stored part of its records. */
  lemma FormattedWriteStores(p: DiskParams, img: Image, key: Key, data: seq<byte>)
    requires ValidParams(p) && Formatted(p, img) && ValidKey(key)
    requires BlocksNeeded(p, data) <= TotalBlocks(p) - DirBlocks(p) && EntriesNeeded(p, data) <= p.maxdir
    ensures var (outcome, after) := WriteOp(p, BlockView(p, SectorView(p, img)), key, data);
            && outcome == Done && SoundStore(p, after) && key in Volume(p, after)
            && Volume(p, after)[key] == StoredFile(p, data)
  {
    FormattedWriteSucceeds(p, img, key, data);
    FormattedIsEmpty(p, img);
    WriteReplaces(p, BlockView(p, SectorView(p, img)), key, data);
  }

  /**
   On a formatted disk of the 4K-block format, writing any file of 129 records
   succeeds, and the file then reads, and is listed, as its first record alone.
   */
  lemma FiveBlockFileLosesRecords(p: DiskParams, img: Image, key: Key, data: seq<byte>)
    requires p == PARAMS_8MB && Formatted(p, img) && ValidKey(key) && |data| == 129 * 128
    ensures ValidParams(p)
    ensures var (outcome, after) := WriteOp(p, BlockView(p, SectorView(p, img)), key, data);
            && outcome == Done && SoundStore(p, after) && key in Volume(p, after)
            && Volume(p, after)[key].content == data[..128] && Volume(p, after)[key].size == 128
  {
    EightMegabyteIsValid();
    FiveBlockFileSize(data);
    FormattedWriteStores(p, img, key, data);
    FirstRecordAlone(p, data);
  }

  lemma FirstRecordAlone(p: DiskParams, data: seq<byte>)
    requires ValidParams(p) && StoredSize(p, data) == 128 && |data| >= 128
    ensures StoredFile(p, data).content == data[..128] && StoredFile(p, data).size == 128
  {
    StoredSizeExact(p, data);
    assert Padded(data)[..128] == data[..128];
  }

  // ---- runs of the class ---------------------------------------------------

  /** Any sequence of calls on the class is the run of the model, outcome by outcome, and keeps the framing and the boot tracks. */
  method Execute(fs: CpmFilesystem, ops: seq<Op>) returns (results: seq<Result<(), Error>>)
    requires fs.Valid() && forall i :: 0 <= i < |ops| ==> ValidOp(ops[i])
    modifies fs.imageData
    ensures var (outcomes, after) := RunOps(fs.params, old(fs.Store()), ops);
            fs.Store() == after && results == Reported(outcomes)
    ensures Preserved(fs.params, old(fs.imageData[..]), fs.imageData[..])
  {
    results := [];
    for i := 0 to |ops|
      invariant fs.Store() == RunOps(fs.params, old(fs.Store()), ops[..i]).1
      invariant results == Reported(RunOps(fs.params, old(fs.Store()), ops[..i]).0)
      invariant Preserved(fs.params, old(fs.imageData[..]), fs.imageData[..])
    {
      ghost var img := fs.imageData[..];
      RunOpsNext(fs.params, old(fs.Store()), ops, i);
      ghost var soFar := RunOps(fs.params, old(fs.Store()), ops[..i]);
      ReportedNext(soFar.0, StepOp(fs.params, soFar.1, ops[i]).0);
      var r := Call(fs, ops[i]);
      results := results + [r];
      PreservedTrans(fs.params, old(fs.imageData[..]), img, fs.imageData[..]);
    }
    assert ops[..|ops|] == ops;
  }

  lemma RunOpsNext(p: DiskParams, s: Blocks, ops: seq<Op>, i: nat)
    requires ValidParams(p) && IsStore(p, s) && i < |ops|
    ensures RunOps(p, s, ops[..i + 1]).0 == RunOps(p, s, ops[..i]).0 + [StepOp(p, RunOps(p, s, ops[..i]).1, ops[i]).0]
    ensures RunOps(p, s, ops[..i + 1]).1 == StepOp(p, RunOps(p, s, ops[..i]).1, ops[i]).1
  {
    assert ops[..i + 1][..i] == ops[..i];
  }

  lemma ReportedNext(outcomes: seq<Outcome>, outcome: Outcome)
    ensures Reported(outcomes + [outcome]) == Reported(outcomes) + [ResultOf(outcome)]
  {
  }

  function Reported(outcomes: seq<Outcome>): (r: seq<Result<(), Error>>)
    ensures |r| == |outcomes|
  {
    seq(|outcomes|, i requires 0 <= i < |outcomes| => ResultOf(outcomes[i]))
  }

  method Call(fs: CpmFilesystem, op: Op) returns (r: Result<(), Error>)
    requires fs.Valid() && ValidOp(op)
    modifies fs.imageData
    ensures var (outcome, after) := StepOp(fs.params, old(fs.Store()), op);
            fs.Store() == after && r == ResultOf(outcome)
    ensures Preserved(fs.params, old(fs.imageData[..]), fs.imageData[..])
  {
    match op {
      case Write(filename, ext, data, user) =>
        r := fs.WriteFile(filename, ext, data, user);
      case Delete(filename, ext, user) =>
        r := fs.DeleteFile(filename, ext, user);
    }
  }

  // ---- from formatting to reading ------------------------------------------

  /** The listing shows exactly the files of the map, each once, with its length. */
  ghost predicate Lists(files: seq<CpmFile>, keys: seq<Key>, m: map<Key, seq<byte>>) {
    && |files| == |keys|
    && (forall i, j :: 0 <= i < j < |keys| ==> keys[i] != keys[j])
    && (forall key :: key in keys <==> key in m)
    && forall i :: 0 <= i < |files| ==> Describes(files[i], keys[i], m)
  }

  /** The item shows this file of the map. */
  ghost predicate Describes(file: CpmFile, key: Key, m: map<Key, seq<byte>>) {
    && file.user == key.user && file.filename == TrimEnd(key.filename) && file.extension == TrimEnd(key.extension)
    && key in m && file.size == |m[key]|
  }

  /** What a look at the disk shows: the listing, and the file of one name. */
  ghost predicate Shows(m: map<Key, seq<byte>>, key: Key, data: Result<seq<byte>, Error>, files: seq<CpmFile>) {
    && (exists keys :: Lists(files, keys, m))
    && data == if key in m then Ok(m[key]) else Err(FileNotFound)
  }

  lemma KeysListed(dir: Dir, keys: seq<Key>, m: map<Key, seq<byte>>)
    requires forall key :: key in keys <==> key in LiveKeys(dir) - {}
    requires LiveKeys(dir) == m.Keys
    ensures forall key :: key in keys <==> key in m
  {
    assert LiveKeys(dir) - {} == m.Keys;
  }

  lemma ListingShows(p: DiskParams, s: Blocks, files: seq<CpmFile>, keys: seq<Key>, m: map<Key, seq<byte>>)
    requires SoundStore(p, s) && ListedSo(p, DirView(p, s), files, keys, {}) && Refines(Volume(p, s), m)
    ensures Lists(files, keys, m)
  {
    KeysListed(DirView(p, s), keys, m);
    forall i | 0 <= i < |files|
      ensures Describes(files[i], keys[i], m)
    {
      ItemDescribes(p, s, files, keys, m, i);
    }
  }

  lemma ItemDescribes(p: DiskParams, s: Blocks, files: seq<CpmFile>, keys: seq<Key>, m: map<Key, seq<byte>>, i: nat)
    requires SoundStore(p, s) && ListedSo(p, DirView(p, s), files, keys, {}) && Refines(Volume(p, s), m) && i < |files|
    ensures Describes(files[i], keys[i], m)
  {
    ListingAgrees(p, s, files, keys, i);
  }

  method Look(fs: CpmFilesystem, filename: seq<byte>, ext: seq<byte>, user: byte, ghost m: map<Key, seq<byte>>)
    returns (data: Result<seq<byte>, Error>, files: seq<CpmFile>)
    requires fs.Valid() && ReadableStore(fs.params, fs.Store()) && Refines(Volume(fs.params, fs.Store()), m)
    ensures Shows(m, FileKey(filename, ext, user), data, files)
    ensures Collates(fs.collate) ==> InOrder(fs.collate, files)
  {
    files := fs.ListFiles();
    ghost var keys :| ListedSo(fs.params, DirView(fs.params, fs.Store()), files, keys, {});
    ListingShows(fs.params, fs.Store(), files, keys, m);
    data := fs.ReadFile(filename, ext, user);
  }

  /** The calls report what the run on the formatted image makes of them, and reading and listing show the map they leave. */
  ghost predicate RunShows(p: DiskParams, img: Image, ops: seq<Op>, key: Key, results: seq<Result<(), Error>>,
                           data: Result<seq<byte>, Error>, files: seq<CpmFile>)
    requires ValidParams(p) && Formatted(p, img)
  {
    var outcomes := RunOps(p, BlockView(p, SectorView(p, img)), ops).0;
    results == Reported(outcomes) && Shows(AbstractRun(p, map[], ops, outcomes), key, data, files)
  }

  /**
   From formatting to reading, on any format: after any calls, with whatever
   results, reading and listing show the map that those calls with those
   results make of the empty one.
   */
  method FormatRunAndLook(p: DiskParams, collate: Collation, ops: seq<Op>, filename: seq<byte>, ext: seq<byte>, user: byte)
    returns (results: seq<Result<(), Error>>, data: Result<seq<byte>, Error>, files: seq<CpmFile>)
    requires ValidParams(p)
    requires forall i :: 0 <= i < |ops| ==> ValidOp(ops[i])
    ensures exists img :: Formatted(p, img) && RunShows(p, img, ops, FileKey(filename, ext, user), results, data, files)
    ensures Collates(collate) ==> InOrder(collate, files)
  {
    var image := CpmFilesystem.FormatImage(p);
    var fs := new CpmFilesystem(image, p, collate);
    ghost var img, s := fs.imageData[..], fs.Store();
    FormattedRunRefines(p, img, ops);
    results := Execute(fs, ops);
    ghost var outcomes := RunOps(p, s, ops).0;
    data, files := Look(fs, filename, ext, user, AbstractRun(p, map[], ops, outcomes));
    assert RunShows(p, img, ops, FileKey(filename, ext, user), results, data, files);
  }
}
