/** Writing and deleting files as changes of the block store, and what they do to the volume. */
module FileOps {
  import opened Bytes
  import opened DiskGeometry
  import opened BlockStore
  import opened Directory
  import opened FileView
  import opened FileLayout
  import opened FileSize
  import opened Allocation
  import opened DirectoryPlan

  datatype Outcome = Done | NotFound | DiskFull | DirectoryFull

  /** A name that fits a directory entry. */
  predicate ShapedKey(key: Key) {
    |key.filename| == 8 && SevenBit(key.filename) && |key.extension| == 3 && SevenBit(key.extension)
  }

  /** In one of the 32 user areas. */
  predicate ValidKey(key: Key) {
    key.user <= 0x1F && ShapedKey(key)
  }

  ghost predicate SoundStore(p: DiskParams, s: Blocks) {
    ValidParams(p) && IsStore(p, s) && SoundDir(p, DirView(p, s))
  }

  /** The volume a store holds: every file by name. */
  ghost function Volume(p: DiskParams, s: Blocks): (m: map<Key, FileRec>)
    requires SoundStore(p, s)
    ensures m.Keys == LiveKeys(DirView(p, s))
  {
    Files(p, s, DirView(p, s))
  }

  // ---- deleting ------------------------------------------------------------

  function DeleteOp(p: DiskParams, s: Blocks, key: Key): (r: (Outcome, Blocks))
    requires ValidParams(p) && IsStore(p, s)
    ensures IsStore(p, r.1)
  {
    var dir := DirView(p, s);
    if Named(dir, key) then (Done, StoreDir(p, s, EraseFile(dir, key))) else (NotFound, s)
  }

  /** Either way the directory afterwards is the old one without the file. */
  lemma DeleteDirectory(p: DiskParams, s: Blocks, key: Key)
    requires ValidParams(p) && IsStore(p, s)
    ensures DirView(p, DeleteOp(p, s, key).1) == EraseFile(DirView(p, s), key)
    ensures forall b :: DirBlocks(p) <= b < |s| ==> DeleteOp(p, s, key).1[b] == s[b]
  {
    var dir := DirView(p, s);
    if Named(dir, key) {
      DirRoundTrip(p, s, EraseFile(dir, key));
    } else {
      assert EraseFile(dir, key) == dir;
    }
  }

  lemma UsedIsData(p: DiskParams, dir: Dir, b: nat)
    requires ValidParams(p) && SoundDir(p, dir) && Used(dir, b)
    ensures DirBlocks(p) <= b < TotalBlocks(p)
  {
  }

  lemma DeleteKeeps(p: DiskParams, s: Blocks, key: Key, other: Key)
    requires SoundStore(p, s) && SoundStore(p, DeleteOp(p, s, key).1) && other != key
    ensures var before, after := Volume(p, s), Volume(p, DeleteOp(p, s, key).1);
            && (other in before <==> other in after)
            && (other in before ==> before[other] == after[other])
  {
    var t := DeleteOp(p, s, key).1;
    var dir, after := DirView(p, s), DirView(p, t);
    DeleteDirectory(p, s, key);
    EraseExtents(dir, key, other);
    forall b: nat | b < |s| && Used(dir, b)
      ensures s[b] == t[b]
    {
      UsedIsData(p, dir, b);
    }
    FileAgrees(p, s, dir, t, after, other);
  }

  lemma DeleteSound(p: DiskParams, s: Blocks, key: Key)
    requires SoundStore(p, s)
    ensures SoundStore(p, DeleteOp(p, s, key).1)
    ensures key !in Volume(p, DeleteOp(p, s, key).1)
  {
    DeleteDirectory(p, s, key);
    EraseSound(p, DirView(p, s), key);
    EraseExtents(DirView(p, s), key, key);
    LiveKeysHaveExtents(EraseFile(DirView(p, s), key), key);
  }

  predicate Bears(e: DirEntry, key: Key) {
    e.status == key.user && e.filename == key.filename && e.extension == key.extension
  }

  /** Every entry under the name is marked deleted and otherwise kept, under whatever user byte; no other entry changes. */
  lemma DeleteErases(p: DiskParams, s: Blocks, key: Key)
    requires ValidParams(p) && IsStore(p, s)
    ensures var (outcome, t) := DeleteOp(p, s, key);
            var dir, after := DirView(p, s), DirView(p, t);
            && |after| == |dir|
            && (forall k :: 0 <= k < |dir| ==> after[k] == if Bears(dir[k], key) then dir[k].(status := 229) else dir[k])
            && outcome == if exists k :: 0 <= k < |dir| && Bears(dir[k], key) then Done else NotFound
  {
    DeleteDirectory(p, s, key);
    var dir := DirView(p, s);
    forall k | 0 <= k < |dir|
      ensures KeyOf(dir[k]) == key <==> Bears(dir[k], key)
    {
    }
  }

  ghost predicate AgreeBut<K(!new), V>(a: map<K, V>, b: map<K, V>, key: K) {
    forall k :: k != key ==> (k in a <==> k in b) && (k in a ==> a[k] == b[k])
  }

  lemma AgreeWithout<K(!new), V>(a: map<K, V>, b: map<K, V>, key: K)
    requires AgreeBut(a, b, key) && key !in b
    ensures b == a - {key}
  {
  }

  lemma AgreeAbsent<K(!new), V>(a: map<K, V>, b: map<K, V>, key: K)
    requires AgreeBut(a, b, key) && key !in a && key !in b
    ensures b == a
  {
  }

  lemma AgreeWith<K(!new), V>(a: map<K, V>, b: map<K, V>, key: K)
    requires AgreeBut(a, b, key) && key in b
    ensures b == a[key := b[key]]
  {
  }

  /** Deleting a name removes it from the volume and changes no other file; a missing name is reported. */
  lemma DeleteRemoves(p: DiskParams, s: Blocks, key: Key)
    requires SoundStore(p, s)
    ensures var (outcome, t) := DeleteOp(p, s, key);
            && SoundStore(p, t)
            && Volume(p, t) == Volume(p, s) - {key}
            && (key.user <= 0x1F ==> outcome == if key in Volume(p, s) then Done else NotFound)
  {
    DeleteSound(p, s, key);
    NamedIsLive(DirView(p, s), key);
    var before, after := Volume(p, s), Volume(p, DeleteOp(p, s, key).1);
    forall other | other != key
      ensures (other in before <==> other in after) && (other in before ==> before[other] == after[other])
    {
      DeleteKeeps(p, s, key, other);
    }
    AgreeWithout(before, after, key);
  }

  // ---- writing -------------------------------------------------------------

  /** The blocks a write is given: the lowest free ones. */
  ghost function AllocationFor(p: DiskParams, dir: Dir, data: seq<byte>): (alloc: seq<word>)
    requires ValidParams(p)
    ensures |alloc| <= BlocksNeeded(p, data)
    ensures forall i :: 0 <= i < |alloc| ==> DirBlocks(p) <= alloc[i] < TotalBlocks(p) && !Reserved(p, dir, alloc[i])
    ensures forall i, j :: 0 <= i < j < |alloc| ==> alloc[i] < alloc[j]
  {
    FirstFree(Bitmap(p, dir), BlocksNeeded(p, data))
  }

  /** Allocate, fill the blocks, then enter them in the directory; a failure keeps the earlier steps. */
  ghost function WriteRest(p: DiskParams, s: Blocks, key: Key, data: seq<byte>): (r: (Outcome, Blocks))
    requires ValidParams(p) && IsStore(p, s)
    ensures IsStore(p, r.1)
  {
    var dir := DirView(p, s);
    var n := BlocksNeeded(p, data);
    var alloc := AllocationFor(p, dir, data);
    if |alloc| < n then (DiskFull, s)
    else
      PutBlocksIsStore(p, s, alloc, Chunks(p, data, n));
      var filled := PutBlocks(s, alloc, Chunks(p, data, n));
      match Place(dir, FileEntries(p, key, data, alloc))
      case None => (DirectoryFull, filled)
      case Some(d) => (Done, StoreDir(p, filled, d))
  }

  /** A write for which there is space: the blocks are filled, then the file is entered in the directory. */
  lemma WriteRestWithSpace(p: DiskParams, s: Blocks, key: Key, data: seq<byte>, alloc: seq<word>, filled: Blocks)
    requires ValidParams(p) && IsStore(p, s) && alloc == AllocationFor(p, DirView(p, s), data) && |alloc| == BlocksNeeded(p, data)
    requires filled == PutBlocks(s, alloc, Chunks(p, data, |alloc|))
    ensures IsStore(p, filled) && DirView(p, filled) == DirView(p, s)
    ensures WriteRest(p, s, key, data)
            == match Place(DirView(p, filled), FileEntries(p, key, data, alloc))
               case None => (DirectoryFull, filled)
               case Some(d) => (Done, StoreDir(p, filled, d))
  {
    FilledBlocks(p, s, data, alloc);
  }

  /** A write first deletes the file it replaces. */
  ghost function WriteOp(p: DiskParams, s: Blocks, key: Key, data: seq<byte>): (r: (Outcome, Blocks))
    requires ValidParams(p) && IsStore(p, s)
    ensures IsStore(p, r.1)
  {
    WriteRest(p, DeleteOp(p, s, key).1, key, data)
  }

  lemma FilledBlocks(p: DiskParams, s: Blocks, data: seq<byte>, alloc: seq<word>)
    requires ValidParams(p) && IsStore(p, s) && |alloc| == BlocksNeeded(p, data)
    requires forall i :: 0 <= i < |alloc| ==> DirBlocks(p) <= alloc[i] < TotalBlocks(p)
    requires forall i, j :: 0 <= i < j < |alloc| ==> alloc[i] < alloc[j]
    ensures var filled := PutBlocks(s, alloc, Chunks(p, data, |alloc|));
            && IsStore(p, filled)
            && HoldsChunks(p, filled, alloc, data)
            && (forall b :: 0 <= b < |s| && b !in alloc ==> filled[b] == s[b])
            && DirView(p, filled) == DirView(p, s)
  {
    FillingKeepsOthers(p, s, data, alloc);
    var filled := PutBlocks(s, alloc, Chunks(p, data, |alloc|));
    DirViewFrame(p, filled, s);
  }

  lemma FillingKeepsOthers(p: DiskParams, s: Blocks, data: seq<byte>, alloc: seq<word>)
    requires ValidParams(p) && IsStore(p, s) && |alloc| == BlocksNeeded(p, data)
    requires forall i :: 0 <= i < |alloc| ==> DirBlocks(p) <= alloc[i] < TotalBlocks(p)
    requires forall i, j :: 0 <= i < j < |alloc| ==> alloc[i] < alloc[j]
    ensures var filled := PutBlocks(s, alloc, Chunks(p, data, |alloc|));
            && IsStore(p, filled)
            && HoldsChunks(p, filled, alloc, data)
            && (forall b :: 0 <= b < |s| && b !in alloc ==> filled[b] == s[b])
  {
    var cs := Chunks(p, data, |alloc|);
    var filled := PutBlocks(s, alloc, cs);
    PutBlocksIsStore(p, s, alloc, cs);
    forall i | 0 <= i < |alloc|
      ensures filled[alloc[i]] == cs[i]
    {
      PutBlocksAt(s, alloc, cs, i);
    }
    forall b | 0 <= b < |s| && b !in alloc
      ensures filled[b] == s[b]
    {
      PutBlocksFrame(s, alloc, cs, b);
    }
  }

  /** Where a nonzero pointer of a new entry comes from. */
  lemma NewPointer(p: DiskParams, key: Key, data: seq<byte>, alloc: seq<word>, d: nat, x: nat)
    requires ValidParams(p) && |alloc| == BlocksNeeded(p, data)
    requires d < |FileEntries(p, key, data, alloc)|
    requires x < |FileEntries(p, key, data, alloc)[d].blockPointers|
    requires FileEntries(p, key, data, alloc)[d].blockPointers[x] != 0
    ensures x < 8 && d * 8 + x < |alloc|
    ensures FileEntries(p, key, data, alloc)[d].blockPointers[x] == alloc[d * 8 + x]
  {
    if data != [] {
      EntryStart(p, data, d);
      var ptrs := BlocksOfEntry(alloc, d);
      assert FileEntries(p, key, data, alloc)[d].blockPointers == PadPointers(UsesLargePointers(p), ptrs);
    }
  }

  /** Two slots that hold entries of the same file hold different ones when the file's entries differ. */
  lemma DistinctSlots(dir: Dir, key: Key, k: nat, l: nat)
    requires k < l < |dir| && Matches(dir[k], key) && Matches(dir[l], key)
    requires DistinctExtents(ExtentsOf(dir, key))
    ensures dir[k] != dir[l]
  {
    assert dir == dir[..l] + dir[l..];
    ExtentsConcat(dir[..l], dir[l..], key);
    assert dir[..l][k] == dir[k] && dir[l..][0] == dir[l];
    ExtentsMatch(dir[..l], key, dir[k]);
    ExtentsMatch(dir[l..], key, dir[l]);
    DistinctParts(ExtentsOf(dir[..l], key), ExtentsOf(dir[l..], key), dir[k], dir[l]);
  }

  lemma DistinctParts(a: seq<DirEntry>, b: seq<DirEntry>, d: DirEntry, e: DirEntry)
    requires DistinctExtents(a + b) && d in a && e in b
    ensures d != e
  {
    var i :| 0 <= i < |a| && a[i] == d;
    var j :| 0 <= j < |b| && b[j] == e;
    assert (a + b)[i] == d && (a + b)[|a| + j] == e;
  }

  /** The state of a write that found room: directory dir, blocks alloc, entries placed as after. */
  ghost predicate Placed(p: DiskParams, dir: Dir, key: Key, data: seq<byte>, alloc: seq<word>, after: Dir) {
    && ValidParams(p)
    && SoundDir(p, dir)
    && ValidKey(key)
    && (forall k :: 0 <= k < |dir| ==> !Matches(dir[k], key))
    && alloc == AllocationFor(p, dir, data)
    && |alloc| == BlocksNeeded(p, data)
    && Place(dir, FileEntries(p, key, data, alloc)) == Some(after)
  }

  lemma EntriesBearKey(p: DiskParams, key: Key, data: seq<byte>, alloc: seq<word>)
    requires ValidParams(p) && |alloc| == BlocksNeeded(p, data)
    ensures AllBear(FileEntries(p, key, data, alloc), key)
  {
    forall d | 0 <= d < |FileEntries(p, key, data, alloc)|
      ensures KeyOf(FileEntries(p, key, data, alloc)[d]) == key
    {
      EntryFlags(p, key, data, alloc, d);
    }
  }

  lemma AllocationFits(p: DiskParams, dir: Dir, data: seq<byte>)
    requires ValidParams(p)
    ensures |AllocationFor(p, dir, data)| <= TotalBlocks(p)
  {
    FirstFreeLength(Bitmap(p, dir), BlocksNeeded(p, data));
    CountAtMost(Bitmap(p, dir));
  }

  lemma {:induction false} CountAtMost(bits: seq<bool>)
    ensures CountFree(bits) <= |bits|
  {
    if bits != [] {
      CountAtMost(bits[..|bits| - 1]);
    }
  }

  /** The new file's entries are found in file order and no other file's entries change. */
  lemma PlacedExtents(p: DiskParams, dir: Dir, key: Key, data: seq<byte>, alloc: seq<word>, after: Dir)
    requires Placed(p, dir, key, data, alloc, after)
    ensures ExtentsOf(after, key) == FileEntries(p, key, data, alloc) == Sorted(after, key)
    ensures DistinctExtents(ExtentsOf(after, key))
    ensures forall other :: other != key ==> ExtentsOf(after, other) == ExtentsOf(dir, other)
  {
    var es := FileEntries(p, key, data, alloc);
    EntriesBearKey(p, key, data, alloc);
    AllocationFits(p, dir, data);
    FileEntriesOrdered(p, key, data, alloc);
    var hi := PlaceInOrder(dir, es, key);
    SortOfSorted(es);
    forall other | other != key
      ensures ExtentsOf(after, other) == ExtentsOf(dir, other)
    {
      PlaceKeepsOthers(dir, es, key, other);
    }
  }

  /** A pointer in use after a write is an old one or one of the new blocks. */
  lemma PlacedPointer(p: DiskParams, dir: Dir, key: Key, data: seq<byte>, alloc: seq<word>, after: Dir, k: int, x: int)
    returns (d: nat)
    requires Placed(p, dir, key, data, alloc, after) && InUse(after, k, x)
    ensures !Matches(after[k], key) ==> InUse(dir, k, x) && after[k] == dir[k]
    ensures Matches(after[k], key) ==>
              && d < |FileEntries(p, key, data, alloc)| && after[k] == FileEntries(p, key, data, alloc)[d]
              && x < 8 && d * 8 + x < |alloc| && after[k].blockPointers[x] == alloc[d * 8 + x]
  {
    d := 0;
    PlacedUse(p, dir, key, data, alloc, after, k, x);
    if Matches(after[k], key) {
      d := PointerOfNewEntry(p, key, data, alloc, after[k], x);
    }
  }

  lemma PointerOfNewEntry(p: DiskParams, key: Key, data: seq<byte>, alloc: seq<word>, e: DirEntry, x: nat) returns (d: nat)
    requires ValidParams(p) && |alloc| == BlocksNeeded(p, data)
    requires e in FileEntries(p, key, data, alloc) && x < |e.blockPointers| && e.blockPointers[x] != 0
    ensures d < |FileEntries(p, key, data, alloc)| && e == FileEntries(p, key, data, alloc)[d]
    ensures x < 8 && d * 8 + x < |alloc| && e.blockPointers[x] == alloc[d * 8 + x]
  {
    var es := FileEntries(p, key, data, alloc);
    d :| 0 <= d < |es| && es[d] == e;
    NewPointer(p, key, data, alloc, d, x);
  }

  /** An entry in use after a write is an old one, or one of the new file's. */
  lemma PlacedUse(p: DiskParams, dir: Dir, key: Key, data: seq<byte>, alloc: seq<word>, after: Dir, k: int, x: int)
    requires Placed(p, dir, key, data, alloc, after) && InUse(after, k, x)
    ensures if Matches(after[k], key) then after[k] in FileEntries(p, key, data, alloc)
            else InUse(dir, k, x) && after[k] == dir[k]
  {
    EntriesBearKey(p, key, data, alloc);
    PlaceUse(dir, FileEntries(p, key, data, alloc), k, x);
  }

  lemma OldPointerNotAllocated(p: DiskParams, dir: Dir, data: seq<byte>, k: int, x: int, i: nat)
    requires ValidParams(p) && SoundDir(p, dir) && InUse(dir, k, x) && i < |AllocationFor(p, dir, data)|
    ensures dir[k].blockPointers[x] != AllocationFor(p, dir, data)[i]
  {
    var b := AllocationFor(p, dir, data)[i];
    assert !Reserved(p, dir, b);
    assert Marks(TotalBlocks(p), dir, k, x);
    assert Marked(TotalBlocks(p), dir, dir[k].blockPointers[x]);
  }

  /** Files still use data blocks of the disk, and no block twice; pointers fit the width of the format. */
  lemma PlacedSound(p: DiskParams, dir: Dir, key: Key, data: seq<byte>, alloc: seq<word>, after: Dir)
    requires Placed(p, dir, key, data, alloc, after)
    ensures SoundDir(p, after)
    ensures WellFormedDir(p, dir) ==> WellFormedDir(p, after)
  {
    if WellFormedDir(p, dir) {
      PlacedWellFormed(p, dir, key, data, alloc, after);
    }
    PlacedExtents(p, dir, key, data, alloc, after);
    forall k, x | InUse(after, k, x)
      ensures DirBlocks(p) <= after[k].blockPointers[x] < TotalBlocks(p)
    {
      var d := PlacedPointer(p, dir, key, data, alloc, after, k, x);
    }
    forall k, x, l, y | InUse(after, k, x) && InUse(after, l, y)
                        && after[k].blockPointers[x] == after[l].blockPointers[y]
      ensures k == l && x == y
    {
      PlacedDistinct(p, dir, key, data, alloc, after, k, x, l, y);
    }
  }

  lemma SameIndex(p: DiskParams, dir: Dir, data: seq<byte>, i: nat, j: nat)
    requires ValidParams(p)
    requires var alloc := AllocationFor(p, dir, data); i < |alloc| && j < |alloc| && alloc[i] == alloc[j]
    ensures i == j
  {
  }

  lemma SameFilePointers(p: DiskParams, dir: Dir, key: Key, data: seq<byte>, alloc: seq<word>, after: Dir,
                         k: int, x: int, l: int, y: int)
    requires Placed(p, dir, key, data, alloc, after) && DistinctExtents(ExtentsOf(after, key))
    requires InUse(after, k, x) && InUse(after, l, y) && after[k].blockPointers[x] == after[l].blockPointers[y]
    requires Matches(after[k], key) && Matches(after[l], key)
    ensures k == l && x == y
  {
    var d := PlacedPointer(p, dir, key, data, alloc, after, k, x);
    var e := PlacedPointer(p, dir, key, data, alloc, after, l, y);
    SameIndex(p, dir, data, d * 8 + x, e * 8 + y);
    assert d == e && x == y;
    if k < l {
      DistinctSlots(after, key, k, l);
    } else if l < k {
      DistinctSlots(after, key, l, k);
    }
  }

  lemma OtherFilePointers(p: DiskParams, dir: Dir, key: Key, data: seq<byte>, alloc: seq<word>, after: Dir,
                          k: int, x: int, l: int, y: int)
    requires Placed(p, dir, key, data, alloc, after)
    requires InUse(after, k, x) && InUse(after, l, y)
    requires Matches(after[k], key) && !Matches(after[l], key)
    ensures after[k].blockPointers[x] != after[l].blockPointers[y]
  {
    var d := PlacedPointer(p, dir, key, data, alloc, after, k, x);
    var e := PlacedPointer(p, dir, key, data, alloc, after, l, y);
    OldPointerNotAllocated(p, dir, data, l, y, d * 8 + x);
  }

  lemma PlacedDistinct(p: DiskParams, dir: Dir, key: Key, data: seq<byte>, alloc: seq<word>, after: Dir,
                       k: int, x: int, l: int, y: int)
    requires Placed(p, dir, key, data, alloc, after) && DistinctExtents(ExtentsOf(after, key))
    requires InUse(after, k, x) && InUse(after, l, y) && after[k].blockPointers[x] == after[l].blockPointers[y]
    ensures k == l && x == y
  {
    if Matches(after[k], key) && Matches(after[l], key) {
      SameFilePointers(p, dir, key, data, alloc, after, k, x, l, y);
    } else if Matches(after[k], key) {
      OtherFilePointers(p, dir, key, data, alloc, after, k, x, l, y);
    } else if Matches(after[l], key) {
      OtherFilePointers(p, dir, key, data, alloc, after, l, y, k, x);
    } else {
      var d := PlacedPointer(p, dir, key, data, alloc, after, k, x);
      var e := PlacedPointer(p, dir, key, data, alloc, after, l, y);
    }
  }

  // ---- the outcome of a write ----------------------------------------------

  lemma NewEntryWellFormed(p: DiskParams, key: Key, data: seq<byte>, alloc: seq<word>, d: nat)
    requires ValidParams(p) && ShapedKey(key) && |alloc| == BlocksNeeded(p, data)
    requires forall i :: 0 <= i < |alloc| ==> alloc[i] < TotalBlocks(p)
    requires d < |FileEntries(p, key, data, alloc)|
    ensures WellFormedEntry(UsesLargePointers(p), FileEntries(p, key, data, alloc)[d])
  {
    var e := FileEntries(p, key, data, alloc)[d];
    EntryFlags(p, key, data, alloc, d);
    forall x | 0 <= x < |e.blockPointers|
      ensures e.blockPointers[x] < TotalBlocks(p)
    {
      if e.blockPointers[x] != 0 {
        NewPointer(p, key, data, alloc, d, x);
      }
    }
  }

  lemma PlacedWellFormed(p: DiskParams, dir: Dir, key: Key, data: seq<byte>, alloc: seq<word>, after: Dir)
    requires Placed(p, dir, key, data, alloc, after) && WellFormedDir(p, dir)
    ensures WellFormedDir(p, after)
  {
    var es := FileEntries(p, key, data, alloc);
    forall k | 0 <= k < |after|
      ensures WellFormedEntry(UsesLargePointers(p), after[k])
    {
      PlaceChanges(dir, es, k);
      if after[k] != dir[k] {
        var d :| 0 <= d < |es| && es[d] == after[k];
        NewEntryWellFormed(p, key, data, alloc, d);
      }
    }
  }

  /** What a write starts from once the old file is gone. */
  ghost predicate Cleared(p: DiskParams, s: Blocks, key: Key) {
    SoundStore(p, s) && ValidKey(key) && key !in Volume(p, s)
  }

  lemma NoEntryBears(p: DiskParams, s: Blocks, key: Key)
    requires Cleared(p, s, key)
    ensures forall k :: 0 <= k < |DirView(p, s)| ==> !Matches(DirView(p, s)[k], key)
  {
    var dir := DirView(p, s);
    forall k | 0 <= k < |dir|
      ensures !Matches(dir[k], key)
    {
      assert Live(dir[k]) ==> KeyOf(dir[k]) in LiveKeys(dir);
    }
  }

  lemma UsedNotAllocated(p: DiskParams, dir: Dir, data: seq<byte>, b: nat)
    requires ValidParams(p) && SoundDir(p, dir) && Used(dir, b)
    ensures b !in AllocationFor(p, dir, data)
  {
    var k, x :| InUse(dir, k, x) && dir[k].blockPointers[x] == b;
    forall i | 0 <= i < |AllocationFor(p, dir, data)|
      ensures AllocationFor(p, dir, data)[i] != b
    {
      OldPointerNotAllocated(p, dir, data, k, x, i);
    }
  }

  /** Filling free blocks touches no file. */
  lemma FillKeeps(p: DiskParams, s: Blocks, data: seq<byte>, other: Key)
    requires SoundStore(p, s)
    requires |AllocationFor(p, DirView(p, s), data)| == BlocksNeeded(p, data)
    ensures var alloc := AllocationFor(p, DirView(p, s), data);
            var t := PutBlocks(s, alloc, Chunks(p, data, |alloc|));
            && SoundStore(p, t)
            && (other in Volume(p, s) <==> other in Volume(p, t))
            && (other in Volume(p, s) ==> Volume(p, s)[other] == Volume(p, t)[other])
  {
    var dir := DirView(p, s);
    var alloc := AllocationFor(p, dir, data);
    var t := PutBlocks(s, alloc, Chunks(p, data, |alloc|));
    FilledBlocks(p, s, data, alloc);
    forall b: nat | b < |s| && Used(dir, b)
      ensures s[b] == t[b]
    {
      UsedNotAllocated(p, dir, data, b);
    }
    FileAgrees(p, s, dir, t, dir, other);
  }

  lemma WrittenStore(p: DiskParams, s: Blocks, key: Key, data: seq<byte>, alloc: seq<word>, after: Dir)
    requires Cleared(p, s, key) && Placed(p, DirView(p, s), key, data, alloc, after)
    ensures var filled := PutBlocks(s, alloc, Chunks(p, data, |alloc|));
            && IsStore(p, filled)
            && SoundStore(p, StoreDir(p, filled, after))
            && DirView(p, StoreDir(p, filled, after)) == after
            && HoldsChunks(p, StoreDir(p, filled, after), alloc, data)
            && forall b: nat :: b < |s| && Used(DirView(p, s), b) ==> StoreDir(p, filled, after)[b] == s[b]
  {
    var dir := DirView(p, s);
    var filled := PutBlocks(s, alloc, Chunks(p, data, |alloc|));
    FilledBlocks(p, s, data, alloc);
    PlacedWellFormed(p, dir, key, data, alloc, after);
    PlacedSound(p, dir, key, data, alloc, after);
    DirRoundTrip(p, filled, after);
    forall b: nat | b < |s| && Used(dir, b)
      ensures StoreDir(p, filled, after)[b] == s[b]
    {
      UsedIsData(p, dir, b);
      UsedNotAllocated(p, dir, data, b);
    }
  }

  lemma WrittenKeeps(p: DiskParams, s: Blocks, key: Key, data: seq<byte>, alloc: seq<word>, after: Dir, other: Key)
    requires Cleared(p, s, key) && Placed(p, DirView(p, s), key, data, alloc, after) && other != key
    ensures IsStore(p, PutBlocks(s, alloc, Chunks(p, data, |alloc|)))
    ensures var t := StoreDir(p, PutBlocks(s, alloc, Chunks(p, data, |alloc|)), after);
            && SoundStore(p, t)
            && (other in Volume(p, s) <==> other in Volume(p, t))
            && (other in Volume(p, s) ==> Volume(p, s)[other] == Volume(p, t)[other])
  {
    WrittenStore(p, s, key, data, alloc, after);
    PlacedExtents(p, DirView(p, s), key, data, alloc, after);
    FileAgrees(p, s, DirView(p, s), StoreDir(p, PutBlocks(s, alloc, Chunks(p, data, |alloc|)), after), after, other);
  }

  lemma WrittenReads(p: DiskParams, s: Blocks, key: Key, data: seq<byte>, alloc: seq<word>, after: Dir)
    requires Cleared(p, s, key) && Placed(p, DirView(p, s), key, data, alloc, after)
    ensures IsStore(p, PutBlocks(s, alloc, Chunks(p, data, |alloc|)))
    ensures var t := StoreDir(p, PutBlocks(s, alloc, Chunks(p, data, |alloc|)), after);
            SoundStore(p, t) && key in Volume(p, t) && Volume(p, t)[key] == StoredFile(p, data)
  {
    WrittenStore(p, s, key, data, alloc, after);
    PlacedExtents(p, DirView(p, s), key, data, alloc, after);
    var t := StoreDir(p, PutBlocks(s, alloc, Chunks(p, data, |alloc|)), after);
    FileEntriesRead(p, t, key, data, alloc);
    LiveKeysHaveExtents(after, key);
  }

  lemma FillVolume(p: DiskParams, s: Blocks, data: seq<byte>, key: Key)
    requires SoundStore(p, s) && key !in Volume(p, s)
    requires |AllocationFor(p, DirView(p, s), data)| == BlocksNeeded(p, data)
    ensures var alloc := AllocationFor(p, DirView(p, s), data);
            var t := PutBlocks(s, alloc, Chunks(p, data, |alloc|));
            SoundStore(p, t) && Volume(p, t) == Volume(p, s)
  {
    var alloc := AllocationFor(p, DirView(p, s), data);
    var t := PutBlocks(s, alloc, Chunks(p, data, |alloc|));
    FillKeeps(p, s, data, key);
    var before, after := Volume(p, s), Volume(p, t);
    forall other | other != key
      ensures (other in before <==> other in after) && (other in before ==> before[other] == after[other])
    {
      FillKeeps(p, s, data, other);
    }
    AgreeAbsent(before, after, key);
  }

  lemma WrittenVolume(p: DiskParams, s: Blocks, key: Key, data: seq<byte>, alloc: seq<word>, after: Dir)
    requires Cleared(p, s, key) && Placed(p, DirView(p, s), key, data, alloc, after)
    ensures IsStore(p, PutBlocks(s, alloc, Chunks(p, data, |alloc|)))
    ensures var t := StoreDir(p, PutBlocks(s, alloc, Chunks(p, data, |alloc|)), after);
            SoundStore(p, t) && Volume(p, t) == Volume(p, s)[key := StoredFile(p, data)]
  {
    WrittenReads(p, s, key, data, alloc, after);
    var t := StoreDir(p, PutBlocks(s, alloc, Chunks(p, data, |alloc|)), after);
    var old', new' := Volume(p, s), Volume(p, t);
    forall other | other != key
      ensures (other in old' <==> other in new') && (other in old' ==> old'[other] == new'[other])
    {
      WrittenKeeps(p, s, key, data, alloc, after, other);
    }
    AgreeWith(old', new', key);
  }

  /** A write into a volume without the file: the file appears as stored, or nothing changes. */
  lemma WriteIntoCleared(p: DiskParams, s: Blocks, key: Key, data: seq<byte>)
    requires Cleared(p, s, key)
    ensures var (outcome, t) := WriteOp(p, s, key, data);
            && SoundStore(p, t)
            && Volume(p, t) == if outcome == Done then Volume(p, s)[key := StoredFile(p, data)] else Volume(p, s)
  {
    var dir := DirView(p, s);
    assert DeleteOp(p, s, key).1 == s;
    NoEntryBears(p, s, key);
    var alloc := AllocationFor(p, dir, data);
    if |alloc| == BlocksNeeded(p, data) {
      var placed := Place(dir, FileEntries(p, key, data, alloc));
      if placed.None? {
        FillVolume(p, s, data, key);
      } else {
        WrittenVolume(p, s, key, data, alloc, placed.value);
      }
    }
  }

  lemma HiddenPlaced(p: DiskParams, dir: Dir, key: Key, data: seq<byte>, alloc: seq<word>, after: Dir)
    requires ValidParams(p) && SoundDir(p, dir) && WellFormedDir(p, dir) && ShapedKey(key) && key.user > 0x1F
    requires alloc == AllocationFor(p, dir, data) && |alloc| == BlocksNeeded(p, data)
    requires Place(dir, FileEntries(p, key, data, alloc)) == Some(after)
    ensures SoundDir(p, after) && WellFormedDir(p, after)
    ensures forall k, x :: InUse(after, k, x) ==> InUse(dir, k, x) && after[k] == dir[k]
  {
    var es := FileEntries(p, key, data, alloc);
    EntriesBearKey(p, key, data, alloc);
    forall k, x | InUse(after, k, x)
      ensures InUse(dir, k, x) && after[k] == dir[k]
    {
      PlaceUse(dir, es, k, x);
    }
    forall k | 0 <= k < |after|
      ensures WellFormedEntry(UsesLargePointers(p), after[k])
    {
      PlaceChanges(dir, es, k);
      if after[k] != dir[k] {
        var d :| 0 <= d < |es| && es[d] == after[k];
        NewEntryWellFormed(p, key, data, alloc, d);
      }
    }
  }

  /** What is written under a status byte that is no user area is no file: the volume stays as it is. */
  lemma HiddenWrite(p: DiskParams, s: Blocks, key: Key, data: seq<byte>)
    requires SoundStore(p, s) && ShapedKey(key) && key.user > 0x1F
    ensures var t := WriteRest(p, s, key, data).1;
            SoundStore(p, t) && Volume(p, t) == Volume(p, s)
  {
    var dir := DirView(p, s);
    var alloc := AllocationFor(p, dir, data);
    if |alloc| == BlocksNeeded(p, data) {
      FillVolume(p, s, data, key);
      var filled := PutBlocks(s, alloc, Chunks(p, data, |alloc|));
      FilledBlocks(p, s, data, alloc);
      var placed := Place(dir, FileEntries(p, key, data, alloc));
      if placed.Some? {
        HiddenEntered(p, filled, key, data, alloc, placed.value);
      }
    }
  }

  lemma HiddenEntered(p: DiskParams, s: Blocks, key: Key, data: seq<byte>, alloc: seq<word>, after: Dir)
    requires SoundStore(p, s) && ShapedKey(key) && key.user > 0x1F
    requires alloc == AllocationFor(p, DirView(p, s), data) && |alloc| == BlocksNeeded(p, data)
    requires Place(DirView(p, s), FileEntries(p, key, data, alloc)) == Some(after)
    ensures SoundStore(p, StoreDir(p, s, after)) && Volume(p, StoreDir(p, s, after)) == Volume(p, s)
  {
    HiddenPlaced(p, DirView(p, s), key, data, alloc, after);
    DirRoundTrip(p, s, after);
    forall other
      ensures ExtentsOf(after, other) == ExtentsOf(DirView(p, s), other)
    {
      EntriesBearKey(p, key, data, alloc);
      PlaceHidden(DirView(p, s), FileEntries(p, key, data, alloc), key, other);
    }
    SameFilesSameVolume(p, s, after);
  }

  /** A new directory with the same entries of every file leaves the volume as it is. */
  lemma SameFilesSameVolume(p: DiskParams, s: Blocks, after: Dir)
    requires SoundStore(p, s) && SoundDir(p, after) && WellFormedDir(p, after)
    requires forall other :: ExtentsOf(after, other) == ExtentsOf(DirView(p, s), other)
    ensures SoundStore(p, StoreDir(p, s, after)) && Volume(p, StoreDir(p, s, after)) == Volume(p, s)
  {
    var dir, t := DirView(p, s), StoreDir(p, s, after);
    DirRoundTrip(p, s, after);
    SameDataBlocks(p, s, t, dir);
    forall other
      ensures SameAt(Volume(p, s), Volume(p, t), other)
    {
      FileAgrees(p, s, dir, t, after, other);
    }
    SameEverywhere(Volume(p, s), Volume(p, t));
  }

  ghost predicate SameAt<K, V>(a: map<K, V>, b: map<K, V>, k: K) {
    (k in a <==> k in b) && (k in a ==> a[k] == b[k])
  }

  lemma SameEverywhere<K(!new), V>(a: map<K, V>, b: map<K, V>)
    requires forall k :: SameAt(a, b, k)
    ensures a == b
  {
    assert forall k :: k in a <==> k in b by {
      forall k ensures k in a <==> k in b { assert SameAt(a, b, k); }
    }
    forall k | k in a ensures a[k] == b[k] { assert SameAt(a, b, k); }
  }

  lemma SameDataBlocks(p: DiskParams, s: Blocks, t: Blocks, dir: Dir)
    requires ValidParams(p) && SoundDir(p, dir) && |s| == |t|
    requires forall b :: DirBlocks(p) <= b < |s| ==> s[b] == t[b]
    ensures forall b: nat :: b < |s| && Used(dir, b) ==> s[b] == t[b]
  {
    forall b: nat | b < |s| && Used(dir, b)
      ensures s[b] == t[b]
    {
      UsedIsData(p, dir, b);
    }
  }

  /** A write goes on from the volume without the file it replaces. */
  lemma WriteClearsFirst(p: DiskParams, s: Blocks, key: Key, data: seq<byte>)
    requires SoundStore(p, s) && key.user <= 0x1F
    ensures WriteOp(p, s, key, data) == WriteOp(p, DeleteOp(p, s, key).1, key, data)
  {
    var cleared := DeleteOp(p, s, key).1;
    DeleteSound(p, s, key);
    NamedIsLive(DirView(p, cleared), key);
    assert DeleteOp(p, cleared, key) == (NotFound, cleared);
  }

  ghost function VolumeAfterWrite(m: map<Key, FileRec>, key: Key, outcome: Outcome, file: FileRec): map<Key, FileRec> {
    if outcome == Done && key.user <= 0x1F then m[key := file] else m - {key}
  }

  lemma ClearedVolume(m: map<Key, FileRec>, c: map<Key, FileRec>, key: Key, outcome: Outcome, file: FileRec)
    requires c == m - {key}
    ensures VolumeAfterWrite(c, key, outcome, file) == VolumeAfterWrite(m, key, outcome, file)
    ensures (if outcome == Done && key.user <= 0x1F then c[key := file] else c) == VolumeAfterWrite(m, key, outcome, file)
  {
    assert c - {key} == c;
    assert c[key := file] == m[key := file];
  }

  /** A write from the volume without the file it replaces. */
  lemma WriteFromCleared(p: DiskParams, s: Blocks, key: Key, data: seq<byte>)
    requires SoundStore(p, s) && ShapedKey(key)
    ensures var cleared := DeleteOp(p, s, key).1;
            var (outcome, t) := WriteOp(p, s, key, data);
            && SoundStore(p, cleared) && SoundStore(p, t)
            && Volume(p, t) == (if outcome == Done && key.user <= 0x1F then Volume(p, cleared)[key := StoredFile(p, data)] else Volume(p, cleared))
  {
    var cleared := DeleteOp(p, s, key).1;
    DeleteSound(p, s, key);
    if key.user <= 0x1F {
      WriteClearsFirst(p, s, key, data);
      WriteIntoCleared(p, cleared, key, data);
    } else {
      HiddenWrite(p, cleared, key, data);
    }
  }

  /**
   Writing a name makes the file read back as stored when there is room and
   the user is one of the 32 areas, and otherwise removes the file it was to
   replace; no other file changes, whatever the outcome.
   */
  lemma WriteReplaces(p: DiskParams, s: Blocks, key: Key, data: seq<byte>)
    requires SoundStore(p, s) && ShapedKey(key)
    ensures SoundStore(p, WriteOp(p, s, key, data).1)
    ensures WriteOp(p, s, key, data).0 != NotFound
    ensures Volume(p, WriteOp(p, s, key, data).1)
            == VolumeAfterWrite(Volume(p, s), key, WriteOp(p, s, key, data).0, StoredFile(p, data))
  {
    DeleteRemoves(p, s, key);
    WriteFromCleared(p, s, key, data);
    ClearedVolume(Volume(p, s), Volume(p, DeleteOp(p, s, key).1), key, WriteOp(p, s, key, data).0, StoredFile(p, data));
  }

  /** A write succeeds exactly when enough blocks and enough directory slots are free without the old file. */
  lemma WriteSucceeds(p: DiskParams, s: Blocks, key: Key, data: seq<byte>)
    requires SoundStore(p, s) && ShapedKey(key) && key.user != DELETED
    ensures var dir := EraseFile(DirView(p, s), key);
            var outcome := WriteOp(p, s, key, data).0;
            && (outcome == DiskFull <==> CountFree(Bitmap(p, dir)) < BlocksNeeded(p, data))
            && (outcome == Done <==>
                  && BlocksNeeded(p, data) <= CountFree(Bitmap(p, dir))
                  && (if data == [] then 1 else EntriesNeeded(p, data)) <= CountDeleted(dir))
  {
    DeleteDirectory(p, s, key);
    var dir := EraseFile(DirView(p, s), key);
    FirstFreeLength(Bitmap(p, dir), BlocksNeeded(p, data));
    var alloc := AllocationFor(p, dir, data);
    if |alloc| == BlocksNeeded(p, data) {
      EntriesBearKey(p, key, data, alloc);
      PlaceSucceeds(dir, FileEntries(p, key, data, alloc), key);
    }
  }

  // ---- space ---------------------------------------------------------------

  /** The blocks marked after a write are those marked before and the new file's. */
  lemma PlacedMarks(p: DiskParams, dir: Dir, key: Key, data: seq<byte>, alloc: seq<word>, after: Dir, n: nat)
    requires Placed(p, dir, key, data, alloc, after) && n < TotalBlocks(p)
    ensures Marked(TotalBlocks(p), after, n) <==> Marked(TotalBlocks(p), dir, n) || n in alloc
  {
    var total := TotalBlocks(p);
    if Marked(total, after, n) {
      var k, x :| Marks(total, after, k, x) && after[k].blockPointers[x] == n;
      var d := PlacedPointer(p, dir, key, data, alloc, after, k, x);
      assert InUse(dir, k, x) && after[k] == dir[k] ==> Marks(total, dir, k, x);
    }
    if Marked(total, dir, n) {
      var k, x :| Marks(total, dir, k, x) && dir[k].blockPointers[x] == n;
      PlaceChanges(dir, FileEntries(p, key, data, alloc), k);
      assert Marks(total, after, k, x);
    }
    if n in alloc {
      NewBlockMarked(p, dir, key, data, alloc, after, n);
    }
  }

  lemma NewBlockMarked(p: DiskParams, dir: Dir, key: Key, data: seq<byte>, alloc: seq<word>, after: Dir, n: nat)
    requires Placed(p, dir, key, data, alloc, after) && n in alloc
    ensures Marked(TotalBlocks(p), after, n)
  {
    PlacedExtents(p, dir, key, data, alloc, after);
    FileEntriesPointers(p, key, data, alloc);
    var k, x := FileUses(after, key, n);
    assert Marks(TotalBlocks(p), after, k, x);
  }

  lemma WriteDirectory(p: DiskParams, s: Blocks, key: Key, data: seq<byte>) returns (alloc: seq<word>, after: Dir)
    requires Cleared(p, s, key) && WriteOp(p, s, key, data).0 == Done
    ensures Placed(p, DirView(p, s), key, data, alloc, after)
    ensures DirView(p, WriteOp(p, s, key, data).1) == after
  {
    var dir := DirView(p, s);
    assert DeleteOp(p, s, key).1 == s;
    NoEntryBears(p, s, key);
    alloc := AllocationFor(p, dir, data);
    after := Place(dir, FileEntries(p, key, data, alloc)).value;
    WrittenStore(p, s, key, data, alloc, after);
  }

  /** If files use any block, some block in use lies below this one. */
  ghost predicate AboveLowestUsed(p: DiskParams, dir: Dir, b: nat)
    requires ValidParams(p)
  {
    (exists n: nat :: Marked(TotalBlocks(p), dir, n)) ==> exists n: nat :: Marked(TotalBlocks(p), dir, n) && n < b
  }

  lemma FreeIsAbove(p: DiskParams, dir: Dir, b: nat)
    requires ValidParams(p) && !Reserved(p, dir, b)
    ensures AboveLowestUsed(p, dir, b)
  {
    if m: nat :| Marked(TotalBlocks(p), dir, m) {
      var i, j :| Marks(TotalBlocks(p), dir, i, j) && dir[i].blockPointers[j] == m;
      var k, x := FreeAboveSomeMarked(p, dir, b);
      var n: nat := dir[k].blockPointers[x];
      assert Marked(TotalBlocks(p), dir, n);
    }
  }

  /** Writing a new name takes exactly its blocks out of the free ones, and none below the lowest block in use. */
  lemma WriteTakesSpace(p: DiskParams, s: Blocks, key: Key, data: seq<byte>)
    requires Cleared(p, s, key) && WriteOp(p, s, key, data).0 == Done
    ensures var before, after := Bitmap(p, DirView(p, s)), Bitmap(p, DirView(p, WriteOp(p, s, key, data).1));
            && CountFree(after) == CountFree(before) - BlocksNeeded(p, data)
            && (forall b :: 0 <= b < |before| && before[b] ==> after[b])
            && (forall b: nat :: b < |before| && after[b] && !before[b] ==> AboveLowestUsed(p, DirView(p, s), b))
  {
    var dir := DirView(p, s);
    var alloc, after := WriteDirectory(p, s, key, data);
    var bits := Bitmap(p, dir);
    forall b: nat | b < |bits| && !bits[b]
      ensures AboveLowestUsed(p, dir, b)
    {
      FreeIsAbove(p, dir, b);
    }
    forall n: nat | n < TotalBlocks(p)
      ensures Marked(TotalBlocks(p), after, n) <==> Marked(TotalBlocks(p), dir, n) || n in alloc
    {
      PlacedMarks(p, dir, key, data, alloc, after, n);
    }
    BitmapAfterUse(p, dir, after, BlocksNeeded(p, data));
    CountAfterSetAll(bits, FirstFree(bits, BlocksNeeded(p, data)));
  }

  /** Deleting the file just written restores the allocation bitmap exactly. */
  lemma DeleteRestoresSpace(p: DiskParams, s: Blocks, key: Key, data: seq<byte>)
    requires Cleared(p, s, key) && WriteOp(p, s, key, data).0 == Done
    ensures var t := DeleteOp(p, WriteOp(p, s, key, data).1, key).1;
            Bitmap(p, DirView(p, t)) == Bitmap(p, DirView(p, s))
  {
    var dir := DirView(p, s);
    var alloc, after := WriteDirectory(p, s, key, data);
    DeleteDirectory(p, WriteOp(p, s, key, data).1, key);
    forall n: nat | n < TotalBlocks(p)
      ensures Marked(TotalBlocks(p), EraseFile(after, key), n) <==> Marked(TotalBlocks(p), dir, n)
    {
      ErasedMarks(p, dir, key, data, alloc, after, n);
    }
    BitmapAgrees(p, EraseFile(after, key), dir);
  }

  lemma ErasedMarks(p: DiskParams, dir: Dir, key: Key, data: seq<byte>, alloc: seq<word>, after: Dir, n: nat)
    requires Placed(p, dir, key, data, alloc, after)
    ensures Marked(TotalBlocks(p), EraseFile(after, key), n) <==> Marked(TotalBlocks(p), dir, n)
  {
    var total, erased := TotalBlocks(p), EraseFile(after, key);
    if Marked(total, erased, n) {
      var k, x :| Marks(total, erased, k, x) && erased[k].blockPointers[x] == n;
      EraseUse(after, key, k, x);
      var d := PlacedPointer(p, dir, key, data, alloc, after, k, x);
      assert Marks(total, dir, k, x);
    }
    if Marked(total, dir, n) {
      var k, x :| Marks(total, dir, k, x) && dir[k].blockPointers[x] == n;
      PlaceChanges(dir, FileEntries(p, key, data, alloc), k);
      EraseUse(after, key, k, x);
      assert Marks(total, erased, k, x);
    }
  }

  /** Blocks written under a status byte that is no user area still count as free. */
  lemma HiddenWriteTakesNoSpace(p: DiskParams, s: Blocks, key: Key, data: seq<byte>)
    requires SoundStore(p, s) && ShapedKey(key) && key.user > 0x1F
    ensures Bitmap(p, DirView(p, WriteRest(p, s, key, data).1)) == Bitmap(p, DirView(p, s))
  {
    var dir := DirView(p, s);
    var alloc := AllocationFor(p, dir, data);
    if |alloc| == BlocksNeeded(p, data) {
      var filled := PutBlocks(s, alloc, Chunks(p, data, |alloc|));
      FilledBlocks(p, s, data, alloc);
      var placed := Place(dir, FileEntries(p, key, data, alloc));
      if placed.Some? {
        HiddenPlaced(p, dir, key, data, alloc, placed.value);
        DirRoundTrip(p, filled, placed.value);
        HiddenMarks(p, dir, key, data, alloc, placed.value);
      }
    }
  }

  lemma HiddenMarks(p: DiskParams, dir: Dir, key: Key, data: seq<byte>, alloc: seq<word>, after: Dir)
    requires ValidParams(p) && SoundDir(p, dir) && WellFormedDir(p, dir) && ShapedKey(key) && key.user > 0x1F
    requires alloc == AllocationFor(p, dir, data) && |alloc| == BlocksNeeded(p, data)
    requires Place(dir, FileEntries(p, key, data, alloc)) == Some(after)
    ensures Bitmap(p, after) == Bitmap(p, dir)
  {
    var total := TotalBlocks(p);
    HiddenPlaced(p, dir, key, data, alloc, after);
    forall n: nat | n < total
      ensures Marked(total, after, n) <==> Marked(total, dir, n)
    {
      if Marked(total, after, n) {
        var k, x :| Marks(total, after, k, x) && after[k].blockPointers[x] == n;
        assert InUse(after, k, x);
        assert Marks(total, dir, k, x);
      }
      if Marked(total, dir, n) {
        var k, x :| Marks(total, dir, k, x) && dir[k].blockPointers[x] == n;
        PlaceChanges(dir, FileEntries(p, key, data, alloc), k);
        assert Marks(total, after, k, x);
      }
    }
    BitmapAgrees(p, after, dir);
  }

  // ---- when the size is right ----------------------------------------------

  /**
   After a successful write the file is there exactly when the user is one of
   the 32 areas, and reads back whole exactly when besides its last entry's
   records fit one logical extent.
   */
  lemma ReadsBackWhole(p: DiskParams, s: Blocks, key: Key, data: seq<byte>)
    requires SoundStore(p, s) && ShapedKey(key) && WriteOp(p, s, key, data).0 == Done
    ensures SoundStore(p, WriteOp(p, s, key, data).1)
    ensures var m := Volume(p, WriteOp(p, s, key, data).1);
            && (key in m <==> key.user <= 0x1F)
            && (key in m && m[key].content == Padded(data) <==> key.user <= 0x1F && LastRecords(p, data) <= 128)
  {
    WriteReplaces(p, s, key, data);
    StoredSizeExact(p, data);
  }

  /** On the 4K-block format 129 records in five blocks are stored with the count of a single one. */
  lemma FiveBlockFileSize(data: seq<byte>)
    requires |data| == 129 * 128
    ensures ValidParams(PARAMS_8MB)
    ensures BlocksNeeded(PARAMS_8MB, data) == 5 && EntriesNeeded(PARAMS_8MB, data) == 1
    ensures LastRecords(PARAMS_8MB, data) == 129
    ensures StoredSize(PARAMS_8MB, data) == 128 < |Padded(data)|
  {
    EightMegabyteIsValid();
    DivModUnique(129 * 128 + 4095, 4096, 5, 129 * 128 + 4095 - 5 * 4096);
    assert BlocksNeeded(PARAMS_8MB, data) == 5;
    DivModUnique(5 + 7, 8, 1, 4);
    assert EntriesNeeded(PARAMS_8MB, data) == 1;
    DivModUnique(129 * 128 + 127, 128, 129, 127);
    StoredSizeExact(PARAMS_8MB, data);
  }
}
