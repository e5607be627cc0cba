/** Files as the directory and the blocks describe them. */
module FileView {
  import opened Bytes
  import opened DiskGeometry
  import opened BlockStore
  import opened Directory

  /** A file is named by its user area and its padded 8.3 name. */
  datatype Key = Key(user: byte, filename: seq<byte>, extension: seq<byte>)

  function KeyOf(e: DirEntry): Key {
    Key(e.status, e.filename, e.extension)
  }

  /** Neither deleted nor carrying a status byte beyond the user areas. */
  predicate Live(e: DirEntry) {
    e.status <= 0x1F
  }

  predicate Matches(e: DirEntry, key: Key) {
    Live(e) && KeyOf(e) == key
  }

  /** The directory entries of one file, in slot order. */
  function ExtentsOf(dir: Dir, key: Key): (es: seq<DirEntry>)
  {
    if dir == [] then []
    else
      var last := |dir| - 1;
      ExtentsOf(dir[..last], key) + if Matches(dir[last], key) then [dir[last]] else []
  }

  lemma {:induction false} ExtentsMatch(dir: Dir, key: Key, e: DirEntry)
    ensures e in ExtentsOf(dir, key) <==> e in dir && Matches(e, key)
  {
    if dir != [] {
      var last := |dir| - 1;
      ExtentsMatch(dir[..last], key, e);
      assert dir == dir[..last] + [dir[last]];
    }
  }

  lemma {:induction false} ExtentsConcat(a: Dir, b: Dir, key: Key)
    ensures ExtentsOf(a + b, key) == ExtentsOf(a, key) + ExtentsOf(b, key)
  {
    if b == [] {
      assert a + b == a;
    } else {
      var last := |b| - 1;
      assert (a + b)[..|a + b| - 1] == a + b[..last];
      ExtentsConcat(a, b[..last], key);
    }
  }

  /** Entries that do not match before or after can be exchanged without touching the file. */
  lemma {:induction false} ExtentsAgree(a: Dir, b: Dir, key: Key)
    requires |a| == |b|
    requires forall k :: 0 <= k < |a| ==> a[k] == b[k] || (!Matches(a[k], key) && !Matches(b[k], key))
    ensures ExtentsOf(a, key) == ExtentsOf(b, key)
  {
    if a != [] {
      ExtentsAgree(a[..|a| - 1], b[..|b| - 1], key);
    }
  }

  // ---- extent order --------------------------------------------------------

  function ExtentNumber(e: DirEntry): nat {
    e.extentHigh * 32 + e.extentLow
  }

  /** Stable insertion: e goes after every extent whose number does not exceed its own. */
  function InsertExtent(es: seq<DirEntry>, e: DirEntry): (r: seq<DirEntry>)
    ensures multiset(r) == multiset(es) + multiset{e}
  {
    if es == [] || ExtentNumber(es[|es| - 1]) <= ExtentNumber(e) then es + [e]
    else
      assert es == es[..|es| - 1] + [es[|es| - 1]];
      InsertExtent(es[..|es| - 1], e) + [es[|es| - 1]]
  }

  function SortExtents(es: seq<DirEntry>): (r: seq<DirEntry>)
    ensures multiset(r) == multiset(es)
  {
    if es == [] then []
    else
      assert es == es[..|es| - 1] + [es[|es| - 1]];
      InsertExtent(SortExtents(es[..|es| - 1]), es[|es| - 1])
  }

  ghost predicate InExtentOrder(es: seq<DirEntry>) {
    forall i, j :: 0 <= i < j < |es| ==> ExtentNumber(es[i]) <= ExtentNumber(es[j])
  }

  ghost predicate DistinctExtents(es: seq<DirEntry>) {
    forall i, j :: 0 <= i < j < |es| ==> ExtentNumber(es[i]) != ExtentNumber(es[j])
  }

  lemma {:induction false} InsertKeepsOrder(es: seq<DirEntry>, e: DirEntry)
    requires InExtentOrder(es)
    ensures InExtentOrder(InsertExtent(es, e))
  {
    if es != [] && ExtentNumber(es[|es| - 1]) > ExtentNumber(e) {
      var last := es[|es| - 1];
      var front := InsertExtent(es[..|es| - 1], e);
      InsertKeepsOrder(es[..|es| - 1], e);
      forall i | 0 <= i < |front|
        ensures ExtentNumber(front[i]) <= ExtentNumber(last)
      {
        assert front[i] in multiset(front);
        assert front[i] == e || front[i] in es[..|es| - 1];
      }
    }
  }

  lemma {:induction false} SortSorts(es: seq<DirEntry>)
    ensures InExtentOrder(SortExtents(es))
  {
    if es != [] {
      SortSorts(es[..|es| - 1]);
      InsertKeepsOrder(SortExtents(es[..|es| - 1]), es[|es| - 1]);
    }
  }

  lemma InsertLast(es: seq<DirEntry>)
    requires es != [] && InExtentOrder(es)
    ensures InsertExtent(es[..|es| - 1], es[|es| - 1]) == es[..|es| - 1] + [es[|es| - 1]]
  {
  }

  lemma {:induction false} SortOfSorted(es: seq<DirEntry>)
    requires InExtentOrder(es)
    ensures SortExtents(es) == es
  {
    if es != [] {
      SortOfSorted(es[..|es| - 1]);
      InsertLast(es);
      assert es == es[..|es| - 1] + [es[|es| - 1]];
    }
  }

  lemma LastAgrees(a: seq<DirEntry>, b: seq<DirEntry>)
    requires InExtentOrder(a) && InExtentOrder(b) && DistinctExtents(a)
    requires a != [] && b != [] && multiset(a) == multiset(b)
    ensures a[|a| - 1] == b[|b| - 1]
  {
    var la, lb := a[|a| - 1], b[|b| - 1];
    assert la in multiset(b) && lb in multiset(a);
    var j :| 0 <= j < |b| && b[j] == la;
    var i :| 0 <= i < |a| && a[i] == lb;
    assert ExtentNumber(la) <= ExtentNumber(lb);
  }

  lemma MultisetOfFront(a: seq<DirEntry>)
    requires a != []
    ensures multiset(a[..|a| - 1]) == multiset(a) - multiset{a[|a| - 1]}
  {
    assert a == a[..|a| - 1] + [a[|a| - 1]];
  }

  lemma FrontMultisets(a: seq<DirEntry>, b: seq<DirEntry>)
    requires a != [] && b != [] && a[|a| - 1] == b[|b| - 1] && multiset(a) == multiset(b)
    ensures multiset(a[..|a| - 1]) == multiset(b[..|b| - 1])
  {
    MultisetOfFront(a);
    MultisetOfFront(b);
  }

  lemma {:induction false} SortedUnique(a: seq<DirEntry>, b: seq<DirEntry>)
    requires InExtentOrder(a) && InExtentOrder(b) && DistinctExtents(a)
    requires multiset(a) == multiset(b)
    ensures a == b
  {
    assert |multiset(a)| == |a| && |multiset(b)| == |b|;
    if a != [] {
      LastAgrees(a, b);
      FrontMultisets(a, b);
      SortedUnique(a[..|a| - 1], b[..|b| - 1]);
      assert a == a[..|a| - 1] + [a[|a| - 1]] && b == b[..|b| - 1] + [b[|b| - 1]];
    }
  }

  /** Sorting puts a file's extents back in file order whatever slots they were found in. */
  lemma SortRecoversOrder(found: seq<DirEntry>, original: seq<DirEntry>)
    requires InExtentOrder(original) && DistinctExtents(original)
    requires multiset(found) == multiset(original)
    ensures SortExtents(found) == original
  {
    SortSorts(found);
    SortedUnique(original, SortExtents(found));
  }

  // ---- content and size ----------------------------------------------------

  /** The pointers that name a block: zero marks an unused position. */
  function Allocated(ptrs: seq<word>): (r: seq<nat>)
    ensures |r| <= |ptrs|
  {
    if ptrs == [] then []
    else Allocated(ptrs[..|ptrs| - 1]) + if ptrs[|ptrs| - 1] != 0 then [ptrs[|ptrs| - 1]] else []
  }

  lemma {:induction false} AllocatedMembers(ptrs: seq<word>, b: nat)
    ensures b in Allocated(ptrs) <==> b != 0 && exists x :: 0 <= x < |ptrs| && ptrs[x] == b
  {
    if ptrs != [] {
      AllocatedMembers(ptrs[..|ptrs| - 1], b);
    }
  }

  function FilePointers(es: seq<DirEntry>): (r: seq<nat>)
  {
    if es == [] then [] else FilePointers(es[..|es| - 1]) + Allocated(es[|es| - 1].blockPointers)
  }

  lemma {:induction false} FilePointersMembers(es: seq<DirEntry>, b: nat)
    ensures b in FilePointers(es) <==> exists k :: 0 <= k < |es| && b in Allocated(es[k].blockPointers)
  {
    if es != [] {
      var front := es[..|es| - 1];
      FilePointersMembers(front, b);
      assert forall k :: 0 <= k < |front| ==> front[k] == es[k];
    }
  }

  function RecordsOf(p: DiskParams, es: seq<DirEntry>): nat {
    if es == [] then 0
    else RecordsOf(p, es[..|es| - 1]) + |Allocated(es[|es| - 1].blockPointers)| * SectorsPerBlock(p)
  }

  /**
   The size a listing computes: full blocks for every extent but the last,
   then the sub-extent and record count of the last, refined by its byte
   count. ExtentsPerEntry is a power of two, so `low & exm` is a remainder.
   */
  function SizeOf(p: DiskParams, es: seq<DirEntry>): nat
    requires es != []
  {
    var last := es[|es| - 1];
    var records := RecordsOf(p, es[..|es| - 1]) + last.extentLow % 32 % ExtentsPerEntry(p) * 128 + last.rc;
    if last.bc > 0 && last.rc > 0 then records * 128 - 128 + last.bc else records * 128
  }

  datatype FileRec = FileRec(content: seq<byte>, size: nat, readonly: bool, system: bool, archive: bool)

  function FileOf(p: DiskParams, s: Blocks, es: seq<DirEntry>): FileRec
    requires es != []
    requires forall i :: 0 <= i < |FilePointers(es)| ==> FilePointers(es)[i] < |s|
  {
    var data, size := ReadBlocks(s, FilePointers(es)), SizeOf(p, es);
    FileRec(if size <= |data| then data[..size] else data, size, es[0].readonly, es[0].system, es[0].archive)
  }

  // ---- sound directories ---------------------------------------------------

  /** Pointer x of slot k names a block of a live file. */
  predicate InUse(dir: Dir, k: int, x: int) {
    0 <= k < |dir| && Live(dir[k]) && 0 <= x < |dir[k].blockPointers| && dir[k].blockPointers[x] != 0
  }

  /** Live files use data blocks of the disk, and no block twice. */
  ghost predicate SoundDir(p: DiskParams, dir: Dir)
    requires ValidParams(p)
  {
    && (forall k, x :: InUse(dir, k, x) ==> DirBlocks(p) <= dir[k].blockPointers[x] < TotalBlocks(p))
    && (forall k, x, l, y :: InUse(dir, k, x) && InUse(dir, l, y) && dir[k].blockPointers[x] == dir[l].blockPointers[y]
                             ==> k == l && x == y)
  }

  /** Some live file uses block b. */
  ghost predicate Used(dir: Dir, b: nat) {
    exists k, x :: InUse(dir, k, x) && dir[k].blockPointers[x] == b
  }

  function Sorted(dir: Dir, key: Key): seq<DirEntry> {
    SortExtents(ExtentsOf(dir, key))
  }

  lemma SortedMembers(dir: Dir, key: Key, e: DirEntry)
    ensures e in Sorted(dir, key) <==> e in dir && Matches(e, key)
  {
    ExtentsMatch(dir, key, e);
    assert e in Sorted(dir, key) <==> e in multiset(Sorted(dir, key));
    assert e in ExtentsOf(dir, key) <==> e in multiset(ExtentsOf(dir, key));
  }

  /** A file's blocks are blocks in use by entries bearing its name. */
  lemma FileUses(dir: Dir, key: Key, b: nat) returns (k: int, x: int)
    requires b in FilePointers(Sorted(dir, key))
    ensures InUse(dir, k, x) && dir[k].blockPointers[x] == b && Matches(dir[k], key)
  {
    var es := Sorted(dir, key);
    FilePointersMembers(es, b);
    var i :| 0 <= i < |es| && b in Allocated(es[i].blockPointers);
    AllocatedMembers(es[i].blockPointers, b);
    SortedMembers(dir, key, es[i]);
    k :| 0 <= k < |dir| && dir[k] == es[i];
    x :| 0 <= x < |es[i].blockPointers| && es[i].blockPointers[x] == b;
  }

  lemma FilePointersInRange(p: DiskParams, dir: Dir, key: Key)
    requires ValidParams(p) && SoundDir(p, dir)
    ensures forall i :: 0 <= i < |FilePointers(Sorted(dir, key))| ==>
              DirBlocks(p) <= FilePointers(Sorted(dir, key))[i] < TotalBlocks(p)
  {
    forall i | 0 <= i < |FilePointers(Sorted(dir, key))|
      ensures DirBlocks(p) <= FilePointers(Sorted(dir, key))[i] < TotalBlocks(p)
    {
      var k, x := FileUses(dir, key, FilePointers(Sorted(dir, key))[i]);
    }
  }

  // ---- the volume as a map -------------------------------------------------

  function LiveKeys(dir: Dir): set<Key> {
    set k | 0 <= k < |dir| && Live(dir[k]) :: KeyOf(dir[k])
  }

  lemma LiveKeysHaveExtents(dir: Dir, key: Key)
    ensures key in LiveKeys(dir) <==> ExtentsOf(dir, key) != []
    ensures |Sorted(dir, key)| == |ExtentsOf(dir, key)|
  {
    var es := ExtentsOf(dir, key);
    assert |multiset(Sorted(dir, key))| == |multiset(es)|;
    if es != [] {
      ExtentsMatch(dir, key, es[0]);
    }
    if key in LiveKeys(dir) {
      var k :| 0 <= k < |dir| && Live(dir[k]) && KeyOf(dir[k]) == key;
      ExtentsMatch(dir, key, dir[k]);
    }
  }

  function FileAt(p: DiskParams, s: Blocks, dir: Dir, key: Key): FileRec
    requires ValidParams(p) && |s| == TotalBlocks(p) && SoundDir(p, dir) && key in LiveKeys(dir)
  {
    LiveKeysHaveExtents(dir, key);
    FilePointersInRange(p, dir, key);
    FileOf(p, s, Sorted(dir, key))
  }

  /** The volume as users see it: every file by name. */
  ghost function Files(p: DiskParams, s: Blocks, dir: Dir): (m: map<Key, FileRec>)
    requires ValidParams(p) && |s| == TotalBlocks(p) && SoundDir(p, dir)
    ensures m.Keys == LiveKeys(dir)
  {
    map key | key in LiveKeys(dir) :: FileAt(p, s, dir, key)
  }

  /** Two volumes agree on a file when its entries and the blocks it uses agree. */
  lemma FileAgrees(p: DiskParams, s: Blocks, dir: Dir, t: Blocks, dir': Dir, key: Key)
    requires ValidParams(p) && |s| == TotalBlocks(p) == |t| && SoundDir(p, dir) && SoundDir(p, dir')
    requires ExtentsOf(dir, key) == ExtentsOf(dir', key)
    requires forall b: nat :: b < |s| && Used(dir, b) ==> s[b] == t[b]
    ensures key in LiveKeys(dir) <==> key in LiveKeys(dir')
    ensures key in LiveKeys(dir) ==> FileAt(p, s, dir, key) == FileAt(p, t, dir', key)
  {
    LiveKeysHaveExtents(dir, key);
    LiveKeysHaveExtents(dir', key);
    if key in LiveKeys(dir) {
      FilePointersInRange(p, dir, key);
      FileBlocksAgree(s, dir, t, key);
      SameFile(p, s, t, Sorted(dir, key));
    }
  }

  lemma FileBlocksAgree(s: Blocks, dir: Dir, t: Blocks, key: Key)
    requires |s| == |t| && forall b: nat :: b < |s| && Used(dir, b) ==> s[b] == t[b]
    requires forall i :: 0 <= i < |FilePointers(Sorted(dir, key))| ==> FilePointers(Sorted(dir, key))[i] < |s|
    ensures forall i :: 0 <= i < |FilePointers(Sorted(dir, key))| ==>
              s[FilePointers(Sorted(dir, key))[i]] == t[FilePointers(Sorted(dir, key))[i]]
  {
    var ptrs := FilePointers(Sorted(dir, key));
    forall i | 0 <= i < |ptrs|
      ensures s[ptrs[i]] == t[ptrs[i]]
    {
      var k, x := FileUses(dir, key, ptrs[i]);
    }
  }

  lemma SameFile(p: DiskParams, s: Blocks, t: Blocks, es: seq<DirEntry>)
    requires es != [] && |s| == |t|
    requires forall i :: 0 <= i < |FilePointers(es)| ==> FilePointers(es)[i] < |s|
    requires forall i :: 0 <= i < |FilePointers(es)| ==> s[FilePointers(es)[i]] == t[FilePointers(es)[i]]
    ensures FileOf(p, s, es) == FileOf(p, t, es)
  {
    ReadBlocksAgree(s, t, FilePointers(es));
  }

  /** What a listing reports of one file. */
  datatype CpmFile = CpmFile(
    user: byte,
    filename: seq<byte>,
    extension: seq<byte>,
    size: nat,
    extents: seq<DirEntry>,
    readonly: bool,
    system: bool,
    archive: bool)
}
