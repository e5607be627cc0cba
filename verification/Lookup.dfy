/** Looking files up: the listing, and what a search of it finds. */
module Lookup {
  import opened Bytes
  import opened DiskGeometry
  import opened BlockStore
  import opened Directory
  import opened FileView
  import opened FileOps
  import opened Names

  /** The listing of the file key names. */
  function Listed(p: DiskParams, dir: Dir, key: Key): CpmFile
    requires ExtentsOf(dir, key) != []
  {
    LiveKeysHaveExtents(dir, key);
    var es := Sorted(dir, key);
    CpmFile(key.user, TrimEnd(key.filename), TrimEnd(key.extension), SizeOf(p, es), es,
            es[0].readonly, es[0].system, es[0].archive)
  }

  /** fileMap holds exactly the files of dir, each with its entries in slot order. */
  ghost predicate Grouped(fileMap: map<Key, seq<DirEntry>>, dir: Dir) {
    forall key :: (key in fileMap <==> ExtentsOf(dir, key) != []) && (key in fileMap ==> fileMap[key] == ExtentsOf(dir, key))
  }

  lemma GroupedNext(fileMap: map<Key, seq<DirEntry>>, entries: Dir, i: nat)
    requires i < |entries| && Grouped(fileMap, entries[..i])
    ensures var key := KeyOf(entries[i]);
            var old' := if key in fileMap then fileMap[key] else [];
            Grouped(if Live(entries[i]) then fileMap[key := old' + [entries[i]]] else fileMap, entries[..i + 1])
  {
    forall key {
      GroupNext(entries, i, key);
    }
  }

  /** files and keys list files of dir one to one, leaving out those in left. */
  ghost predicate ListedSo(p: DiskParams, dir: Dir, files: seq<CpmFile>, keys: seq<Key>, left: set<Key>) {
    && |files| == |keys|
    && (forall key :: key in keys <==> key in LiveKeys(dir) - left)
    && (forall i, j :: 0 <= i < j < |keys| ==> keys[i] != keys[j])
    && EachListed(p, dir, files, keys)
  }

  ghost predicate EachListed(p: DiskParams, dir: Dir, files: seq<CpmFile>, keys: seq<Key>) {
    && |files| == |keys|
    && forall i :: 0 <= i < |keys| ==> ExtentsOf(dir, keys[i]) != [] && files[i] == Listed(p, dir, keys[i])
  }

  lemma EachListedNext(p: DiskParams, dir: Dir, files: seq<CpmFile>, keys: seq<Key>, key: Key, file: CpmFile)
    requires EachListed(p, dir, files, keys) && ExtentsOf(dir, key) != [] && file == Listed(p, dir, key)
    ensures EachListed(p, dir, files + [file], keys + [key])
  {
  }

  lemma ListedNext(p: DiskParams, dir: Dir, files: seq<CpmFile>, keys: seq<Key>, left: set<Key>, key: Key, file: CpmFile)
    requires ListedSo(p, dir, files, keys, left) && key in left && key in LiveKeys(dir)
    requires ExtentsOf(dir, key) != [] && file == Listed(p, dir, key)
    ensures ListedSo(p, dir, files + [file], keys + [key], left - {key})
  {
    KeysNext(keys, LiveKeys(dir), left, key);
    EachListedNext(p, dir, files, keys, key, file);
  }

  lemma KeysNext(keys: seq<Key>, live: set<Key>, left: set<Key>, key: Key)
    requires forall k :: k in keys <==> k in live - left
    requires forall i, j :: 0 <= i < j < |keys| ==> keys[i] != keys[j]
    requires key in left && key in live
    ensures forall k :: k in keys + [key] <==> k in live - (left - {key})
    ensures forall i, j :: 0 <= i < j < |keys + [key]| ==> (keys + [key])[i] != (keys + [key])[j]
  {
    assert key !in keys;
    forall k
      ensures k in keys + [key] <==> k in keys || k == key
    {
    }
  }

  lemma GroupNext(dir: Dir, i: nat, key: Key)
    requires i < |dir|
    ensures ExtentsOf(dir[..i + 1], key) == ExtentsOf(dir[..i], key) + if Matches(dir[i], key) then [dir[i]] else []
  {
    assert dir[..i + 1][..i] == dir[..i];
  }

  ghost predicate AllBelow(ptrs: seq<nat>, n: nat) {
    forall i :: 0 <= i < |ptrs| ==> ptrs[i] < n
  }

  lemma PartBelow(a: seq<nat>, b: seq<nat>, all: seq<nat>, n: nat)
    requires a + b <= all && AllBelow(all, n)
    ensures AllBelow(a, n) && AllBelow(b, n)
  {
    forall i | 0 <= i < |b|
      ensures b[i] < n
    {
      assert all[|a| + i] == (a + b)[|a| + i] == b[i];
    }
    forall i | 0 <= i < |a|
      ensures a[i] < n
    {
      assert all[i] == (a + b)[i];
    }
  }

  /** The file a lookup searches for. */
  predicate Asked(file: CpmFile, filename: seq<byte>, ext: seq<byte>, user: byte) {
    file.user == user && file.filename == TrimEnd(filename) && file.extension == TrimEnd(ext)
  }

  lemma PointersPrefix(es: seq<DirEntry>, k: nat)
    requires k < |es|
    ensures FilePointers(es[..k + 1]) == FilePointers(es[..k]) + Allocated(es[k].blockPointers)
    ensures FilePointers(es[..k + 1]) <= FilePointers(es)
    decreases |es| - k
  {
    assert es[..k + 1][..k] == es[..k];
    if k + 1 < |es| {
      PointersPrefix(es, k + 1);
    } else {
      assert es[..k + 1] == es;
    }
  }

  lemma AllocatedPrefix(ptrs: seq<word>, x: nat)
    requires x < |ptrs|
    ensures Allocated(ptrs[..x + 1]) == Allocated(ptrs[..x]) + if ptrs[x] != 0 then [ptrs[x]] else []
    ensures Allocated(ptrs[..x + 1]) <= Allocated(ptrs)
    decreases |ptrs| - x
  {
    assert ptrs[..x + 1][..x] == ptrs[..x];
    if x + 1 < |ptrs| {
      AllocatedPrefix(ptrs, x + 1);
    } else {
      assert ptrs[..x + 1] == ptrs;
    }
  }

  lemma {:induction false} ReadBlocksConcat(s: Blocks, a: seq<nat>, b: seq<nat>)
    requires forall i :: 0 <= i < |a| ==> a[i] < |s|
    requires forall i :: 0 <= i < |b| ==> b[i] < |s|
    ensures ReadBlocks(s, a + b) == ReadBlocks(s, a) + ReadBlocks(s, b)
  {
    if b == [] {
      assert a + b == a;
    } else {
      assert (a + b)[..|a + b| - 1] == a + b[..|b| - 1];
      ReadBlocksConcat(s, a, b[..|b| - 1]);
    }
  }

  /** Reading one more pointer position of an entry. */
  lemma ReadNextPointer(s: Blocks, ptrs: seq<word>, x: nat)
    requires x < |ptrs| && AllBelow(Allocated(ptrs), |s|)
    ensures AllBelow(Allocated(ptrs[..x]), |s|) && AllBelow(Allocated(ptrs[..x + 1]), |s|)
    ensures ptrs[x] != 0 ==> ptrs[x] < |s|
    ensures ReadBlocks(s, Allocated(ptrs[..x + 1]))
            == ReadBlocks(s, Allocated(ptrs[..x])) + if ptrs[x] != 0 then s[ptrs[x]] else []
  {
    var before, here := Allocated(ptrs[..x]), if ptrs[x] != 0 then [ptrs[x]] else [];
    AllocatedPrefix(ptrs, x);
    PartBelow(before, here, Allocated(ptrs), |s|);
    ReadBlocksConcat(s, before, here);
    if ptrs[x] != 0 {
      assert here[0] < |s|;
      ReadSingle(s, ptrs[x]);
    }
  }

  /** Reading one more entry of a file. */
  lemma ReadNextExtent(s: Blocks, es: seq<DirEntry>, k: nat)
    requires k < |es| && AllBelow(FilePointers(es), |s|)
    ensures AllBelow(FilePointers(es[..k]), |s|) && AllBelow(FilePointers(es[..k + 1]), |s|)
    ensures AllBelow(Allocated(es[k].blockPointers), |s|)
    ensures ReadBlocks(s, FilePointers(es[..k + 1]))
            == ReadBlocks(s, FilePointers(es[..k])) + ReadBlocks(s, Allocated(es[k].blockPointers))
  {
    var before, here := FilePointers(es[..k]), Allocated(es[k].blockPointers);
    PointersPrefix(es, k);
    PartBelow(before, here, FilePointers(es), |s|);
    ReadBlocksConcat(s, before, here);
  }

  lemma ReadSingle(s: Blocks, b: nat)
    requires b < |s|
    ensures ReadBlocks(s, [b]) == s[b]
  {
    assert [b][..0] == [];
    assert ReadBlocks(s, [b]) == ReadBlocks(s, []) + s[b];
  }

  lemma RecordsNext(p: DiskParams, es: seq<DirEntry>, i: nat)
    requires i < |es|
    ensures RecordsOf(p, es[..i + 1]) == RecordsOf(p, es[..i]) + |Allocated(es[i].blockPointers)| * SectorsPerBlock(p)
    ensures FilePointers(es[..i + 1]) == FilePointers(es[..i]) + Allocated(es[i].blockPointers)
  {
    assert es[..i + 1][..i] == es[..i];
  }

  // ---- searching the listing -----------------------------------------------

  /** A sound volume whose file names are printable. */
  ghost predicate ReadableStore(p: DiskParams, s: Blocks) {
    SoundStore(p, s) && PrintableDir(DirView(p, s))
  }

  function CutTo(data: seq<byte>, size: nat): seq<byte> {
    if size <= |data| then data[..size] else data
  }

  /** The content of a file of the volume. */
  ghost function ContentOf(p: DiskParams, s: Blocks, key: Key): Option<seq<byte>>
    requires SoundStore(p, s)
  {
    if key in Volume(p, s) then Some(Volume(p, s)[key].content) else None
  }

  /** The bytes a listed file names, when its pointers stay on the disk. */
  ghost function DataOf(p: DiskParams, s: Blocks, file: CpmFile): Option<seq<byte>>
    requires ValidParams(p) && IsStore(p, s)
  {
    if AllBelow(FilePointers(file.extents), TotalBlocks(p))
    then Some(CutTo(ReadBlocks(s, FilePointers(file.extents)), file.size)) else None
  }

  /** The outcome of a search: the file's listing, or nothing because the volume does not have it. */
  ghost predicate FoundBy(p: DiskParams, s: Blocks, key: Key, file: Option<CpmFile>)
    requires SoundStore(p, s)
  {
    match file
    case None => ContentOf(p, s, key) == None
    case Some(f) => DataOf(p, s, f).Some? && ContentOf(p, s, key) == DataOf(p, s, f)
  }

  lemma AskedKeys(p: DiskParams, s: Blocks, files: seq<CpmFile>, keys: seq<Key>, filename: seq<byte>, ext: seq<byte>, user: byte, j: nat)
    requires ReadableStore(p, s) && ListedSo(p, DirView(p, s), files, keys, {}) && j < |files|
    ensures Asked(files[j], filename, ext, user) <==> keys[j] == FileKey(filename, ext, user)
  {
    var dir := DirView(p, s);
    assert keys[j] in keys;
    assert keys[j] in LiveKeys(dir) - {};
    var k :| 0 <= k < |dir| && Live(dir[k]) && KeyOf(dir[k]) == keys[j];
    assert WellFormedEntry(UsesLargePointers(p), dir[k]);
    ListedIsAsked(keys[j], filename, ext, user);
  }

  lemma AskedExists(p: DiskParams, s: Blocks, files: seq<CpmFile>, keys: seq<Key>, key: Key) returns (j: nat)
    requires SoundStore(p, s) && ListedSo(p, DirView(p, s), files, keys, {}) && key in Volume(p, s)
    ensures j < |keys| && keys[j] == key
  {
    assert key in keys;
    j :| 0 <= j < |keys| && keys[j] == key;
  }

  lemma ListedContent(p: DiskParams, s: Blocks, file: CpmFile, key: Key)
    requires SoundStore(p, s) && key in Volume(p, s)
    requires ExtentsOf(DirView(p, s), key) != [] && file == Listed(p, DirView(p, s), key)
    ensures ContentOf(p, s, key) == DataOf(p, s, file) && DataOf(p, s, file).Some?
  {
    FilePointersInRange(p, DirView(p, s), key);
  }

  /** The search of the listing stops at the file asked for, or finds that there is none. */
  lemma LookupFinds(p: DiskParams, s: Blocks, files: seq<CpmFile>, keys: seq<Key>, i: nat,
                    filename: seq<byte>, ext: seq<byte>, user: byte)
    requires ReadableStore(p, s) && ListedSo(p, DirView(p, s), files, keys, {}) && i <= |files|
    requires forall j :: 0 <= j < i ==> !Asked(files[j], filename, ext, user)
    requires i < |files| ==> Asked(files[i], filename, ext, user)
    ensures FoundBy(p, s, FileKey(filename, ext, user), if i < |files| then Some(files[i]) else None)
  {
    var key := FileKey(filename, ext, user);
    if i < |files| {
      AskedKeys(p, s, files, keys, filename, ext, user, i);
      assert keys[i] in keys;
      ListedContent(p, s, files[i], key);
    } else if key in Volume(p, s) {
      var j := AskedExists(p, s, files, keys, key);
      AskedKeys(p, s, files, keys, filename, ext, user, j);
    }
  }

  /** The listing reports the size and the attributes of the file it names. */
  lemma ListingAgrees(p: DiskParams, s: Blocks, files: seq<CpmFile>, keys: seq<Key>, i: nat)
    requires SoundStore(p, s) && ListedSo(p, DirView(p, s), files, keys, {}) && i < |files|
    ensures keys[i] in Volume(p, s)
    ensures var rec := Volume(p, s)[keys[i]];
            files[i].size == rec.size && files[i].readonly == rec.readonly
            && files[i].system == rec.system && files[i].archive == rec.archive
  {
    assert keys[i] in keys;
  }

  // ---- the order of the listing --------------------------------------------

  /** Whether the first name comes no later than the second; which names do is the locale's affair. */
  type Collation = (seq<byte>, seq<byte>) -> bool

  ghost predicate Collates(c: Collation) {
    && (forall a, b :: c(a, b) || c(b, a))
    && (forall a, b, d :: c(a, b) && c(b, d) ==> c(a, d))
  }

  function FullName(f: CpmFile): seq<byte> {
    f.filename + [DOT] + f.extension
  }

  /** By user, then by name. */
  predicate NotAfter(c: Collation, f: CpmFile, g: CpmFile) {
    if f.user != g.user then f.user < g.user else c(FullName(f), FullName(g))
  }

  predicate InOrder(c: Collation, files: seq<CpmFile>) {
    forall i, j :: 0 <= i < j < |files| ==> NotAfter(c, files[i], files[j])
  }

  /** In a listing the users rise, and the names of one user are collated as name, dot and type. */
  lemma ListingOrder(c: Collation, files: seq<CpmFile>, i: nat, j: nat)
    requires InOrder(c, files) && i < j < |files|
    ensures files[i].user <= files[j].user
    ensures files[i].user == files[j].user ==>
              c(files[i].filename + [46] + files[i].extension, files[j].filename + [46] + files[j].extension)
  {
  }

  /** Where a file goes: before the first that comes after it. */
  function PlaceOf(c: Collation, files: seq<CpmFile>, f: CpmFile): (pos: nat)
    ensures pos <= |files|
    ensures forall i :: 0 <= i < pos ==> NotAfter(c, files[i], f)
    ensures pos < |files| ==> !NotAfter(c, files[pos], f)
  {
    if files == [] || !NotAfter(c, files[0], f) then 0 else 1 + PlaceOf(c, files[1..], f)
  }

  function InsertAt<T>(s: seq<T>, pos: nat, x: T): (r: seq<T>)
    requires pos <= |s|
    ensures |r| == |s| + 1 && multiset(r) == multiset(s) + multiset{x}
    ensures forall i :: 0 <= i < |r| ==> r[i] == if i < pos then s[i] else if i == pos then x else s[i - 1]
  {
    assert s == s[..pos] + s[pos..];
    s[..pos] + [x] + s[pos..]
  }

  lemma InsertKeepsListingOrder(c: Collation, files: seq<CpmFile>, f: CpmFile)
    requires Collates(c) && InOrder(c, files)
    ensures InOrder(c, InsertAt(files, PlaceOf(c, files, f), f))
  {
    var pos := PlaceOf(c, files, f);
    forall j | pos <= j < |files|
      ensures NotAfter(c, f, files[j])
    {
      AfterIsBefore(c, files[pos], f);
      if j > pos { NotAfterTransitive(c, f, files[pos], files[j]); }
    }
    InsertedInOrder(c, files, f, pos);
  }

  lemma AfterIsBefore(c: Collation, f: CpmFile, g: CpmFile)
    requires Collates(c) && !NotAfter(c, f, g)
    ensures NotAfter(c, g, f)
  {
  }

  lemma NotAfterTransitive(c: Collation, f: CpmFile, g: CpmFile, h: CpmFile)
    requires Collates(c) && NotAfter(c, f, g) && NotAfter(c, g, h)
    ensures NotAfter(c, f, h)
  {
  }

  lemma InsertedInOrder(c: Collation, files: seq<CpmFile>, f: CpmFile, pos: nat)
    requires InOrder(c, files) && pos <= |files|
    requires forall i :: 0 <= i < pos ==> NotAfter(c, files[i], f)
    requires forall j :: pos <= j < |files| ==> NotAfter(c, f, files[j])
    ensures InOrder(c, InsertAt(files, pos, f))
  {
  }

  /** A rearranged listing lists the same files. */
  lemma ListedInAnyOrder(p: DiskParams, dir: Dir, files: seq<CpmFile>, keys: seq<Key>, left: set<Key>, sorted: seq<CpmFile>, order: seq<Key>)
    requires ListedSo(p, dir, files, keys, left)
    requires EachListed(p, dir, sorted, order) && multiset(order) == multiset(keys)
    ensures ListedSo(p, dir, sorted, order, left)
  {
    forall key
      ensures key in order <==> key in keys
    {
      assert key in multiset(order) <==> key in multiset(keys);
    }
    forall i, j | 0 <= i < j < |order|
      ensures order[i] != order[j]
    {
      if order[i] == order[j] { TwiceInMultiset(order, i, j); OnceInMultiset(keys, order[i]); }
    }
  }

  lemma TwiceInMultiset<T>(s: seq<T>, i: nat, j: nat)
    requires i < j < |s| && s[i] == s[j]
    ensures multiset(s)[s[i]] >= 2
  {
    assert s == s[..j] + s[j..];
    assert s[..j][i] == s[i] && s[j..][0] == s[i];
    assert multiset(s) == multiset(s[..j]) + multiset(s[j..]);
  }

  lemma {:induction false} OnceInMultiset<T>(s: seq<T>, x: T)
    requires forall i, j :: 0 <= i < j < |s| ==> s[i] != s[j]
    ensures multiset(s)[x] <= 1
  {
    if s != [] {
      var front, last := s[..|s| - 1], s[|s| - 1];
      OnceInMultiset(front, x);
      assert s == front + [last];
      forall i | 0 <= i < |front|
        ensures front[i] != last
      {
        assert s[i] != s[|s| - 1];
      }
    }
  }

  ghost predicate PairIn<F, K>(files: seq<F>, keys: seq<K>, f: F, k: K) {
    exists j :: 0 <= j < |files| && j < |keys| && files[j] == f && keys[j] == k
  }

  /** The pairs of the one are pairs of the other. */
  ghost predicate PairsOf<F, K>(files: seq<F>, keys: seq<K>, sorted: seq<F>, order: seq<K>) {
    |sorted| == |order| && forall i :: 0 <= i < |sorted| ==> PairIn(files, keys, sorted[i], order[i])
  }

  /** One more file sorted in. */
  lemma SortNext<F, K>(files: seq<F>, keys: seq<K>, sorted: seq<F>, order: seq<K>, i: nat, pos: nat)
    requires i < |files| == |keys| && pos <= |sorted| && PairsOf(files, keys, sorted, order) && multiset(order) == multiset(keys[..i])
    ensures PairsOf(files, keys, InsertAt(sorted, pos, files[i]), InsertAt(order, pos, keys[i]))
    ensures multiset(InsertAt(order, pos, keys[i])) == multiset(keys[..i + 1])
  {
    var after, then' := InsertAt(sorted, pos, files[i]), InsertAt(order, pos, keys[i]);
    assert keys[..i + 1] == keys[..i] + [keys[i]];
    forall x | 0 <= x < |after|
      ensures PairIn(files, keys, after[x], then'[x])
    {
      if x < pos {
        assert PairIn(files, keys, sorted[x], order[x]);
      } else if x > pos {
        assert PairIn(files, keys, sorted[x - 1], order[x - 1]);
      }
    }
  }

  lemma PairsListed(p: DiskParams, dir: Dir, files: seq<CpmFile>, keys: seq<Key>, sorted: seq<CpmFile>, order: seq<Key>)
    requires EachListed(p, dir, files, keys) && PairsOf(files, keys, sorted, order)
    ensures EachListed(p, dir, sorted, order)
  {
    forall i | 0 <= i < |order|
      ensures ExtentsOf(dir, order[i]) != [] && sorted[i] == Listed(p, dir, order[i])
    {
      assert PairIn(files, keys, sorted[i], order[i]);
      var j :| 0 <= j < |files| && files[j] == sorted[i] && keys[j] == order[i];
    }
  }
}
