/** Changing the directory: marking a file's entries deleted and placing new ones in free slots. */
module DirectoryPlan {
  import opened Bytes
  import opened DiskGeometry
  import opened Directory
  import opened FileView

  // ---- deleting ------------------------------------------------------------

  /** Deleting goes by the status byte and the name, whether or not the status is a user area. */
  function Erased(e: DirEntry, key: Key): DirEntry {
    if KeyOf(e) == key then e.(status := DELETED) else e
  }

  function EraseFile(dir: Dir, key: Key): (r: Dir)
    ensures |r| == |dir|
    ensures forall k :: 0 <= k < |dir| ==> r[k] == Erased(dir[k], key)
  {
    seq(|dir|, k requires 0 <= k < |dir| => Erased(dir[k], key))
  }

  predicate Named(dir: Dir, key: Key) {
    exists k :: 0 <= k < |dir| && KeyOf(dir[k]) == key
  }

  /** For a user area, an entry of that name is an entry of a file. */
  lemma NamedIsLive(dir: Dir, key: Key)
    ensures key in LiveKeys(dir) <==> Named(dir, key) && key.user <= 0x1F
  {
    if Named(dir, key) && key.user <= 0x1F {
      var k :| 0 <= k < |dir| && KeyOf(dir[k]) == key;
      assert Live(dir[k]);
    }
  }

  /** Only the erased file's entries go; every other file keeps its own, in the same order. */
  lemma EraseExtents(dir: Dir, key: Key, other: Key)
    ensures ExtentsOf(EraseFile(dir, key), other) == if other == key then [] else ExtentsOf(dir, other)
  {
    var r := EraseFile(dir, key);
    if other == key {
      if ExtentsOf(r, key) != [] {
        ExtentsMatch(r, key, ExtentsOf(r, key)[0]);
      }
    } else {
      ExtentsAgree(dir, r, other);
    }
  }

  lemma EraseUse(dir: Dir, key: Key, k: int, x: int)
    ensures InUse(EraseFile(dir, key), k, x) <==> InUse(dir, k, x) && !Matches(dir[k], key)
  {
  }

  lemma EraseSound(p: DiskParams, dir: Dir, key: Key)
    requires ValidParams(p) && SoundDir(p, dir)
    ensures SoundDir(p, EraseFile(dir, key))
  {
    var r := EraseFile(dir, key);
    forall k, x | InUse(r, k, x)
      ensures InUse(dir, k, x) && r[k].blockPointers == dir[k].blockPointers
    {
      EraseUse(dir, key, k, x);
    }
  }

  // ---- placing -------------------------------------------------------------

  /** `entries.findIndex(e => e.status === 0xE5)`. */
  function FindDeleted(dir: Dir, from: nat): (slot: Option<nat>)
    requires from <= |dir|
    ensures slot.Some? ==> from <= slot.value < |dir| && dir[slot.value].status == DELETED
    ensures slot.Some? ==> forall k :: from <= k < slot.value ==> dir[k].status != DELETED
    ensures slot.None? ==> forall k :: from <= k < |dir| ==> dir[k].status != DELETED
    decreases |dir| - from
  {
    if from == |dir| then None
    else if dir[from].status == DELETED then Some(from)
    else FindDeleted(dir, from + 1)
  }

  /** Each entry in turn goes to the first deleted slot; None when the slots run out. */
  function Place(dir: Dir, es: seq<DirEntry>): (r: Option<Dir>)
    ensures r.Some? ==> |r.value| == |dir|
  {
    if es == [] then Some(dir)
    else
      match Place(dir, es[..|es| - 1])
      case None => None
      case Some(d) =>
        match FindDeleted(d, 0)
        case None => None
        case Some(slot) => Some(d[slot := es[|es| - 1]])
  }

  function CountDeleted(dir: Dir): nat {
    if dir == [] then 0 else CountDeleted(dir[..|dir| - 1]) + if dir[|dir| - 1].status == DELETED then 1 else 0
  }

  lemma {:induction false} CountAfterPlacing(dir: Dir, slot: nat, e: DirEntry)
    requires slot < |dir| && dir[slot].status == DELETED && e.status != DELETED
    ensures CountDeleted(dir[slot := e]) == CountDeleted(dir) - 1
  {
    var last := |dir| - 1;
    if slot == last {
      assert dir[slot := e][..last] == dir[..last];
    } else {
      assert dir[slot := e][..last] == dir[..last][slot := e];
      CountAfterPlacing(dir[..last], slot, e);
    }
  }

  lemma {:induction false} NoneDeleted(dir: Dir)
    ensures CountDeleted(dir) == 0 <==> FindDeleted(dir, 0).None?
  {
    if dir != [] {
      var front := dir[..|dir| - 1];
      NoneDeleted(front);
      var found, before := FindDeleted(dir, 0), FindDeleted(front, 0);
      if before.Some? {
        assert dir[before.value].status == DELETED;
      }
      if found.Some? && found.value < |front| {
        assert front[found.value].status == DELETED;
      }
    }
  }

  ghost predicate AllBear(es: seq<DirEntry>, key: Key) {
    forall i :: 0 <= i < |es| ==> KeyOf(es[i]) == key
  }

  /** Placing succeeds exactly when there is a deleted slot for every entry, and uses that many. */
  lemma {:induction false} PlaceSucceeds(dir: Dir, es: seq<DirEntry>, key: Key)
    requires AllBear(es, key) && key.user != DELETED
    ensures Place(dir, es).Some? <==> |es| <= CountDeleted(dir)
    ensures Place(dir, es).Some? ==> CountDeleted(Place(dir, es).value) == CountDeleted(dir) - |es|
  {
    if es != [] {
      PlaceSucceeds(dir, es[..|es| - 1], key);
      var before := Place(dir, es[..|es| - 1]);
      if before.Some? {
        NoneDeleted(before.value);
        var slot := FindDeleted(before.value, 0);
        if slot.Some? {
          CountAfterPlacing(before.value, slot.value, es[|es| - 1]);
        }
      }
    }
  }

  /** The slots of dir that were deleted before placing may change, and take entries of es; no others do. */
  lemma {:induction false} PlaceChanges(dir: Dir, es: seq<DirEntry>, k: nat)
    requires Place(dir, es).Some? && k < |dir|
    ensures Place(dir, es).value[k] == dir[k] || (dir[k].status == DELETED && Place(dir, es).value[k] in es)
  {
    if es != [] {
      PlaceChanges(dir, es[..|es| - 1], k);
    }
  }

  /** Other files keep their entries. */
  lemma PlaceKeepsOthers(dir: Dir, es: seq<DirEntry>, key: Key, other: Key)
    requires Place(dir, es).Some? && AllBear(es, key) && other != key
    ensures ExtentsOf(Place(dir, es).value, other) == ExtentsOf(dir, other)
  {
    var r := Place(dir, es).value;
    forall k | 0 <= k < |dir|
      ensures dir[k] == r[k] || (!Matches(dir[k], other) && !Matches(r[k], other))
    {
      PlaceChanges(dir, es, k);
    }
    ExtentsAgree(dir, r, other);
  }

  lemma {:induction false} NoExtents(dir: Dir, key: Key)
    requires forall k :: 0 <= k < |dir| ==> !Matches(dir[k], key)
    ensures ExtentsOf(dir, key) == []
  {
    if dir != [] {
      NoExtents(dir[..|dir| - 1], key);
    }
  }

  /**
   Free slots are taken in rising order, so slot order is the order of es:
   below some slot hi nothing is deleted, and from hi on nothing bears key.
   */
  lemma {:induction false} PlaceInOrder(dir: Dir, es: seq<DirEntry>, key: Key) returns (hi: nat)
    requires Place(dir, es).Some? && AllBear(es, key) && Live(DirEntryOf(key))
    requires forall k :: 0 <= k < |dir| ==> !Matches(dir[k], key)
    ensures var r := Place(dir, es).value;
            && hi <= |r|
            && (forall k :: 0 <= k < hi ==> r[k].status != DELETED)
            && (forall k :: hi <= k < |r| ==> !Matches(r[k], key))
            && ExtentsOf(r, key) == es
  {
    if es == [] {
      NoExtents(dir, key);
      hi := 0;
    } else {
      var front, e := es[..|es| - 1], es[|es| - 1];
      var low := PlaceInOrder(dir, front, key);
      var d := Place(dir, front).value;
      var slot := FindDeleted(d, 0).value;
      hi := slot + 1;
      PlacedLast(d, slot, e, key);
      assert es == front + [e];
    }
  }

  /** Any entry of the file; only its status matters. */
  function DirEntryOf(key: Key): DirEntry {
    DirEntry(key.user, key.filename, key.extension, 0, 0, 0, 0, [], false, false, false)
  }

  lemma PlacedLast(d: Dir, slot: nat, e: DirEntry, key: Key)
    requires slot < |d| && KeyOf(e) == key && Live(e)
    requires forall k :: slot <= k < |d| ==> !Matches(d[k], key)
    ensures ExtentsOf(d[slot := e], key) == ExtentsOf(d, key) + [e]
  {
    var r := d[slot := e];
    assert d == d[..slot] + d[slot..];
    assert r == d[..slot] + [e] + d[slot + 1..];
    NoExtents(d[slot..], key);
    NoExtents(d[slot + 1..], key);
    ExtentsConcat(d[..slot], d[slot..], key);
    ExtentsConcat(d[..slot] + [e], d[slot + 1..], key);
    ExtentsConcat(d[..slot], [e], key);
    assert [e][..0] == [];
    assert ExtentsOf([e], key) == ExtentsOf([], key) + [e];
  }

  /** Entries whose status byte is no user area are no file's: the files stay as they are. */
  lemma PlaceHidden(dir: Dir, es: seq<DirEntry>, key: Key, other: Key)
    requires Place(dir, es).Some? && AllBear(es, key) && key.user > 0x1F
    ensures ExtentsOf(Place(dir, es).value, other) == ExtentsOf(dir, other)
  {
    var r := Place(dir, es).value;
    forall k | 0 <= k < |dir|
      ensures dir[k] == r[k] || (!Matches(dir[k], other) && !Matches(r[k], other))
    {
      PlaceChanges(dir, es, k);
    }
    ExtentsAgree(dir, r, other);
  }

  /** The pointers in use after placing are the old ones and those of the new entries. */
  lemma PlaceUse(dir: Dir, es: seq<DirEntry>, k: int, x: int)
    requires Place(dir, es).Some? && InUse(Place(dir, es).value, k, x)
    ensures (InUse(dir, k, x) && Place(dir, es).value[k] == dir[k])
            || (dir[k].status == DELETED && Place(dir, es).value[k] in es)
  {
    PlaceChanges(dir, es, k);
  }

  /** One more entry placed. */
  lemma PlaceNext(dir: Dir, es: seq<DirEntry>, d: nat, before: Dir)
    requires d < |es| && Place(dir, es[..d]) == Some(before)
    ensures Place(dir, es[..d + 1])
            == match FindDeleted(before, 0) case None => None case Some(slot) => Some(before[slot := es[d]])
  {
    assert es[..d + 1][..d] == es[..d];
  }

  /** Once a slot is missing for some entry, placing the whole sequence fails. */
  lemma {:induction false} PlacePrefixFails(dir: Dir, es: seq<DirEntry>, m: nat)
    requires m <= |es| && Place(dir, es[..m]).None?
    ensures Place(dir, es).None?
  {
    if m < |es| {
      var front := es[..|es| - 1];
      assert front[..m] == es[..m];
      PlacePrefixFails(dir, front, m);
    } else {
      assert es[..m] == es;
    }
  }
}
