/** The operator's mount table and the per-client overrides, each entry stamped with an epoch. */
module Registries {
  import opened Bytes
  import opened FileStore

  datatype MountEntry = MountEntry(image: Image, readonly: bool, epoch: nat)

  // ---- epochs over runs ----------------------------------------------------

  /** A table as its lookups, and the last epoch handed out. */
  datatype Snapshot<!K> = Snapshot(at: K -> Option<MountEntry>, counter: nat)

  /** Epochs were handed out, and no two places hold the same one. */
  ghost predicate Stamped<K(!new)>(s: Snapshot<K>) {
    && (forall k :: s.at(k).Some? ==> 0 < s.at(k).value.epoch <= s.counter)
    && (forall k, l :: s.at(k).Some? && s.at(l).Some? && s.at(k).value.epoch == s.at(l).value.epoch ==> k == l)
  }

  /** A change of the table: what is there afterwards was there before or bears a new epoch of its own. */
  ghost predicate Changes<K(!new)>(s: Snapshot<K>, t: Snapshot<K>) {
    && s.counter <= t.counter
    && (forall k :: t.at(k).Some? && t.at(k) != s.at(k) ==> s.counter < t.at(k).value.epoch <= t.counter)
    && (forall k, l ::
          (t.at(k).Some? && t.at(l).Some? && s.counter < t.at(k).value.epoch && t.at(k).value.epoch == t.at(l).value.epoch)
          ==> k == l)
  }

  ghost predicate History<K(!new)>(h: seq<Snapshot<K>>) {
    h != [] && Stamped(h[0]) && forall i :: 0 <= i < |h| - 1 ==> Changes(h[i], h[i + 1])
  }

  lemma ChangesKeepStamped<K(!new)>(s: Snapshot<K>, t: Snapshot<K>)
    requires Stamped(s) && Changes(s, t)
    ensures Stamped(t)
  {
    forall k, l | t.at(k).Some? && t.at(l).Some? && t.at(k).value.epoch == t.at(l).value.epoch
      ensures k == l
    {
      if t.at(k).value.epoch <= s.counter {
        assert t.at(k) == s.at(k) && t.at(l) == s.at(l);
      }
    }
  }

  /** Dropping entries is a change. */
  lemma DroppingChanges<K(!new)>(s: Snapshot<K>, t: Snapshot<K>)
    requires Stamped(s) && t.counter == s.counter
    requires forall k :: t.at(k).Some? ==> t.at(k) == s.at(k)
    ensures Changes(s, t) && Stamped(t)
  {
  }

  lemma {:induction false} HistoryStamped<K(!new)>(h: seq<Snapshot<K>>, i: nat)
    requires History(h) && i < |h|
    ensures Stamped(h[i])
  {
    if i > 0 {
      HistoryStamped(h, i - 1);
      ChangesKeepStamped(h[i - 1], h[i]);
    }
  }

  /** An old epoch seen later is the entry that bore it, in its old place. */
  lemma {:induction false} OldEntryUnchanged<K(!new)>(h: seq<Snapshot<K>>, i: nat, j: nat, k: K)
    requires History(h) && i <= j < |h|
    requires h[j].at(k).Some? && h[j].at(k).value.epoch <= h[i].counter
    ensures h[i].at(k) == h[j].at(k)
    decreases j - i
  {
    if i < j {
      CounterGrows(h, i, j - 1);
      OldEntryUnchanged(h, i, j - 1, k);
    }
  }

  lemma {:induction false} CounterGrows<K(!new)>(h: seq<Snapshot<K>>, i: nat, j: nat)
    requires History(h) && i <= j < |h|
    ensures h[i].counter <= h[j].counter
    decreases j - i
  {
    if i < j {
      CounterGrows(h, i, j - 1);
    }
  }

  /**
   Epochs are never reused: entries seen anywhere, at any two times of a run,
   bear the same epoch only if they are the same entry in the same place.
   */
  lemma EpochsNeverReused<K(!new)>(h: seq<Snapshot<K>>, i: nat, j: nat, k: K, l: K)
    requires History(h) && i <= j < |h|
    requires h[i].at(k).Some? && h[j].at(l).Some? && h[i].at(k).value.epoch == h[j].at(l).value.epoch
    ensures k == l && h[i].at(k) == h[j].at(l)
  {
    HistoryStamped(h, i);
    OldEntryUnchanged(h, i, j, l);
  }

  // ---- the global table ----------------------------------------------------

  function MountAt(mounts: map<nat, MountEntry>, drive: nat): Option<MountEntry> {
    if drive in mounts then Some(mounts[drive]) else None
  }

  function GlobalSnapshot(mounts: map<nat, MountEntry>, counter: nat): Snapshot<nat> {
    Snapshot((drive: nat) => MountAt(mounts, drive), counter)
  }

  class MountRegistry {
    var mounts: map<nat, MountEntry>
    var epochCounter: nat

    constructor ()
      ensures mounts == map[] && epochCounter == 0
    {
      mounts, epochCounter := map[], 0;
    }

    /** Epochs of the table are in order; every method keeps it so. */
    ghost predicate Valid()
      reads this
    {
      Stamped(GlobalSnapshot(mounts, epochCounter))
    }

    method Set(drive: nat, image: Image, readonly: bool)
      requires Valid()
      modifies this
      ensures epochCounter == old(epochCounter) + 1
      ensures mounts == old(mounts)[drive := MountEntry(image, readonly, epochCounter)]
      ensures Valid() && Changes(old(GlobalSnapshot(mounts, epochCounter)), GlobalSnapshot(mounts, epochCounter))
    {
      ghost var before := GlobalSnapshot(mounts, epochCounter);
      epochCounter := epochCounter + 1;
      mounts := mounts[drive := MountEntry(image, readonly, epochCounter)];
      ChangesKeepStamped(before, GlobalSnapshot(mounts, epochCounter));
    }

    method SetReadonly(drive: nat, readonly: bool)
      requires Valid()
      modifies this
      ensures if drive in old(mounts) && old(mounts)[drive].readonly != readonly
              then epochCounter == old(epochCounter) + 1
                   && mounts == old(mounts)[drive := MountEntry(old(mounts)[drive].image, readonly, epochCounter)]
              else mounts == old(mounts) && epochCounter == old(epochCounter)
      ensures Valid() && Changes(old(GlobalSnapshot(mounts, epochCounter)), GlobalSnapshot(mounts, epochCounter))
    {
      if drive !in mounts || mounts[drive].readonly == readonly {
        return;
      }
      ghost var before := GlobalSnapshot(mounts, epochCounter);
      epochCounter := epochCounter + 1;
      mounts := mounts[drive := mounts[drive].(readonly := readonly, epoch := epochCounter)];
      ChangesKeepStamped(before, GlobalSnapshot(mounts, epochCounter));
    }

    method Clear(drive: nat)
      requires Valid()
      modifies this
      ensures mounts == old(mounts) - {drive} && epochCounter == old(epochCounter)
      ensures Valid() && Changes(old(GlobalSnapshot(mounts, epochCounter)), GlobalSnapshot(mounts, epochCounter))
    {
      ghost var before := GlobalSnapshot(mounts, epochCounter);
      mounts := mounts - {drive};
      ChangesKeepStamped(before, GlobalSnapshot(mounts, epochCounter));
    }
  }

  // ---- the overrides -------------------------------------------------------

  /** One client's override of one drive. */
  datatype Slot = Slot(client: string, drive: nat)

  type Overrides = map<string, map<nat, MountEntry>>

  function OverrideAt(m: Overrides, slot: Slot): Option<MountEntry> {
    if slot.client in m && slot.drive in m[slot.client] then Some(m[slot.client][slot.drive]) else None
  }

  function OverrideSnapshot(m: Overrides, counter: nat): Snapshot<Slot> {
    Snapshot((slot: Slot) => OverrideAt(m, slot), counter)
  }

  /** A client's drives replaced; a client with none is dropped. */
  ghost function WithDrives(m: Overrides, client: string, drives: map<nat, MountEntry>): Overrides {
    if |drives| == 0 then m - {client} else m[client := drives]
  }

  lemma WithDrivesPoints(m: Overrides, client: string, drives: map<nat, MountEntry>)
    ensures forall slot :: OverrideAt(WithDrives(m, client, drives), slot)
                           == if slot.client == client then MountAt(drives, slot.drive) else OverrideAt(m, slot)
  {
  }

  /** Only clients with overrides are kept, and the others are not touched. */
  lemma EmptyClientGoes(m: Overrides, client: string, drives: map<nat, MountEntry>, other: string)
    ensures client in WithDrives(m, client, drives) <==> exists d :: d in drives
    ensures other != client ==> (other in WithDrives(m, client, drives) <==> other in m)
  {
    assert drives != map[] ==> exists d :: d in drives;
  }

  lemma WithDrivesChanges(m: Overrides, client: string, drives: map<nat, MountEntry>, counter: nat)
    requires Stamped(OverrideSnapshot(m, counter))
    requires forall d :: d in drives ==> OverrideAt(m, Slot(client, d)) == Some(drives[d])
    ensures var s, t := OverrideSnapshot(m, counter), OverrideSnapshot(WithDrives(m, client, drives), counter);
            Changes(s, t) && Stamped(t)
  {
    WithDrivesPoints(m, client, drives);
    DroppingChanges(OverrideSnapshot(m, counter), OverrideSnapshot(WithDrives(m, client, drives), counter));
  }

  lemma OverrideSet(m: Overrides, client: string, drive: nat, entry: MountEntry)
    ensures var drives := if client in m then m[client] else map[];
            forall slot :: OverrideAt(m[client := drives[drive := entry]], slot)
                           == if slot == Slot(client, drive) then Some(entry) else OverrideAt(m, slot)
  {
    var drives := if client in m then m[client] else map[];
    forall slot
      ensures OverrideAt(m[client := drives[drive := entry]], slot) == if slot == Slot(client, drive) then Some(entry) else OverrideAt(m, slot)
    {
      if slot.client == client && slot.drive != drive { assert slot.drive in drives[drive := entry] <==> slot.drive in drives; }
    }
  }

  class ClientMountRegistry {
    var byClient: Overrides
    var epochCounter: nat

    constructor ()
      ensures byClient == map[] && epochCounter == 0
    {
      byClient, epochCounter := map[], 0;
    }

    ghost predicate Valid()
      reads this
    {
      Stamped(OverrideSnapshot(byClient, epochCounter))
    }

    method Set(client: string, drive: nat, image: Image, readonly: bool)
      requires Valid()
      modifies this
      ensures epochCounter == old(epochCounter) + 1
      ensures forall slot :: OverrideAt(byClient, slot)
                             == if slot == Slot(client, drive) then Some(MountEntry(image, readonly, epochCounter))
                                else OverrideAt(old(byClient), slot)
      ensures Valid() && Changes(old(OverrideSnapshot(byClient, epochCounter)), OverrideSnapshot(byClient, epochCounter))
    {
      ghost var before := OverrideSnapshot(byClient, epochCounter);
      var drives := if client in byClient then byClient[client] else map[];
      epochCounter := epochCounter + 1;
      OverrideSet(byClient, client, drive, MountEntry(image, readonly, epochCounter));
      byClient := byClient[client := drives[drive := MountEntry(image, readonly, epochCounter)]];
      ChangesKeepStamped(before, OverrideSnapshot(byClient, epochCounter));
    }

    /** Replaces a client's drives; a client with none is dropped. */
    method ReplaceDrives(client: string, drives: map<nat, MountEntry>)
      requires Valid()
      requires forall d :: d in drives ==> OverrideAt(byClient, Slot(client, d)) == Some(drives[d])
      modifies this
      ensures epochCounter == old(epochCounter)
      ensures forall slot :: OverrideAt(byClient, slot)
                             == if slot.client == client then MountAt(drives, slot.drive) else OverrideAt(old(byClient), slot)
      ensures byClient == WithDrives(old(byClient), client, drives)
      ensures Valid() && Changes(old(OverrideSnapshot(byClient, epochCounter)), OverrideSnapshot(byClient, epochCounter))
    {
      WithDrivesPoints(byClient, client, drives);
      WithDrivesChanges(byClient, client, drives, epochCounter);
      byClient := if |drives| == 0 then byClient - {client} else byClient[client := drives];
    }

    method Clear(client: string, drive: nat)
      requires Valid()
      modifies this
      ensures epochCounter == old(epochCounter)
      ensures forall slot :: OverrideAt(byClient, slot)
                             == if slot == Slot(client, drive) then None else OverrideAt(old(byClient), slot)
      ensures Valid() && Changes(old(OverrideSnapshot(byClient, epochCounter)), OverrideSnapshot(byClient, epochCounter))
    {
      if client !in byClient {
        return;
      }
      ReplaceDrives(client, byClient[client] - {drive});
    }

    method ClearClient(client: string)
      requires Valid()
      modifies this
      ensures epochCounter == old(epochCounter)
      ensures forall slot :: OverrideAt(byClient, slot)
                             == if slot.client == client then None else OverrideAt(old(byClient), slot)
      ensures Valid() && Changes(old(OverrideSnapshot(byClient, epochCounter)), OverrideSnapshot(byClient, epochCounter))
    {
      ghost var before := OverrideSnapshot(byClient, epochCounter);
      byClient := byClient - {client};
      ChangesKeepStamped(before, OverrideSnapshot(byClient, epochCounter));
    }

    /** Drops every override of an image, by base name. */
    method ClearByBasename(name: string)
      requires Valid()
      modifies this
      ensures epochCounter == old(epochCounter)
      ensures forall slot :: OverrideAt(byClient, slot) == WithoutName(OverrideAt(old(byClient), slot), name)
      ensures Valid() && Changes(old(OverrideSnapshot(byClient, epochCounter)), OverrideSnapshot(byClient, epochCounter))
    {
      ghost var m := byClient;
      var clients := byClient.Keys;
      while clients != {}
        invariant epochCounter == old(epochCounter) && Valid()
        invariant forall c :: c in clients ==> c in byClient && c in m && byClient[c] == m[c]
        invariant forall slot :: OverrideAt(byClient, slot)
                                 == if slot.client in clients then OverrideAt(m, slot) else WithoutName(OverrideAt(m, slot), name)
        decreases |clients|
      {
        var c :| c in clients;
        var drives := map d | d in byClient[c] && byClient[c][d].image.name != name :: byClient[c][d];
        ReplaceDrives(c, drives);
        clients := clients - {c};
      }
      ChangesKeepStamped(OverrideSnapshot(m, epochCounter), OverrideSnapshot(byClient, epochCounter));
    }

    /** Points every override of a renamed image at its new path, each with a new epoch. */
    method RenameByBasename(name: string, image: Image)
      requires Valid()
      modifies this
      ensures Renamed(old(byClient), old(epochCounter), byClient, epochCounter, name, image, {})
      ensures Valid() && Changes(old(OverrideSnapshot(byClient, epochCounter)), OverrideSnapshot(byClient, epochCounter))
    {
      ghost var m, start := byClient, epochCounter;
      var left := set c, d | c in byClient && d in byClient[c] && byClient[c][d].image.name == name :: Slot(c, d);
      while left != {}
        invariant Valid()
        invariant Renamed(m, start, byClient, epochCounter, name, image, left)
        decreases |left|
      {
        var slot :| slot in left;
        RenameOne(slot, name, image, left, m, start);
        left := left - {slot};
      }
      RenamedChanges(m, start, byClient, epochCounter, name, image);
    }

    method RenameOne(slot: Slot, name: string, image: Image, left: set<Slot>, ghost m: Overrides, ghost start: nat)
      requires Valid() && Renamed(m, start, byClient, epochCounter, name, image, left) && slot in left
      modifies this
      ensures Valid() && Renamed(m, start, byClient, epochCounter, name, image, left - {slot})
    {
      ghost var before := OverrideSnapshot(byClient, epochCounter);
      assert OverrideAt(byClient, slot).Some?;
      var entry := byClient[slot.client][slot.drive];
      epochCounter := epochCounter + 1;
      byClient := byClient[slot.client := byClient[slot.client][slot.drive := MountEntry(image, entry.readonly, epochCounter)]];
      ChangesKeepStamped(before, OverrideSnapshot(byClient, epochCounter));
    }
  }

  /** Every override of an image of that name, but for those in left, has become one of image with a new epoch. */
  ghost predicate Renamed(m: Overrides, start: nat, t: Overrides, counter: nat, name: string, image: Image, left: set<Slot>) {
    && start <= counter
    && (forall slot :: slot in left ==> OverrideAt(m, slot).Some? && OverrideAt(m, slot).value.image.name == name)
    && (forall slot :: OverrideAt(t, slot).Some? <==> OverrideAt(m, slot).Some?)
    && (forall slot :: OverrideAt(m, slot).Some? ==>
          var was, now := OverrideAt(m, slot).value, OverrideAt(t, slot).value;
          if was.image.name == name && slot !in left
          then now.image == image && now.readonly == was.readonly && start < now.epoch <= counter
          else now == was)
  }

  lemma RenamedChanges(m: Overrides, start: nat, t: Overrides, counter: nat, name: string, image: Image)
    requires Renamed(m, start, t, counter, name, image, {})
    requires Stamped(OverrideSnapshot(t, counter))
    ensures Changes(OverrideSnapshot(m, start), OverrideSnapshot(t, counter))
  {
    var s', t' := OverrideSnapshot(m, start), OverrideSnapshot(t, counter);
    forall k: Slot | t'.at(k).Some? && t'.at(k) != s'.at(k)
      ensures s'.counter < t'.at(k).value.epoch <= t'.counter
    {
      assert OverrideAt(m, k).Some?;
    }
  }

  function WithoutName(entry: Option<MountEntry>, name: string): Option<MountEntry> {
    if entry.Some? && entry.value.image.name == name then None else entry
  }

  /** Dropping an image by its base name leaves exactly the overrides of other names, as they were. */
  lemma NoneOfThatName(m: Overrides, t: Overrides, name: string, slot: Slot)
    requires forall s :: OverrideAt(t, s) == WithoutName(OverrideAt(m, s), name)
    ensures OverrideAt(t, slot).Some? <==> OverrideAt(m, slot).Some? && OverrideAt(m, slot).value.image.name != name
    ensures OverrideAt(t, slot).Some? ==> OverrideAt(t, slot) == OverrideAt(m, slot)
  {
  }

  /** Renaming one moves exactly its overrides, which stay as read-only as they were and count as new. */
  lemma AllOfThatName(m: Overrides, start: nat, t: Overrides, counter: nat, name: string, image: Image, slot: Slot)
    requires Renamed(m, start, t, counter, name, image, {})
    ensures OverrideAt(m, slot).None? ==> OverrideAt(t, slot).None?
    ensures OverrideAt(m, slot).Some? ==>
              var was := OverrideAt(m, slot).value;
              && OverrideAt(t, slot).Some?
              && (was.image.name != name ==> OverrideAt(t, slot) == Some(was))
              && (was.image.name == name ==>
                    OverrideAt(t, slot) == Some(MountEntry(image, was.readonly, OverrideAt(t, slot).value.epoch))
                    && OverrideAt(t, slot).value.epoch > start)
  {
  }
}
