/** backup followed by restore, as the two commands really meet: backup files its entries under their
    plain names, where restore does not look for them. */
module CpioCycle {
  import opened Words
  import opened Text
  import opened CpioFormat
  import opened Names
  import opened CpioOps
  import opened CpioBackup
  import opened CpioExact
  import opened CpioRestore

  const RMLIST_PATH: Name := BACKUP_SLASH + RMLIST

  ghost predicate AllOutside(m: map<Name, Entry>) {
    forall k :: k in m ==> IsOutside(k)
  }

  lemma RmListPath()
    ensures HasPrefix(RMLIST_PATH, BACKUP_SLASH) && !HasSuffix(RMLIST_PATH, XZ_SUFFIX)
    ensures !IsOutside(RMLIST_PATH) && RMLIST_PATH != BACKUP && !IsSaved(RMLIST_PATH)
    ensures !HasPrefix(BACKUP, BACKUP_SLASH)
  {
    PrefixOfSum(RMLIST);
    var p := RMLIST_PATH;
    assert p[|p| - 3..][2] == 116 && XZ_SUFFIX[2] == 122;
  }

  lemma InsertedKey(a: Archive, extra: map<Name, Entry>, b: Archive, k: Name)
    requires IsInsertion(a, extra, b)
    ensures multiset(b.keys)[k] == multiset(a.keys)[k] + (if k in extra then 1 else 0)
    ensures k in b.keys <==> k in a.keys || k in extra
  {
    assert k in b.keys <==> multiset(b.keys)[k] > 0;
    assert k in a.keys <==> multiset(a.keys)[k] > 0;
  }

  lemma EntriesOfBackup(d: Diff, k: Name)
    requires AllOutside(d.saved)
    ensures k in BackupEntries(d) <==> k == BACKUP || k in d.saved || (k == RMLIST_PATH && d.removed != [])
    ensures RMLIST_PATH in BackupEntries(d) ==> BackupEntries(d)[RMLIST_PATH].data == RmListBytes(d.removed)
  {
    hide RmListBytes, HasPrefix;
    RmListPath();
  }

  /** The archive backup leaves: below .backup there is the rm list and nothing else. */
  lemma OnlyTheListIsBelow(c: Archive, d: Diff, b: Archive)
    requires AllOutside(c.entries) && AllOutside(d.saved) && c.entries.Keys == ToSet(c.keys)
    requires IsInsertion(c, BackupEntries(d), b)
    ensures forall k :: k in b.keys && HasPrefix(k, BACKUP_SLASH) ==> k == RMLIST_PATH
    ensures multiset(b.keys)[RMLIST_PATH] == if d.removed == [] then 0 else 1
    ensures d.removed != [] ==> Lookup(b.entries, RMLIST_PATH).data == RmListBytes(d.removed)
  {
    hide HasPrefix, RmListBytes, BackupEntries;
    RmListPath();
    var extra := BackupEntries(d);
    forall k | k in b.keys && HasPrefix(k, BACKUP_SLASH) ensures k == RMLIST_PATH {
      InsertedKey(c, extra, b, k);
      EntriesOfBackup(d, k);
    }
    assert multiset(c.keys)[RMLIST_PATH] == 0 by { assert RMLIST_PATH !in c.keys; }
    InsertedKey(c, extra, b, RMLIST_PATH);
    EntriesOfBackup(d, RMLIST_PATH);
  }

  lemma BelowIsList(c: Archive, d: Diff, b: Archive)
    requires AllOutside(c.entries) && AllOutside(d.saved) && c.entries.Keys == ToSet(c.keys)
    requires IsInsertion(c, BackupEntries(d), b)
    ensures forall lib :: SavedNames(b.entries, b.keys, lib) == {}
    ensures RmListOf(b.entries, b.keys) == RmListBytes(d.removed)
  {
    hide IsInsertion, BackupEntries, HasPrefix, HasSuffix, AllOutside, Lookup;
    RmListPath();
    OnlyTheListIsBelow(c, d, b);
    forall k | k in b.keys ensures !IsSaved(k) {
    }
    if d.removed != [] {
      var list := Lookup(b.entries, RMLIST_PATH).data;
      assert Times(list, 1) == Times(list, 0) + list == list;
    }
  }

  lemma OutsideOfInsertion(c: Archive, d: Diff, b: Archive)
    requires AllOutside(c.entries) && AllOutside(d.saved) && IsInsertion(c, BackupEntries(d), b)
    ensures Outside(b.entries - {BACKUP} - ToSet(d.removed)) == (c.entries + d.saved) - ToSet(d.removed)
  {
    hide HasPrefix, BackupEntries, RmListBytes;
    RmListPath();
    var extra := BackupEntries(d);
    forall k ensures k in extra && IsOutside(k) <==> k in d.saved {
      EntriesOfBackup(d, k);
    }
    SavedAreEntries(d);
  }

  lemma SavedAreEntries(d: Diff)
    requires AllOutside(d.saved)
    ensures forall k :: k in d.saved ==> k in BackupEntries(d) && BackupEntries(d)[k] == d.saved[k]
  {
    hide HasPrefix, RmListBytes;
    RmListPath();
  }

  /** What restore makes of the entries that backup left. */
  lemma RestoredEntries(c: Archive, d: Diff, lib: Library, b: Archive, r: Archive)
    requires AllOutside(c.entries) && AllOutside(d.saved) && c.entries.Keys == ToSet(c.keys)
    requires IsInsertion(c, BackupEntries(d), b) && IsRestore(b, lib, r)
    requires RmListNames(RmListBytes(d.removed)) == d.removed && Normal(Split(RmListBytes(d.removed), NUL), lib)
    ensures Outside(r.entries) == if d.removed == [] then map[] else (c.entries + d.saved) - ToSet(d.removed)
  {
    hide *;
    BelowIsList(c, d, b);
    RmListIsEmpty(d.removed);
    RestoreApplies(b, lib, r);
    NormalCleaned(RmListBytes(d.removed), lib);
    OutsideOfInsertion(c, d, b);
    NothingSaved(b, lib);
    var rest := b.entries - {BACKUP} - ToSet(d.removed);
    assert rest + map[] == rest;
    NothingOutside();
  }

  lemma NothingSaved(a: Archive, lib: Library)
    requires SavedNames(a.entries, a.keys, lib) == {}
    ensures SavedEntries(a.entries, a.keys, lib) == map[]
    ensures HasBackup(a, lib) <==> RmListOf(a.entries, a.keys) != []
  {
    hide SavedNames, RmListOf, LastFor;
  }

  lemma NothingOutside()
    ensures Outside(map[]) == map[]
  {
  }

  lemma DataAt(m: map<Name, Entry>)
    ensures DataMap(m).Keys == m.Keys && forall k :: k in m ==> DataMap(m)[k] == m[k].data
  {
  }

  lemma RemovedIsLost(o: map<Name, Entry>, m: map<Name, Entry>, removed: set<Name>, k: Name)
    requires k in removed && k in o
    ensures DataMap(m - removed) != DataMap(o)
  {
    DataAt(o);
    DataAt(m - removed);
  }

  lemma RemovedApart(c: map<Name, Entry>, m: map<Name, Entry>, removed: set<Name>)
    requires removed !! m.Keys
    ensures (c + m) - removed == (c - removed) + m
  {
  }

  /** The three ways a cycle can go, on the entries alone. */
  lemma CycleOfEntries(o: map<Name, Entry>, c: map<Name, Entry>, originals: map<Name, Entry>, removed: set<Name>,
                       skip: bool, lib: Library)
    requires DataMap((c - removed) + originals) == DataMap(o)
    requires forall k :: k in originals ==> k in o && originals[k] == o[k]
    ensures var out := (c + PackAll(originals, skip, lib)) - removed;
            DataMap(out) == DataMap(o) <==> removed !! o.Keys && PackingKeeps(originals, skip, lib)
    ensures DataMap(map[]) == DataMap(o) <==> o == map[]
  {
    hide Packed, DataMap, PackingKeeps;
    var packed := PackAll(originals, skip, lib);
    DataAt(o);
    DataAt(map[]);
    if removed !! o.Keys {
      RemovedApart(c, packed, removed);
      SamePacked(o, c - removed, originals, skip, lib);
    } else {
      var k :| k in removed && k in o;
      RemovedIsLost(o, c + packed, removed, k);
    }
  }

  /** Compressing leaves the data of these entries as they are. */
  ghost predicate PackingKeeps(m: map<Name, Entry>, skip: bool, lib: Library) {
    forall k :: k in m ==> Packed(m[k], skip, lib).data == m[k].data
  }

  lemma OverlayAt(m: map<Name, Entry>, n: map<Name, Entry>)
    ensures DataMap(m + n).Keys == m.Keys + n.Keys
    ensures forall k :: k in m.Keys + n.Keys ==> DataMap(m + n)[k] == (if k in n then n[k] else m[k]).data
  {
  }

  lemma SamePacked(o: map<Name, Entry>, kept: map<Name, Entry>, originals: map<Name, Entry>, skip: bool, lib: Library)
    requires DataMap(kept + originals) == DataMap(o)
    ensures DataMap(kept + PackAll(originals, skip, lib)) == DataMap(o) <==> PackingKeeps(originals, skip, lib)
  {
    hide Packed, DataMap;
    var packed := PackAll(originals, skip, lib);
    var was, now := DataMap(kept + originals), DataMap(kept + packed);
    OverlayAt(kept, originals);
    OverlayAt(kept, packed);
    if PackingKeeps(originals, skip, lib) {
      assert now == was;
    } else {
      var k :| k in originals && Packed(originals[k], skip, lib).data != originals[k].data;
      assert now[k] != was[k];
    }
  }

  /** Nothing is recorded just when the lists are aligned and the original has every name. */
  lemma RecordsNothingIff(o: Archive, c: Archive, skip: bool, lib: Library)
    requires Exact(o) && Exact(c)
    ensures Merge(o.keys, c.keys, o.entries, c.entries, skip, lib).removed == [] <==>
            Aligned(o.keys, c.keys) && c.entries.Keys <= o.entries.Keys
  {
    hide Merge, DupFree, Aligned, Without;
    MergeRecords(o.keys, c.keys, o.entries, c.entries, skip, lib);
    WithoutIsFilter(c.keys, ToSet(o.keys));
    if c.entries.Keys <= o.entries.Keys {
      NoNames(Without(c.keys, ToSet(o.keys)));
    } else {
      var k :| k in c.entries.Keys && k !in o.entries.Keys;
      assert k in Without(c.keys, ToSet(o.keys));
    }
  }

  /** Are the original's data back? Where the original is not empty: the key lists are aligned, the current
      archive holds a name the original lacks, and what was saved is not changed by compression. */
  ghost predicate ComesBack(o: Archive, c: Archive, skip: bool, lib: Library) {
    || o.entries == map[]
    || (&& Aligned(o.keys, c.keys) && !(c.entries.Keys <= o.entries.Keys)
        && PackingKeeps(Differing(o.entries, c.entries), skip, lib))
  }

  /** backup, then restore, on archives without a .backup directory. */
  lemma CycleIff(o: Archive, c: Archive, skip: bool, lib: Library, b: Archive, r: Archive)
    requires Exact(o) && Exact(c) && PlainNames(c.keys) && AllOutside(o.entries) && AllOutside(c.entries)
    requires forall k :: k in c.entries ==> lib.norm(k) == k
    requires IsInsertion(c, BackupEntries(Merge(o.keys, c.keys, o.entries, c.entries, skip, lib)), b)
    requires IsRestore(b, lib, r)
    ensures DataMap(Outside(r.entries)) == DataMap(o.entries) <==> ComesBack(o, c, skip, lib)
    ensures Aligned(o.keys, c.keys) && c.entries.Keys <= o.entries.Keys ==> Outside(r.entries) == map[]
  {
    hide *;
    var d := Merge(o.keys, c.keys, o.entries, c.entries, skip, lib);
    var originals := Originals(d, o.entries);
    BackupUndoes(o, c, skip, lib);
    CycleFacts(o, c, d, skip, lib);
    NormalParts(c, d, lib);
    RestoredEntries(c, d, lib, b, r);
    RecordsNothingIff(o, c, skip, lib);
    CycleOfEntries(o.entries, c.entries, originals, ToSet(d.removed), skip, lib);
    WhenAligned(o, c, skip, lib);
  }

  /** What the definitions say of a cycle. */
  lemma CycleFacts(o: Archive, c: Archive, d: Diff, skip: bool, lib: Library)
    requires Exact(c) && AllOutside(o.entries) && d.saved.Keys <= o.entries.Keys
    ensures c.entries.Keys == ToSet(c.keys) && AllOutside(d.saved)
    ensures forall k :: k in Originals(d, o.entries) ==> k in o.entries && Originals(d, o.entries)[k] == o.entries[k]
    ensures o.entries == map[] ==> PackingKeeps(Originals(d, o.entries), skip, lib)
    ensures ComesBack(o, c, skip, lib) <==>
            || o.entries == map[]
            || (&& Aligned(o.keys, c.keys) && !(c.entries.Keys <= o.entries.Keys)
                && PackingKeeps(Differing(o.entries, c.entries), skip, lib))
  {
    hide IsOutside, Packed, Aligned, DupFree;
  }

  /** What alignment means for the difference. */
  lemma WhenAligned(o: Archive, c: Archive, skip: bool, lib: Library)
    requires Exact(o) && Exact(c) && PlainNames(c.keys)
    ensures var d := Merge(o.keys, c.keys, o.entries, c.entries, skip, lib);
            && (Aligned(o.keys, c.keys) <==> ToSet(d.removed) !! o.entries.Keys)
            && (Aligned(o.keys, c.keys) ==> Originals(d, o.entries) == Differing(o.entries, c.entries))
  {
    hide Merge, DupFree, PlainNames, RmListNames, RmListBytes, Aligned, Without, Packed;
    var d := Merge(o.keys, c.keys, o.entries, c.entries, skip, lib);
    BackupUndoes(o, c, skip, lib);
    BackupExactIff(o, c, skip, lib);
    MergeRecords(o.keys, c.keys, o.entries, c.entries, skip, lib);
    if !Aligned(o.keys, c.keys) {
      var k :| k in d.removed && k in o.keys;
      assert k in ToSet(d.removed) && k in o.entries.Keys;
    } else {
      assert d.saved.Keys == Differing(o.entries, c.entries).Keys;
    }
  }

  lemma WithoutBackup(a: Archive)
    requires Exact(a)
    ensures var a' := Rm(a, BACKUP, true);
            && Exact(a') && AllOutside(a'.entries) && a'.entries.Keys <= a.entries.Keys
            && (PlainNames(a.keys) ==> PlainNames(a'.keys))
  {
    hide DupFree, HasPrefix, Rm;
    var a' := Rm(a, BACKUP, true);
    RmRemovesSubtree(a, BACKUP, true);
    assert BACKUP + [SLASH] == BACKUP_SLASH;
    forall i | 0 <= i < |a'.keys| ensures a'.keys[i] in a.keys {
      assert a'.keys[i] in ToSet(a'.keys);
    }
  }

  /** The whole commands, one after the other: what comes back depends on the two archives, with .backup taken
      away. When the current one holds no name of its own, restore finds no backup, although entries may have
      been saved, and empties the archive. */
  lemma RestoreAfterBackup(c: Archive, origin: Bytes, skip: bool, lib: Library, b: Archive, r: Archive)
    requires Exact(c) && Exact(Load(EMPTY, origin).archive) && PlainNames(c.keys)
    requires forall k :: k in c.entries ==> lib.norm(k) == k
    requires IsBackup(c, origin, skip, lib, b) && IsRestore(b, lib, r)
    ensures var o, c' := Origin(origin), Rm(c, BACKUP, true);
            && (DataMap(Outside(r.entries)) == DataMap(o.entries) <==> ComesBack(o, c', skip, lib))
            && (Aligned(o.keys, c'.keys) && c'.entries.Keys <= o.entries.Keys ==> Outside(r.entries) == map[])
  {
    hide Rm, Merge, Exact, PlainNames, AllOutside, Load, IsInsertion, IsRestore, BackupEntries, Outside, DataMap, Aligned,
         ComesBack;
    WithoutBackup(c);
    WithoutBackup(Load(EMPTY, origin).archive);
    CycleIff(Origin(origin), Rm(c, BACKUP, true), skip, lib, b, r);
  }
}
