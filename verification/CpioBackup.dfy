/** backup, a sorted merge that computes a difference, and restore, which applies one. */
module CpioBackup {
  import opened Words
  import opened Text
  import opened CpioFormat
  import opened Names
  import opened CpioOps

  const S_IFREG: uint32 := 0x8000
  const BACKUP: Name := [46, 98, 97, 99, 107, 117, 112]                     // .backup
  const BACKUP_SLASH: Name := [46, 98, 97, 99, 107, 117, 112, 47]           // .backup/
  const RMLIST: Name := [46, 114, 109, 108, 105, 115, 116]                  // .rmlist
  const MAGISK: Name := [46, 109, 97, 103, 105, 115, 107]                   // .magisk
  const XZ_SUFFIX: Name := [46, 120, 122]                                   // .xz
  const NUL: byte := 0

  /** Code the archive calls but does not contain: path cleaning and the xz codec. */
  datatype Library = Library(
    norm: Name -> Name, xz: Bytes -> Option<Bytes>, unxz: Bytes -> Option<Bytes>)

  predicate IsRegular(e: Entry) {
    e.mode / 0x1000 % 16 == 8
  }

  // ---- Backup: the merge --------------------------------------------------------------------

  /** What is saved, and the names recorded for removal, in the order they are found. */
  datatype Diff = Diff(saved: map<Name, Entry>, removed: seq<Name>)

  /** The entry as it is saved. */
  function Packed(e: Entry, skipCompress: bool, lib: Library): Entry {
    if skipCompress || !IsRegular(e) then e
    else match lib.xz(e.data)
      case Some(d) => e.(data := d)
      case None => e
  }

  function SaveFirst(k: Name, e: Entry, d: Diff): Diff {
    Diff(map[k := e] + d.saved, d.removed)
  }

  function RecordFirst(k: Name, d: Diff): Diff {
    Diff(d.saved, [k] + d.removed)
  }

  /** The two-pointer loop over the original's keys and the current ones. */
  function Merge(lhsKeys: seq<Name>, rhsKeys: seq<Name>, lhs: map<Name, Entry>, rhs: map<Name, Entry>,
                 skipCompress: bool, lib: Library): Diff
    decreases |lhsKeys| + |rhsKeys|
  {
    if lhsKeys != [] && rhsKeys != [] then
      var lKey, rKey := lhsKeys[0], rhsKeys[0];
      var le, re := Lookup(lhs, lKey), Lookup(rhs, rKey);
      var c := Compare(lKey, rKey);
      if c < 0 then
        SaveFirst(lKey, Packed(le, skipCompress, lib), Merge(lhsKeys[1..], rhsKeys, lhs, rhs, skipCompress, lib))
      else if c == 0 then
        var d := Merge(lhsKeys[1..], rhsKeys[1..], lhs, rhs, skipCompress, lib);
        if re.data != le.data then SaveFirst(lKey, Packed(le, skipCompress, lib), d) else d
      else
        RecordFirst(rKey, Merge(lhsKeys, rhsKeys[1..], lhs, rhs, skipCompress, lib))
    else if lhsKeys != [] then
      SaveFirst(lhsKeys[0], Packed(Lookup(lhs, lhsKeys[0]), skipCompress, lib),
                Merge(lhsKeys[1..], rhsKeys, lhs, rhs, skipCompress, lib))
    else if rhsKeys != [] then
      RecordFirst(rhsKeys[0], Merge(lhsKeys, rhsKeys[1..], lhs, rhs, skipCompress, lib))
    else Diff(map[], [])
  }

  // ---- Backup: the rm list ----------------------------------------------------------------------

  /** Every recorded name with a NUL behind it. */
  function RmListBytes(names: seq<Name>): Bytes {
    if names == [] then [] else names[0] + [NUL] + RmListBytes(names[1..])
  }

  /** strings.Split on NUL, empty parts skipped. */
  function RmListNames(s: Bytes): seq<Name> {
    NonEmpty(Split(s, NUL))
  }

  function NonEmpty(parts: seq<Bytes>): seq<Bytes> {
    if parts == [] then []
    else if parts[0] == [] then NonEmpty(parts[1..])
    else [parts[0]] + NonEmpty(parts[1..])
  }

  predicate PlainNames(names: seq<Name>) {
    forall i :: 0 <= i < |names| ==> names[i] != [] && FreeOf(names[i], NUL)
  }

  /** The list is read back as it was recorded. */
  lemma {:induction false} RmListRoundTrip(names: seq<Name>)
    requires PlainNames(names)
    ensures RmListNames(RmListBytes(names)) == names
  {
    if names == [] {
      assert Split([], NUL) == [[]];
      assert NonEmpty([[]]) == NonEmpty([[]][1..]) == [];
    } else {
      SplitPart(names[0], RmListBytes(names[1..]), NUL);
      RmListRoundTrip(names[1..]);
      var rest := Split(RmListBytes(names[1..]), NUL);
      assert ([names[0]] + rest)[1..] == rest;
    }
  }

  function DataMap(m: map<Name, Entry>): map<Name, Bytes> {
    map k | k in m :: m[k].data
  }

  // ---- Backup: enough to go back, whatever the order of the keys ----------------------------------

  /** What is saved and recorded turns the right-hand entries into the left-hand ones, and a name that is
      saved although it is shared and not recorded has other data. */
  ghost predicate Undoes(d: Diff, ls: set<Name>, rs: set<Name>, lhs: map<Name, Entry>, rhs: map<Name, Entry>,
                         skip: bool, lib: Library) {
    && d.saved.Keys <= ls && ToSet(d.removed) <= rs && rs - ls <= ToSet(d.removed)
    && (forall k :: k in d.saved ==> d.saved[k] == Packed(Lookup(lhs, k), skip, lib))
    && (forall k :: k in ls - d.saved.Keys ==>
          k in rs - ToSet(d.removed) && Lookup(rhs, k).data == Lookup(lhs, k).data)
    && (forall k :: k in d.saved && k in rs - ToSet(d.removed) ==> Lookup(rhs, k).data != Lookup(lhs, k).data)
  }

  lemma TailSet(s: seq<Name>)
    requires s != [] && DupFree(s)
    ensures DupFree(s[1..]) && ToSet(s) == ToSet(s[1..]) + {s[0]} && s[0] !in ToSet(s[1..])
  {
    hide DupFree;
    DupFreeCons(s);
    HeadAndTail(s);
  }

  lemma UndoSave(d: Diff, ls: set<Name>, rs: set<Name>, k: Name, lhs: map<Name, Entry>, rhs: map<Name, Entry>,
                 skip: bool, lib: Library)
    requires Undoes(d, ls, rs, lhs, rhs, skip, lib) && k !in ls
    ensures Undoes(SaveFirst(k, Packed(Lookup(lhs, k), skip, lib), d), ls + {k}, rs, lhs, rhs, skip, lib)
  {
    hide Lookup, Packed;
  }

  lemma UndoRecord(d: Diff, ls: set<Name>, rs: set<Name>, k: Name, lhs: map<Name, Entry>, rhs: map<Name, Entry>,
                 skip: bool, lib: Library)
    requires Undoes(d, ls, rs, lhs, rhs, skip, lib) && k !in rs
    ensures Undoes(RecordFirst(k, d), ls, rs + {k}, lhs, rhs, skip, lib)
  {
    hide Lookup, Packed;
    assert ToSet([k] + d.removed) == ToSet(d.removed) + {k};
  }

  lemma UndoEqual(d: Diff, ls: set<Name>, rs: set<Name>, k: Name, lhs: map<Name, Entry>, rhs: map<Name, Entry>,
                 skip: bool, lib: Library)
    requires Undoes(d, ls, rs, lhs, rhs, skip, lib) && k !in ls && k !in rs
    requires Lookup(rhs, k).data == Lookup(lhs, k).data
    ensures Undoes(d, ls + {k}, rs + {k}, lhs, rhs, skip, lib)
  {
    hide Lookup, Packed;
    forall j | j in ls + {k} - d.saved.Keys
      ensures j in rs + {k} - ToSet(d.removed) && Lookup(rhs, j).data == Lookup(lhs, j).data
    {
      if j != k { assert j in ls - d.saved.Keys; }
    }
  }

  lemma UndoMore(d: Diff, ls: set<Name>, rs: set<Name>, k: Name, lhs: map<Name, Entry>, rhs: map<Name, Entry>,
                 skip: bool, lib: Library)
    requires Undoes(d, ls, rs, lhs, rhs, skip, lib) && k in ls && Lookup(rhs, k).data != Lookup(lhs, k).data
    ensures Undoes(d, ls, rs + {k}, lhs, rhs, skip, lib)
  {
    hide Lookup, Packed;
  }

  /** On lists without repeats, in whatever order, the merge finds a difference that can be undone. */
  lemma {:induction false} MergeUndoes(lhsKeys: seq<Name>, rhsKeys: seq<Name>, lhs: map<Name, Entry>,
                                       rhs: map<Name, Entry>, skip: bool, lib: Library)
    requires DupFree(lhsKeys) && DupFree(rhsKeys)
    ensures Undoes(Merge(lhsKeys, rhsKeys, lhs, rhs, skip, lib), ToSet(lhsKeys), ToSet(rhsKeys), lhs, rhs, skip, lib)
    decreases |lhsKeys| + |rhsKeys|
  {
    hide Lookup, Packed, Compare, Undoes, DupFree, ToSet, SaveFirst, RecordFirst;
    if lhsKeys != [] { TailSet(lhsKeys); }
    if rhsKeys != [] { TailSet(rhsKeys); }
    if lhsKeys != [] && (rhsKeys == [] || Compare(lhsKeys[0], rhsKeys[0]) < 0) {
      MergeUndoes(lhsKeys[1..], rhsKeys, lhs, rhs, skip, lib);
      UndoSave(Merge(lhsKeys[1..], rhsKeys, lhs, rhs, skip, lib), ToSet(lhsKeys[1..]), ToSet(rhsKeys), lhsKeys[0],
               lhs, rhs, skip, lib);
    } else if rhsKeys != [] && (lhsKeys == [] || Compare(lhsKeys[0], rhsKeys[0]) > 0) {
      MergeUndoes(lhsKeys, rhsKeys[1..], lhs, rhs, skip, lib);
      UndoRecord(Merge(lhsKeys, rhsKeys[1..], lhs, rhs, skip, lib), ToSet(lhsKeys), ToSet(rhsKeys[1..]), rhsKeys[0],
                 lhs, rhs, skip, lib);
    } else if lhsKeys != [] {
      var k, d := lhsKeys[0], Merge(lhsKeys[1..], rhsKeys[1..], lhs, rhs, skip, lib);
      var ls, rs := ToSet(lhsKeys[1..]), ToSet(rhsKeys[1..]);
      CompareSwaps(k, rhsKeys[0]);
      MergeUndoes(lhsKeys[1..], rhsKeys[1..], lhs, rhs, skip, lib);
      if Lookup(rhs, k).data != Lookup(lhs, k).data {
        UndoSave(d, ls, rs, k, lhs, rhs, skip, lib);
        UndoMore(SaveFirst(k, Packed(Lookup(lhs, k), skip, lib), d), ls + {k}, rs, k, lhs, rhs, skip, lib);
      } else {
        UndoEqual(d, ls, rs, k, lhs, rhs, skip, lib);
      }
    } else {
      UndoNothing(lhs, rhs, skip, lib);
    }
  }

  lemma UndoNothing(lhs: map<Name, Entry>, rhs: map<Name, Entry>,
                 skip: bool, lib: Library)
    ensures Undoes(Diff(map[], []), ToSet([]), ToSet([]), lhs, rhs, skip, lib)
  {
  }

  function PackAll(m: map<Name, Entry>, skip: bool, lib: Library): map<Name, Entry> {
    map k | k in m :: Packed(m[k], skip, lib)
  }

  /** The entries of `m` that the difference saves, as they were before they were packed. */
  function Originals(d: Diff, m: map<Name, Entry>): map<Name, Entry> {
    map k | k in d.saved && k in m :: m[k]
  }

  lemma UndoneEntries(d: Diff, l: map<Name, Entry>, r: map<Name, Entry>, skip: bool, lib: Library)
    requires Undoes(d, l.Keys, r.Keys, l, r, skip, lib)
    ensures d.saved == PackAll(Originals(d, l), skip, lib)
    ensures DataMap((r - ToSet(d.removed)) + Originals(d, l)) == DataMap(l)
    ensures forall k :: k in d.saved && k in r && k !in d.removed ==> r[k].data != l[k].data
  {
    hide Packed;
    var m := (r - ToSet(d.removed)) + Originals(d, l);
    assert m.Keys == l.Keys;
  }

  /** On archives that list each entry once, in whatever order, the list of backup reads back as it
      was recorded, and dropping its names and overlaying what was saved gives the original's data. */
  lemma BackupUndoes(o: Archive, c: Archive, skip: bool, lib: Library)
    requires Exact(o) && Exact(c) && PlainNames(c.keys)
    ensures var d := Merge(o.keys, c.keys, o.entries, c.entries, skip, lib);
            && RmListNames(RmListBytes(d.removed)) == d.removed
            && ToSet(d.removed) <= c.entries.Keys && d.saved.Keys <= o.entries.Keys
            && d.saved == PackAll(Originals(d, o.entries), skip, lib)
            && DataMap((c.entries - ToSet(d.removed)) + Originals(d, o.entries)) == DataMap(o.entries)
            && (forall k :: k in d.saved && k in c.entries && k !in d.removed ==>
                  c.entries[k].data != o.entries[k].data)
  {
    hide Merge, DupFree, RmListNames, Packed, PackAll, DataMap, Originals;
    var d := Merge(o.keys, c.keys, o.entries, c.entries, skip, lib);
    MergeUndoes(o.keys, c.keys, o.entries, c.entries, skip, lib);
    assert PlainNames(d.removed) by {
      forall i | 0 <= i < |d.removed| ensures d.removed[i] != [] && FreeOf(d.removed[i], NUL) {
        assert d.removed[i] in ToSet(d.removed);
        assert d.removed[i] in c.keys;
      }
    }
    RmListRoundTrip(d.removed);
    UndoneEntries(d, o.entries, c.entries, skip, lib);
  }

  // ---- Backup: the whole command ------------------------------------------------------------------

  const BACKUP_DIR := Entry(S_IFDIR, 0, 0, 0, 0, [])

  function RmListEntry(names: seq<Name>): Entry {
    Entry(S_IFREG, 0, 0, 0, 0, RmListBytes(names))
  }

  /** The entries backup puts into the archive. (They are filed under their plain names: the path
      below .backup that the code computes is only printed.) */
  function BackupEntries(d: Diff): map<Name, Entry> {
    var all := map[BACKUP := BACKUP_DIR] + d.saved;
    if d.removed == [] then all else all[BACKUP_SLASH + RMLIST := RmListEntry(d.removed)]
  }

  /** The two archives the merge compares. */
  function Origin(data: Bytes): Archive {
    Rm(Load(EMPTY, data).archive, BACKUP, true)
  }

  function BackupDiff(c: Archive, origin: Bytes, skipCompress: bool, lib: Library): Diff {
    var o, c' := Origin(origin), Rm(c, BACKUP, true);
    Merge(o.keys, c'.keys, o.entries, c'.entries, skipCompress, lib)
  }

  /** Entries put in from a map, in the map's own unspecified order, and the keys sorted. */
  ghost predicate IsInsertion(a: Archive, extra: map<Name, Entry>, b: Archive) {
    b.entries == a.entries + extra && IsSortOf(b.keys, multiset(a.keys) + multiset(extra.Keys))
  }

  /** The order in which a map is walked leaves no trace. */
  lemma InsertionIsUnique(a: Archive, extra: map<Name, Entry>, b: Archive, b': Archive)
    requires IsInsertion(a, extra, b) && IsInsertion(a, extra, b')
    ensures b == b'
  {
    SortIsUnique(b.keys, b'.keys);
  }

  lemma InsertionCovers(a: Archive, extra: map<Name, Entry>, b: Archive)
    requires IsInsertion(a, extra, b) && Covered(a)
    ensures Covered(b)
  {
    forall k | k in b.entries ensures k in b.keys {
      assert k in multiset(b.keys);
    }
  }

  ghost predicate IsBackup(c: Archive, origin: Bytes, skipCompress: bool, lib: Library, b: Archive) {
    IsInsertion(Rm(c, BACKUP, true), BackupEntries(BackupDiff(c, origin, skipCompress, lib)), b)
  }
}
