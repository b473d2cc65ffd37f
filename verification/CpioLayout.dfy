/** restore on the layout it expects: backup's difference below .backup, compressed entries under names
    that end in .xz. */
module CpioLayout {
  import opened Words
  import opened Text
  import opened CpioFormat
  import opened Names
  import opened CpioOps
  import opened CpioBackup
  import opened CpioRestore

  // ---- The layout ---------------------------------------------------------------------------

  /** Decompressing gives back what was compressed. */
  ghost predicate Inverse(lib: Library) {
    forall d: Bytes :: lib.xz(d).Some? ==> lib.unxz(lib.xz(d).value) == Some(d)
  }

  predicate IsCompressed(e: Entry, skip: bool, lib: Library) {
    !skip && IsRegular(e) && lib.xz(e.data).Some?
  }

  /** The path that backup prints for an entry. */
  function PathOf(n: Name, e: Entry, skip: bool, lib: Library): Name {
    BACKUP_SLASH + (if IsCompressed(e, skip, lib) then n + XZ_SUFFIX else n)
  }

  /** The archive holds the current entries, the packed originals under their paths below .backup and
      nothing else there, and the rm list. */
  ghost predicate HoldsBackup(a: Archive, c: map<Name, Entry>, originals: map<Name, Entry>, removed: seq<Name>,
                              skip: bool, lib: Library)
  {
    && Outside(a.entries) == c
    && RmListOf(a.entries, a.keys) == RmListBytes(removed)
    && (forall n :: n in originals ==> HoldsEntry(a, n, originals[n], skip, lib))
    && (forall k :: k in a.keys && IsSaved(k) ==>
          exists n :: n in originals && k == PathOf(n, originals[n], skip, lib))
  }

  ghost predicate HoldsEntry(a: Archive, n: Name, e: Entry, skip: bool, lib: Library) {
    var k := PathOf(n, e, skip, lib);
    k in a.keys && IsSaved(k) && Lookup(a.entries, k) == Packed(e, skip, lib)
  }

  /** An entry that was not compressed, under a name that says it was, with data that can be decompressed. */
  predicate Misleading(n: Name, e: Entry, skip: bool, lib: Library) {
    !IsCompressed(e, skip, lib) && HasSuffix(n, XZ_SUFFIX) && Decompress(e, lib).Some?
  }

  // ---- One entry ------------------------------------------------------------------------------------

  lemma SuffixOfPath(n: Name)
    ensures HasSuffix(BACKUP_SLASH + n, XZ_SUFFIX) <==> HasSuffix(n, XZ_SUFFIX)
    ensures HasSuffix(BACKUP_SLASH + (n + XZ_SUFFIX), XZ_SUFFIX)
  {
    var k := BACKUP_SLASH + n;
    if HasSuffix(k, XZ_SUFFIX) {
      PrefixOfSum(n);
      XzLeavesPrefix(k);
      assert k[|k| - 3..] == n[|n| - 3..];
    }
    if HasSuffix(n, XZ_SUFFIX) {
      assert k[|k| - 3..] == n[|n| - 3..];
    }
    var l := BACKUP_SLASH + (n + XZ_SUFFIX);
    assert l[|l| - 3..] == XZ_SUFFIX;
  }

  /** An entry comes back under its own name and as it was, unless it misleads: then it comes back under a
      shorter one. */
  lemma EntryComesBack(a: Archive, n: Name, e: Entry, skip: bool, lib: Library)
    requires Inverse(lib) && HoldsEntry(a, n, e, skip, lib)
    ensures var k := PathOf(n, e, skip, lib);
            if Misleading(n, e, skip, lib) then |TargetOf(a.entries, k, lib)| < |n|
            else TargetOf(a.entries, k, lib) == n && Unpacked(k, Lookup(a.entries, k), lib) == e
  {
    hide HasSuffix, HasPrefix, Lookup;
    SuffixOfPath(n);
    var k := PathOf(n, e, skip, lib);
    PrefixOfSum(n);
    PrefixOfSum(n + XZ_SUFFIX);
    if IsCompressed(e, skip, lib) {
      assert k[8..|k| - 3] == n;
    } else if Misleading(n, e, skip, lib) {
      XzLeavesPrefix(k);
    }
  }

  // ---- All entries -------------------------------------------------------------------------------------

  ghost predicate NoneMisleads(originals: map<Name, Entry>, skip: bool, lib: Library) {
    forall n :: n in originals ==> !Misleading(n, originals[n], skip, lib)
  }

  lemma IsRestored(a: Archive, n: Name, e: Entry, skip: bool, lib: Library)
    requires Inverse(lib) && HoldsEntry(a, n, e, skip, lib) && !Misleading(n, e, skip, lib)
    ensures n in SavedNames(a.entries, a.keys, lib)
  {
    hide IsSaved, TargetOf, Unpacked, Lookup, Misleading, PathOf, Inverse, Packed;
    EntryComesBack(a, n, e, skip, lib);
    assert PathOf(n, e, skip, lib) in ToSet(a.keys);
  }

  lemma RestoredIsOriginal(a: Archive, c: map<Name, Entry>, originals: map<Name, Entry>, removed: seq<Name>,
                           skip: bool, lib: Library, n: Name)
    requires Inverse(lib) && HoldsBackup(a, c, originals, removed, skip, lib) && NoneMisleads(originals, skip, lib)
    requires n in SavedNames(a.entries, a.keys, lib)
    ensures n in originals && SavedEntries(a.entries, a.keys, lib)[n] == originals[n]
  {
    hide IsSaved, TargetOf, Unpacked, Lookup, Misleading, PathOf, Inverse, Packed, RmListOf, Outside, SavedNames,
         HoldsEntry;
    var k := LastFor(a.entries, a.keys, lib, n);
    var m :| m in originals && k == PathOf(m, originals[m], skip, lib);
    EntryComesBack(a, m, originals[m], skip, lib);
  }

  lemma AllComeBack(a: Archive, c: map<Name, Entry>, originals: map<Name, Entry>, removed: seq<Name>, skip: bool,
                    lib: Library)
    requires Inverse(lib) && HoldsBackup(a, c, originals, removed, skip, lib) && NoneMisleads(originals, skip, lib)
    ensures SavedEntries(a.entries, a.keys, lib) == originals
  {
    hide IsSaved, TargetOf, Unpacked, Misleading, PathOf, Inverse, RmListOf, Outside, SavedNames, HoldsEntry, LastFor;
    var saved := SavedEntries(a.entries, a.keys, lib);
    forall n | n in originals ensures n in saved {
      IsRestored(a, n, originals[n], skip, lib);
    }
    forall n | n in saved ensures n in originals && saved[n] == originals[n] {
      RestoredIsOriginal(a, c, originals, removed, skip, lib, n);
    }
    assert saved.Keys == originals.Keys;
  }

  lemma {:induction false} Longest(names: set<Name>) returns (n: Name)
    requires names != {}
    ensures n in names && forall m :: m in names ==> |m| <= |n|
  {
    n :| n in names;
    var rest := names - {n};
    assert forall k :: k in names ==> k == n || k in rest;
    if rest != {} {
      var m := Longest(rest);
      if |m| > |n| { n := m; }
    }
  }

  /** The longest name that misleads is restored by nothing. */
  lemma OneIsLost(a: Archive, c: map<Name, Entry>, originals: map<Name, Entry>, removed: seq<Name>, skip: bool,
                  lib: Library) returns (n: Name)
    requires Inverse(lib) && HoldsBackup(a, c, originals, removed, skip, lib) && !NoneMisleads(originals, skip, lib)
    ensures n in originals && n !in SavedNames(a.entries, a.keys, lib)
  {
    hide IsSaved, TargetOf, Lookup, Misleading, PathOf, Inverse, Packed, RmListOf, Outside;
    var misleading := set n | n in originals && Misleading(n, originals[n], skip, lib);
    var any :| any in originals && Misleading(any, originals[any], skip, lib);
    assert any in misleading;
    n := Longest(misleading);
    forall k | k in ToSet(a.keys) && IsSaved(k) ensures TargetOf(a.entries, k, lib) != n {
      var m :| m in originals && k == PathOf(m, originals[m], skip, lib);
      EntryComesBack(a, m, originals[m], skip, lib);
      if Misleading(m, originals[m], skip, lib) { assert m in misleading; }
    }
  }

  // ---- The law ------------------------------------------------------------------------------------------

  lemma BackupIsThere(a: Archive, c: map<Name, Entry>, originals: map<Name, Entry>, removed: seq<Name>, skip: bool,
                      lib: Library)
    requires HoldsBackup(a, c, originals, removed, skip, lib)
    ensures HasBackup(a, lib) <==> originals != map[] || removed != []
  {
    hide IsSaved, TargetOf, Lookup, PathOf, Packed, RmListOf, Outside;
    RmListIsEmpty(removed);
    if originals != map[] {
      var n :| n in originals;
      assert HoldsEntry(a, n, originals[n], skip, lib);
      assert TargetOf(a.entries, PathOf(n, originals[n], skip, lib), lib) in SavedNames(a.entries, a.keys, lib);
    }
  }

  /** The entries after restore, against the original's. */
  lemma DataAfter(o: map<Name, Entry>, c: map<Name, Entry>, removed: set<Name>, originals: map<Name, Entry>,
                  saved: map<Name, Entry>, n: Name)
    requires n in originals && originals.Keys <= o.Keys && n !in saved
    requires n in c && n !in removed ==> c[n].data != o[n].data
    ensures DataMap((c - removed) + saved) != DataMap(o)
  {
    assert n in DataMap(o);
    var m := (c - removed) + saved;
    assert n in DataMap(m) ==> DataMap(m)[n] == c[n].data;
  }

  /** restore undoes the changes since the original: applied to the layout that holds backup's difference,
      compressed or not, it gives the original's data back, if and only if no saved entry misleads. The one
      other exception is an empty difference, which restore takes for the absence of a backup: it then
      empties the archive. */
  lemma RestoreAfterDiff(o: Archive, c: Archive, a: Archive, skip: bool, lib: Library, b: Archive)
    requires Exact(o) && Exact(c) && PlainNames(c.keys) && Inverse(lib)
    requires forall k :: k in o.entries ==> IsOutside(k)
    requires forall k :: k in c.entries ==> lib.norm(k) == k
    requires var d := Merge(o.keys, c.keys, o.entries, c.entries, skip, lib);
             HoldsBackup(a, c.entries, Originals(d, o.entries), d.removed, skip, lib)
    requires IsRestore(a, lib, b)
    ensures var d := Merge(o.keys, c.keys, o.entries, c.entries, skip, lib);
            DataMap(Outside(b.entries)) == DataMap(o.entries) <==>
            || o.entries == map[]
            || ((d.saved != map[] || d.removed != []) && NoneMisleads(Originals(d, o.entries), skip, lib))
  {
    hide Merge, PlainNames, RmListNames, SavedEntries, SavedNames, IsRestore, DupFree, IsOutside, Misleading, Inverse,
         HasBackup, RmListBytes, Normal, Cleaned, PackAll, DataMap, Outside, Split, HoldsEntry, PathOf, IsSaved, RmListOf;
    var d := Merge(o.keys, c.keys, o.entries, c.entries, skip, lib);
    var originals := Originals(d, o.entries);
    BackupUndoes(o, c, skip, lib);
    NormalParts(c, d, lib);
    RestoreApplies(a, lib, b);
    NormalCleaned(RmListBytes(d.removed), lib);
    BackupIsThere(a, c.entries, originals, d.removed, skip, lib);
    assert originals.Keys == d.saved.Keys;
    if HasBackup(a, lib) {
      var saved := SavedEntries(a.entries, a.keys, lib);
      OutsideAfter(a.entries, ToSet(d.removed), saved);
      if NoneMisleads(originals, skip, lib) {
        AllComeBack(a, c.entries, originals, d.removed, skip, lib);
        AllOutsideStay(originals);
      } else {
        var n := OneIsLost(a, c.entries, originals, d.removed, skip, lib);
        NotRestored(a, lib, n);
        DataAfter(o.entries, c.entries, ToSet(d.removed), originals, Outside(saved), n);
      }
    } else {
      NothingLeft(o.entries);
    }
  }

  lemma AllOutsideStay(m: map<Name, Entry>)
    requires forall k :: k in m ==> IsOutside(k)
    ensures Outside(m) == m
  {
  }

  lemma NotRestored(a: Archive, lib: Library, n: Name)
    requires n !in SavedNames(a.entries, a.keys, lib)
    ensures n !in Outside(SavedEntries(a.entries, a.keys, lib))
  {
    hide SavedNames, IsOutside;
  }

  lemma NothingLeft(o: map<Name, Entry>)
    ensures DataMap(Outside(map[])) == DataMap(o) <==> o == map[]
  {
    assert DataMap(o).Keys == o.Keys;
    assert Outside(map[]) == map[];
  }
}
