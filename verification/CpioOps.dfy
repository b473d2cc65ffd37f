/** The commands that edit an archive, on the pair of map and key list, and what they keep. */
module CpioOps {
  import opened Words
  import opened CpioFormat
  import opened Names

  const S_IFDIR: uint32 := 0x4000
  const S_IFLNK: uint32 := 0xA000
  const SLASH: byte := 47

  predicate HasPrefix(s: Bytes, prefix: Bytes) {
    prefix <= s
  }

  predicate HasSuffix(s: Bytes, suffix: Bytes) {
    |suffix| <= |s| && s[|s| - |suffix|..] == suffix
  }

  // ---- The commands. Paths are what norm_path returns. ------------------------------------

  /** The entries `rm path` or `rm -r path` deletes. */
  function Doomed(a: Archive, path: Name, recursive: bool): set<Name> {
    set k | k in a.entries && (k == path || (recursive && HasPrefix(k, path + [SLASH])))
  }

  function Rm(a: Archive, path: Name, recursive: bool): Archive {
    var doomed := Doomed(a, path, recursive);
    Archive(a.entries - doomed, RemoveFirsts(a.keys, doomed))
  }

  function AddEntry(a: Archive, key: Name, e: Entry): Archive {
    Archive(a.entries[key := e], Sort(a.keys + [key]))
  }

  /** mode | S_IFDIR: bit 14. */
  function WithDirBit(mode: uint32): uint32 {
    if mode / S_IFDIR % 2 == 1 then mode else
      assert mode + S_IFDIR < TWO32; mode + S_IFDIR
  }

  function DirEntry(mode: uint32): Entry {
    Entry(WithDirBit(mode), 0, 0, 0, 0, [])
  }

  /** A link target: cleaned, and rooted if it was written so. */
  function LinkEntry(target: Name, cleaned: Name): Entry {
    Entry(S_IFLNK, 0, 0, 0, 0, if HasPrefix(target, [SLASH]) then [SLASH] + cleaned else cleaned)
  }

  function Mv(a: Archive, from: Name, to: Name): Archive {
    Archive((a.entries - {from})[to := Lookup(a.entries, from)], Sort(Without(a.keys, {from}) + [to]))
  }

  // ---- Every entry has a key ------------------------------------------------------------

  /** Dump, which walks the keys, loses no entry. */
  ghost predicate Covered(a: Archive) {
    forall k :: k in a.entries ==> k in a.keys
  }

  /** Dump prints every entry, and prints it once. */
  ghost predicate Exact(a: Archive) {
    DupFree(a.keys) && a.entries.Keys == ToSet(a.keys)
  }

  lemma SortKeeps(s: seq<Name>)
    ensures DupFree(s) <==> DupFree(Sort(s))
    ensures ToSet(s) == ToSet(Sort(s))
    ensures forall k :: k in s <==> k in Sort(s)
  {
    SortSorts(s);
    SameBagSameNames(s, Sort(s));
  }

  lemma CoveredRm(a: Archive, path: Name, recursive: bool)
    requires Covered(a)
    ensures Covered(Rm(a, path, recursive))
  {
    RemoveFirstsKeeps(a.keys, Doomed(a, path, recursive));
  }

  lemma CoveredAddEntry(a: Archive, key: Name, e: Entry)
    requires Covered(a)
    ensures Covered(AddEntry(a, key, e))
  {
    SortKeeps(a.keys + [key]);
  }

  lemma CoveredMv(a: Archive, from: Name, to: Name)
    requires Covered(a)
    ensures Covered(Mv(a, from, to))
  {
    WithoutIsFilter(a.keys, {from});
    SortKeeps(Without(a.keys, {from}) + [to]);
  }

  lemma {:induction false} CoveredLoad(data: Bytes, pos: nat, a: Archive)
    requires Covered(a)
    ensures Covered(LoadFrom(data, pos, a).archive)
    decreases |data| - pos
  {
    hide IndexOf, ReadEntry, TrimNul;
    if pos < |data| && ReadHead(data, pos).Head? {
      var Head(name, next) := ReadHead(data, pos);
      if name == DOT || name == DOT_DOT {
        CoveredLoad(data, next, a);
      } else if name == TRAILER {
        if next <= |data| && IndexOf(data, next, MAGIC).Some? {
          CoveredLoad(data, IndexOf(data, next, MAGIC).value, a);
        }
      } else if ReadEntry(data, pos, next).Some? {
        var e := ReadEntry(data, pos, next).value;
        CoveredLoad(data, Align4(next + |e.data|), Add(a, name, e));
      }
    }
  }

  // ---- Exactly one key per entry ------------------------------------------------------------

  /** rm -r removes the path and everything below it, nothing else, with one key for every entry. An exact
      archive stays exact, and no other key moves. */
  lemma RmRemovesSubtree(a: Archive, path: Name, recursive: bool)
    ensures var b := Rm(a, path, recursive);
            && b.entries == (map k | k in a.entries &&
                                     k != path && !(recursive && HasPrefix(k, path + [SLASH])) :: a.entries[k])
            && (forall k :: multiset(b.keys)[k] ==
                  multiset(a.keys)[k] - (if k in Doomed(a, path, recursive) && k in a.keys then 1 else 0))
            && (Exact(a) ==> Exact(b) && b.keys == Without(a.keys, Doomed(a, path, recursive)))
  {
    hide DupFree, HasPrefix, RemoveFirsts, Without;
    var doomed := Doomed(a, path, recursive);
    forall k ensures multiset(RemoveFirsts(a.keys, doomed))[k] ==
                     multiset(a.keys)[k] - (if k in doomed && k in a.keys then 1 else 0) {
      RemoveFirstsCounts(a.keys, doomed, k);
    }
    if Exact(a) { RmStaysExact(a, doomed); }
  }

  lemma RmStaysExact(a: Archive, doomed: set<Name>)
    requires Exact(a)
    ensures RemoveFirsts(a.keys, doomed) == Without(a.keys, doomed)
    ensures Exact(Archive(a.entries - doomed, Without(a.keys, doomed)))
  {
    hide DupFree, RemoveFirsts, Without;
    RemoveFirstsOfDupFree(a.keys, doomed);
    WithoutIsFilter(a.keys, doomed);
  }

  /** Where names may be listed twice, rm takes one key off for every entry it deletes: the key list covers
      exactly the map again just when each of them was listed once. (Any other key that is left prints an
      empty member under the deleted name.) */
  lemma RmCoversIff(a: Archive, path: Name, recursive: bool)
    requires a.entries.Keys == ToSet(a.keys)
    ensures var b := Rm(a, path, recursive);
            b.entries.Keys == ToSet(b.keys) <==>
            forall k :: k in Doomed(a, path, recursive) ==> multiset(a.keys)[k] == 1
    ensures forall k :: k in Rm(a, path, recursive).keys && k !in Rm(a, path, recursive).entries ==>
              k in Doomed(a, path, recursive) && Lookup(Rm(a, path, recursive).entries, k) == NO_ENTRY
  {
    hide HasPrefix;
    var doomed := Doomed(a, path, recursive);
    var b := Rm(a, path, recursive);
    RmRemovesSubtree(a, path, recursive);
    forall k ensures k in b.keys <==> k in a.keys && (k in doomed ==> multiset(a.keys)[k] > 1) {
      assert k in b.keys <==> multiset(b.keys)[k] > 0;
      assert k in a.keys <==> multiset(a.keys)[k] > 0;
    }
    forall k | k in doomed ensures multiset(a.keys)[k] > 0 {
      assert k in a.keys;
    }
  }

  /** Appending one name and sorting keeps the list free of repeats just when the name is new. */
  lemma SortedAppend(s: seq<Name>, key: Name)
    ensures DupFree(Sort(s + [key])) <==> DupFree(s) && key !in s
    ensures ToSet(Sort(s + [key])) == ToSet(s) + {key}
  {
    hide DupFree;
    var t := s + [key];
    SortKeeps(t);
    DupFreeCounts(s);
    DupFreeCounts(t);
    assert multiset(t) == multiset(s) + multiset{key};
    assert key in s <==> multiset(s)[key] > 0;
    if !DupFree(s) {
      var k :| multiset(s)[k] > 1;
      assert multiset(t)[k] > 1;
    } else if key in s {
      assert multiset(t)[key] > 1;
    }
    assert ToSet(t) == ToSet(s) + {key};
  }

  /** add, mkdir and ln keep one key per entry exactly when their target is not there yet.
      (The usage text promises that add replaces an existing entry; the key is then listed twice.) */
  lemma AddEntryExactIff(a: Archive, key: Name, e: Entry)
    requires Exact(a)
    ensures Exact(AddEntry(a, key, e)) <==> key !in a.entries
    ensures key in a.entries ==> multiset(AddEntry(a, key, e).keys)[key] == 2
  {
    hide DupFree, Sort;
    SortedAppend(a.keys, key);
    if key in a.entries {
      SortSorts(a.keys + [key]);
      DupFreeCounts(a.keys);
      assert multiset(a.keys)[key] == 1 by { assert key in a.keys; }
    }
  }

  /** mv keeps one key per entry exactly when its destination is free or is the source itself. */
  lemma MvExactIff(a: Archive, from: Name, to: Name)
    requires Exact(a)
    ensures Exact(Mv(a, from, to)) <==> to !in a.entries || to == from
  {
    hide DupFree, Sort, Without;
    WithoutIsFilter(a.keys, {from});
    SortedAppend(Without(a.keys, {from}), to);
  }

  /** mv takes every key of the source away, adds one for the destination, and leaves the list sorted; a missing
      source counts as an empty entry. */
  lemma MvState(a: Archive, from: Name, to: Name)
    ensures var b := Mv(a, from, to);
            && Sorted(b.keys)
            && (forall k :: multiset(b.keys)[k] ==
                  (if k == from then 0 else multiset(a.keys)[k]) + (if k == to then 1 else 0))
            && to in b.entries && b.entries[to] == (if from in a.entries then a.entries[from] else Entry(0, 0, 0, 0, 0, []))
            && b.entries.Keys == a.entries.Keys - {from} + {to}
            && (forall k :: k in b.entries && k != to ==> b.entries[k] == a.entries[k])
  {
    hide Sorted;
    var kept := Without(a.keys, {from});
    SortSorts(kept + [to]);
    WithoutCounts(a.keys, {from});
    assert multiset(kept + [to]) == multiset(kept) + multiset{to};
  }

  // ---- Runs -------------------------------------------------------------------------------

  /** The editing commands. Load is LoadFromFile, which ignores what LoadFromData reports. */
  datatype Edit =
    | LoadEdit(data: Bytes)
    | RmEdit(path: Name, recursive: bool)
    | AddEdit(key: Name, entry: Entry)
    | MkdirEdit(mode: uint32, dir: Name)
    | LnEdit(target: Name, cleaned: Name, link: Name)
    | MvEdit(from: Name, to: Name)

  function Apply(a: Archive, edit: Edit): Archive {
    match edit
    case LoadEdit(data) => Load(a, data).archive
    case RmEdit(path, recursive) => Rm(a, path, recursive)
    case AddEdit(key, e) => AddEntry(a, key, e)
    case MkdirEdit(mode, dir) => AddEntry(a, dir, DirEntry(mode))
    case LnEdit(target, cleaned, link) => AddEntry(a, link, LinkEntry(target, cleaned))
    case MvEdit(from, to) => Mv(a, from, to)
  }

  /** The same commands on a plain map. */
  function ApplyToMap(m: map<Name, Entry>, edit: Edit): map<Name, Entry>
    requires !edit.LoadEdit?
  {
    match edit
    case RmEdit(path, recursive) =>
      map k | k in m && k != path && !(recursive && HasPrefix(k, path + [SLASH])) :: m[k]
    case AddEdit(key, e) => m[key := e]
    case MkdirEdit(mode, dir) => m[dir := DirEntry(mode)]
    case LnEdit(target, cleaned, link) => m[link := LinkEntry(target, cleaned)]
    case MvEdit(from, to) => (m - {from})[to := Lookup(m, from)]
  }

  /** What has to be free before the command. */
  predicate Proper(m: map<Name, Entry>, edit: Edit) {
    match edit
    case LoadEdit(_) => false
    case RmEdit(_, _) => true
    case AddEdit(key, _) => key !in m
    case MkdirEdit(_, dir) => dir !in m
    case LnEdit(_, _, link) => link !in m
    case MvEdit(from, to) => to !in m || to == from
  }

  function ApplyAll(a: Archive, edits: seq<Edit>): Archive
    decreases edits
  {
    if edits == [] then a else ApplyAll(Apply(a, edits[0]), edits[1..])
  }

  function ApplyAllToMap(m: map<Name, Entry>, edits: seq<Edit>): map<Name, Entry>
    requires forall i :: 0 <= i < |edits| ==> !edits[i].LoadEdit?
    decreases edits
  {
    if edits == [] then m else ApplyAllToMap(ApplyToMap(m, edits[0]), edits[1..])
  }

  /** Every command of the run finds its target free. */
  predicate AllProper(m: map<Name, Entry>, edits: seq<Edit>)
    decreases edits
  {
    edits == [] ||
    (Proper(m, edits[0]) && !edits[0].LoadEdit? && AllProper(ApplyToMap(m, edits[0]), edits[1..]))
  }

  lemma {:induction false} AllProperLoadsNothing(m: map<Name, Entry>, edits: seq<Edit>)
    requires AllProper(m, edits)
    ensures forall i :: 0 <= i < |edits| ==> !edits[i].LoadEdit?
    decreases edits
  {
    if edits != [] {
      AllProperLoadsNothing(ApplyToMap(m, edits[0]), edits[1..]);
      forall i | 0 <= i < |edits| ensures !edits[i].LoadEdit? {
        if i > 0 { assert edits[i] == edits[1..][i - 1]; }
      }
    }
  }

  lemma CoveredApply(a: Archive, edit: Edit)
    requires Covered(a)
    ensures Covered(Apply(a, edit))
  {
    hide LoadFrom, Covered, Rm, AddEntry, Mv;
    match edit
    case LoadEdit(data) => CoveredLoad(data, 0, a);
    case RmEdit(path, recursive) => CoveredRm(a, path, recursive);
    case AddEdit(key, e) => CoveredAddEntry(a, key, e);
    case MkdirEdit(mode, dir) => CoveredAddEntry(a, dir, DirEntry(mode));
    case LnEdit(target, cleaned, link) => CoveredAddEntry(a, link, LinkEntry(target, cleaned));
    case MvEdit(from, to) => CoveredMv(a, from, to);
  }

  /** One command, exactly: the archive stays exact just when the command is proper, and its map
      changes as the plain map does in any case. */
  lemma ApplyExactIff(a: Archive, edit: Edit)
    requires Exact(a) && !edit.LoadEdit?
    ensures Exact(Apply(a, edit)) <==> Proper(a.entries, edit)
    ensures Apply(a, edit).entries == ApplyToMap(a.entries, edit)
  {
    hide DupFree, Sort, DirEntry, LinkEntry, HasPrefix;
    match edit
    case RmEdit(path, recursive) => RmRemovesSubtree(a, path, recursive);
    case AddEdit(key, e) => AddEntryExactIff(a, key, e);
    case MkdirEdit(mode, dir) => AddEntryExactIff(a, dir, DirEntry(mode));
    case LnEdit(target, cleaned, link) => AddEntryExactIff(a, link, LinkEntry(target, cleaned));
    case MvEdit(from, to) => MvExactIff(a, from, to);
  }

  /** Over any run of proper commands the object is a plain map with its keys listed once each. */
  lemma {:induction false} RunRefinesMap(a: Archive, edits: seq<Edit>)
    requires Exact(a) && AllProper(a.entries, edits)
    ensures forall i :: 0 <= i < |edits| ==> !edits[i].LoadEdit?
    ensures Exact(ApplyAll(a, edits))
    ensures ApplyAll(a, edits).entries == ApplyAllToMap(a.entries, edits)
    decreases edits
  {
    hide Apply, Exact, ApplyToMap, Proper;
    AllProperLoadsNothing(a.entries, edits);
    if edits != [] {
      ApplyExactIff(a, edits[0]);
      RunRefinesMap(Apply(a, edits[0]), edits[1..]);
    }
  }

  /** A freshly loaded archive is exact when its names are distinct. */
  lemma {:induction false} LoadedIsExact(data: Bytes, pos: nat, a: Archive)
    requires a.entries.Keys == ToSet(a.keys)
    ensures var b := LoadFrom(data, pos, a).archive;
            b.entries.Keys == ToSet(b.keys) && (Exact(b) <==> DupFree(b.keys))
    decreases |data| - pos
  {
    hide IndexOf, ReadEntry, TrimNul, DupFree;
    if pos < |data| && ReadHead(data, pos).Head? {
      var Head(name, next) := ReadHead(data, pos);
      if name == DOT || name == DOT_DOT {
        LoadedIsExact(data, next, a);
      } else if name == TRAILER {
        if next <= |data| && IndexOf(data, next, MAGIC).Some? {
          LoadedIsExact(data, IndexOf(data, next, MAGIC).value, a);
        }
      } else if ReadEntry(data, pos, next).Some? {
        var e := ReadEntry(data, pos, next).value;
        assert Add(a, name, e).entries.Keys == ToSet(Add(a, name, e).keys);
        LoadedIsExact(data, Align4(next + |e.data|), Add(a, name, e));
      }
    }
  }
}
