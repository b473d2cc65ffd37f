/** When the difference backup finds is exact: nothing is saved or recorded needlessly. */
module CpioExact {
  import opened CpioFormat
  import opened Names
  import opened CpioOps
  import opened CpioBackup

  // ---- The condition on the two key lists ---------------------------------------------------

  /** The names of the list that are in `vs`, in their order. */
  function Only(s: seq<Name>, vs: set<Name>): seq<Name> {
    if s == [] then [] else if s[0] in vs then [s[0]] + Only(s[1..], vs) else Only(s[1..], vs)
  }

  /** Every name outside `vs` is smaller than the next name in `vs` behind it. */
  predicate BelowNext(s: seq<Name>, vs: set<Name>) {
    s == [] ||
    (BelowNext(s[1..], vs) &&
     (s[0] in vs || Only(s[1..], vs) == [] || Compare(s[0], Only(s[1..], vs)[0]) < 0))
  }

  /** The shared names stand in the same order in both lists, and each unshared name is smaller than the
      next shared one behind it in its own list. */
  predicate Aligned(l: seq<Name>, r: seq<Name>) {
    Only(l, ToSet(r)) == Only(r, ToSet(l)) && BelowNext(l, ToSet(r)) && BelowNext(r, ToSet(l))
  }

  lemma {:induction false} OnlyAgrees(s: seq<Name>, vs: set<Name>, ws: set<Name>)
    requires forall k :: k in s ==> (k in vs <==> k in ws)
    ensures Only(s, vs) == Only(s, ws) && (BelowNext(s, vs) <==> BelowNext(s, ws))
  {
    hide Compare;
    if s != [] { OnlyAgrees(s[1..], vs, ws); }
  }

  lemma {:induction false} OnlyOf(s: seq<Name>, vs: set<Name>)
    ensures forall k :: k in Only(s, vs) <==> k in s && k in vs
  {
    if s != [] {
      HeadAndTail(s);
      OnlyOf(s[1..], vs);
    }
  }

  /** In a list whose unshared names are below the next shared one, so is the head, or it is that one. */
  lemma HeadBelowNext(s: seq<Name>, vs: set<Name>)
    requires BelowNext(s, vs) && Only(s, vs) != []
    ensures s != [] && Compare(s[0], Only(s, vs)[0]) <= 0
  {
    CompareSwaps(s[0], s[0]);
  }

  lemma AlignedSkip(l: seq<Name>, r: seq<Name>)
    requires l != [] && DupFree(l) && l[0] !in r && (r == [] || Compare(l[0], r[0]) < 0)
    ensures Aligned(l, r) <==> Aligned(l[1..], r)
  {
    hide Compare, DupFree;
    TailSet(l);
    OnlyAgrees(r, ToSet(l), ToSet(l[1..]));
    if Aligned(l[1..], r) && Only(l[1..], ToSet(r)) != [] {
      HeadBelowNext(r, ToSet(l[1..]));
      CompareTransitive(l[0], r[0], Only(r, ToSet(l[1..]))[0]);
    }
  }

  lemma NotAligned(l: seq<Name>, r: seq<Name>)
    requires l != [] && r != [] && l[0] in r && Compare(l[0], r[0]) < 0
    ensures !Aligned(l, r)
  {
    hide Compare;
    if Aligned(l, r) {
      HeadBelowNext(r, ToSet(l));
      CompareSwaps(l[0], r[0]);
    }
  }

  lemma AlignedHeads(l: seq<Name>, r: seq<Name>)
    requires l != [] && r != [] && DupFree(l) && DupFree(r) && l[0] == r[0]
    ensures Aligned(l, r) <==> Aligned(l[1..], r[1..])
  {
    hide Compare, DupFree;
    TailSet(l);
    TailSet(r);
    OnlyAgrees(l[1..], ToSet(r), ToSet(r[1..]));
    OnlyAgrees(r[1..], ToSet(l), ToSet(l[1..]));
    var k := l[0];
    assert Only(l, ToSet(r)) == [k] + Only(l[1..], ToSet(r));
    assert Only(r, ToSet(l)) == [k] + Only(r[1..], ToSet(l));
    assert ([k] + Only(l[1..], ToSet(r)))[1..] == Only(l[1..], ToSet(r));
    assert ([k] + Only(r[1..], ToSet(l)))[1..] == Only(r[1..], ToSet(l));
  }

  lemma AlignedEitherWay(l: seq<Name>, r: seq<Name>)
    ensures Aligned(l, r) <==> Aligned(r, l)
  {
  }

  // ---- What the merge records ---------------------------------------------------------------------

  /** On aligned lists the merge records what the original lacks; on others it records some shared name. */
  lemma {:induction false} MergeRecords(l: seq<Name>, r: seq<Name>, lhs: map<Name, Entry>, rhs: map<Name, Entry>,
                                        skip: bool, lib: Library)
    requires DupFree(l) && DupFree(r)
    ensures var d := Merge(l, r, lhs, rhs, skip, lib);
            && (Aligned(l, r) ==> d.removed == Without(r, ToSet(l)))
            && (!Aligned(l, r) ==> exists k :: k in d.removed && k in l)
    decreases |l| + |r|
  {
    hide Lookup, Compare, DupFree, Aligned, Undoes;
    if l != [] { TailSet(l); }
    if r != [] { TailSet(r); }
    if l != [] && (r == [] || Compare(l[0], r[0]) < 0) {
      if l[0] in r {
        NotAligned(l, r);
        RecordsUnshared(l[1..], r, lhs, rhs, skip, lib, l[0]);
      } else {
        AlignedSkip(l, r);
        MergeRecords(l[1..], r, lhs, rhs, skip, lib);
        WithoutAbsent(r, ToSet(l), l[0]);
      }
    } else if r != [] && (l == [] || Compare(l[0], r[0]) > 0) {
      if l != [] { CompareSwaps(l[0], r[0]); }
      AlignedEitherWay(l, r);
      AlignedEitherWay(l, r[1..]);
      if r[0] in l {
        NotAligned(r, l);
      } else {
        AlignedSkip(r, l);
        MergeRecords(l, r[1..], lhs, rhs, skip, lib);
      }
    } else if l != [] {
      CompareSwaps(l[0], r[0]);
      AlignedHeads(l, r);
      MergeRecords(l[1..], r[1..], lhs, rhs, skip, lib);
      WithoutAbsent(r[1..], ToSet(l), l[0]);
    } else {
      NothingIsAligned();
    }
  }

  lemma NothingIsAligned()
    ensures Aligned([], [])
  {
  }

  lemma RecordsUnshared(l: seq<Name>, r: seq<Name>, lhs: map<Name, Entry>, rhs: map<Name, Entry>, skip: bool,
                         lib: Library, k: Name)
    requires DupFree(l) && DupFree(r) && k in r && k !in l
    ensures k in Merge(l, r, lhs, rhs, skip, lib).removed
  {
    hide Merge, DupFree;
    MergeUndoes(l, r, lhs, rhs, skip, lib);
    assert k in ToSet(r) - ToSet(l);
  }

  // ---- Exactly when the merge is exact --------------------------------------------------------------

  /** The entries of the original that the current archive lacks or holds with other data. */
  function Missing(ls: set<Name>, rs: set<Name>, lhs: map<Name, Entry>, rhs: map<Name, Entry>): map<Name, Entry> {
    map k | k in ls && !(k in rs && Lookup(rhs, k).data == Lookup(lhs, k).data) :: Lookup(lhs, k)
  }

  predicate IsExactMerge(d: Diff, l: seq<Name>, r: seq<Name>, lhs: map<Name, Entry>, rhs: map<Name, Entry>,
                         skip: bool, lib: Library) {
    && d.saved == PackAll(Missing(ToSet(l), ToSet(r), lhs, rhs), skip, lib)
    && d.removed == Without(r, ToSet(l))
  }

  lemma SparingIsExact(d: Diff, ls: set<Name>, rs: set<Name>, lhs: map<Name, Entry>, rhs: map<Name, Entry>,
                       skip: bool, lib: Library)
    requires Undoes(d, ls, rs, lhs, rhs, skip, lib) && ToSet(d.removed) == rs - ls
    ensures d.saved == PackAll(Missing(ls, rs, lhs, rhs), skip, lib)
  {
    hide Lookup, Packed;
  }

  /** On lists without repeats the merge saves exactly what is missing or differs and records exactly the
      rest, in order, if and only if the lists are aligned. */
  lemma MergeExactIff(l: seq<Name>, r: seq<Name>, lhs: map<Name, Entry>, rhs: map<Name, Entry>, skip: bool,
                      lib: Library)
    requires DupFree(l) && DupFree(r)
    ensures var d := Merge(l, r, lhs, rhs, skip, lib);
            && (IsExactMerge(d, l, r, lhs, rhs, skip, lib) <==> Aligned(l, r))
            && (ToSet(d.removed) == ToSet(r) - ToSet(l) <==> Aligned(l, r))
  {
    hide Merge, DupFree, Undoes, Missing, Aligned, Without;
    var d := Merge(l, r, lhs, rhs, skip, lib);
    MergeUndoes(l, r, lhs, rhs, skip, lib);
    MergeRecords(l, r, lhs, rhs, skip, lib);
    WithoutIsFilter(r, ToSet(l));
    if !Aligned(l, r) {
      var k :| k in d.removed && k in l;
      assert k in ToSet(d.removed) && k !in ToSet(r) - ToSet(l);
    } else {
      SparingIsExact(d, ToSet(l), ToSet(r), lhs, rhs, skip, lib);
    }
  }

  // ---- Sorted lists -----------------------------------------------------------------------------------

  lemma StrictTail(s: seq<Name>)
    requires StrictlySorted(s) && s != []
    ensures StrictlySorted(s[1..])
    ensures forall k :: k in s[1..] ==> Compare(s[0], k) < 0
  {
    hide Compare;
    assert forall i :: 0 <= i < |s[1..]| ==> s[1..][i] == s[i + 1];
  }

  lemma StrictIsDupFree(s: seq<Name>)
    requires StrictlySorted(s)
    ensures DupFree(s)
  {
    hide Compare;
    forall i, j | 0 <= i < j < |s| ensures s[i] != s[j] {
      CompareSwaps(s[i], s[j]);
    }
  }

  lemma {:induction false} OnlyOfSorted(s: seq<Name>, vs: set<Name>)
    requires StrictlySorted(s)
    ensures StrictlySorted(Only(s, vs)) && BelowNext(s, vs)
  {
    hide Compare;
    if s != [] {
      StrictTail(s);
      OnlyOfSorted(s[1..], vs);
      OnlyOf(s[1..], vs);
      var t := Only(s[1..], vs);
      forall i | 0 <= i < |t| ensures Compare(s[0], t[i]) < 0 {
        assert t[i] in s[1..];
      }
    }
  }

  lemma StrictIsUnique(s: seq<Name>, t: seq<Name>)
    requires StrictlySorted(s) && StrictlySorted(t) && forall k :: k in s <==> k in t
    ensures s == t
  {
    hide Compare;
    StrictIsDupFree(s);
    StrictIsDupFree(t);
    DupFreeCounts(s);
    DupFreeCounts(t);
    forall k ensures multiset(s)[k] == multiset(t)[k] {
      assert k in s <==> multiset(s)[k] > 0;
      assert k in t <==> multiset(t)[k] > 0;
    }
    assert multiset(s) == multiset(t);
    SortIsUnique(s, t);
  }

  lemma SortedIsAligned(l: seq<Name>, r: seq<Name>)
    requires StrictlySorted(l) && StrictlySorted(r)
    ensures Aligned(l, r)
  {
    hide StrictlySorted, Only, BelowNext;
    OnlyOfSorted(l, ToSet(r));
    OnlyOfSorted(r, ToSet(l));
    OnlyOf(l, ToSet(r));
    OnlyOf(r, ToSet(l));
    StrictIsUnique(Only(l, ToSet(r)), Only(r, ToSet(l)));
  }

  // ---- Archives -----------------------------------------------------------------------------------------

  /** The key list is in order, without repeats, and lists the map. */
  predicate Listed(a: Archive) {
    StrictlySorted(a.keys) && a.entries.Keys == ToSet(a.keys)
  }

  /** The entries of `l` that `r` lacks or holds with other data. */
  function Differing(l: map<Name, Entry>, r: map<Name, Entry>): map<Name, Entry> {
    map k | k in l && !(k in r && r[k].data == l[k].data) :: l[k]
  }

  lemma MissingInExact(l: map<Name, Entry>, r: map<Name, Entry>)
    ensures Missing(l.Keys, r.Keys, l, r) == Differing(l, r)
  {
  }

  /** The rm list names exactly what the original lacks, and the saved entries are exactly the original's
      that are missing or differ, if and only if the key lists are aligned. */
  lemma BackupExactIff(o: Archive, c: Archive, skip: bool, lib: Library)
    requires Exact(o) && Exact(c) && PlainNames(c.keys)
    ensures var d := Merge(o.keys, c.keys, o.entries, c.entries, skip, lib);
            var rm := RmListNames(RmListBytes(d.removed));
            && (Aligned(o.keys, c.keys) <==> ToSet(rm) == c.entries.Keys - o.entries.Keys)
            && (Aligned(o.keys, c.keys) ==>
                  rm == Without(c.keys, o.entries.Keys) && d.saved == PackAll(Differing(o.entries, c.entries), skip, lib))
  {
    hide Merge, DupFree, PlainNames, RmListNames, RmListBytes, Aligned, Missing, Without;
    BackupUndoes(o, c, skip, lib);
    MergeExactIff(o.keys, c.keys, o.entries, c.entries, skip, lib);
    MissingInExact(o.entries, c.entries);
  }

  /** On sorted archives backup computes an exact difference, and applying it to the current entries gives
      the original's data. */
  lemma BackupIsDiff(o: Archive, c: Archive, skip: bool, lib: Library)
    requires Listed(o) && Listed(c) && PlainNames(c.keys)
    ensures var d := Merge(o.keys, c.keys, o.entries, c.entries, skip, lib);
            var rm := RmListNames(RmListBytes(d.removed));
            && rm == Without(c.keys, o.entries.Keys) && ToSet(rm) == c.entries.Keys - o.entries.Keys
            && d.saved == PackAll(Differing(o.entries, c.entries), skip, lib)
            && DataMap((c.entries - ToSet(rm)) + Differing(o.entries, c.entries)) == DataMap(o.entries)
  {
    hide Merge, StrictlySorted, DupFree, PlainNames, RmListNames, RmListBytes, Aligned;
    StrictIsDupFree(o.keys);
    StrictIsDupFree(c.keys);
    SortedIsAligned(o.keys, c.keys);
    BackupExactIff(o, c, skip, lib);
    BackupUndoes(o, c, skip, lib);
  }

  /** Lists that are not aligned: the two archives are equal but for the order of their keys, and still a
      name is recorded for removal, and its entry saved. */
  lemma UnalignedMergeIsInexact(e: Entry, lib: Library)
    ensures var m: map<Name, Entry> := map[[97] := e, [98] := e];
            Merge([[98], [97]], [[97], [98]], m, m, true, lib) == Diff(map[[97] := e], [[97]])
  {
    var m: map<Name, Entry> := map[[97] := e, [98] := e];
    var l: seq<Name>, r: seq<Name> := [[98], [97]], [[97], [98]];
    assert l[1..] == [[97]] && r[1..] == [[98]];
    assert l[1..][1..] == [] && r[1..][1..] == [];
    assert Merge([], [], m, m, true, lib) == Diff(map[], []);
    assert Merge(l[1..], [], m, m, true, lib) == Diff(map[[97] := e], []);
    assert Merge(l, r[1..], m, m, true, lib) == Diff(map[[97] := e], []);
  }
}
