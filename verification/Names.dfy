/** Names in the order of Go's strings, lists of names without repeats, and sorted lists. */
module Names {
  import opened Words

  type Name = Bytes

  // ---- Order ------------------------------------------------------------------------

  /** cmp.Compare on strings: bytewise. */
  function Compare(a: Name, b: Name): (r: int)
    ensures -1 <= r <= 1
  {
    if a == [] then (if b == [] then 0 else -1)
    else if b == [] then 1
    else if a[0] < b[0] then -1
    else if a[0] > b[0] then 1
    else Compare(a[1..], b[1..])
  }

  lemma {:induction false} CompareSwaps(a: Name, b: Name)
    ensures Compare(a, b) == -Compare(b, a)
    ensures Compare(a, b) == 0 <==> a == b
  {
    if a != [] && b != [] && a[0] == b[0] {
      CompareSwaps(a[1..], b[1..]);
      assert a == [a[0]] + a[1..] && b == [b[0]] + b[1..];
    }
  }

  lemma {:induction false} CompareTransitive(a: Name, b: Name, c: Name)
    requires Compare(a, b) <= 0 && Compare(b, c) <= 0
    ensures Compare(a, c) <= 0
    ensures Compare(a, b) < 0 || Compare(b, c) < 0 ==> Compare(a, c) < 0
  {
    if a != [] && b != [] && c != [] && a[0] == b[0] == c[0] {
      CompareTransitive(a[1..], b[1..], c[1..]);
    }
  }

  /** One name is less than another exactly when it is a proper prefix of it, or has the smaller byte where they
      first differ. */
  lemma {:induction false} CompareIff(a: Name, b: Name)
    ensures Compare(a, b) < 0 <==>
            (a <= b && a != b) || exists i :: 0 <= i < |a| && i < |b| && a[..i] == b[..i] && a[i] < b[i]
  {
    if a == [] || b == [] {
    } else if a[0] != b[0] {
      if a[0] < b[0] { assert a[..0] == b[..0]; }
      forall i | 0 < i < |a| && i < |b| ensures a[..i] != b[..i] {
        assert a[..i][0] == a[0] && b[..i][0] == b[0];
      }
    } else {
      var s, t := a[1..], b[1..];
      CompareIff(s, t);
      assert a == [a[0]] + s && b == [b[0]] + t;
      if i :| 0 <= i < |a| && i < |b| && a[..i] == b[..i] && a[i] < b[i] {
        assert s[..i - 1] == a[..i][1..] && t[..i - 1] == b[..i][1..];
        assert s[i - 1] < t[i - 1];
      }
      if i :| 0 <= i < |s| && i < |t| && s[..i] == t[..i] && s[i] < t[i] {
        assert a[..i + 1] == [a[0]] + s[..i] && b[..i + 1] == [b[0]] + t[..i];
        assert a[i + 1] < b[i + 1];
      }
    }
  }

  predicate Sorted(s: seq<Name>) {
    forall i, j :: 0 <= i < j < |s| ==> Compare(s[i], s[j]) <= 0
  }

  predicate StrictlySorted(s: seq<Name>) {
    forall i, j :: 0 <= i < j < |s| ==> Compare(s[i], s[j]) < 0
  }

  predicate DupFree(s: seq<Name>) {
    forall i, j :: 0 <= i < j < |s| ==> s[i] != s[j]
  }

  function ToSet(s: seq<Name>): (r: set<Name>)
    ensures forall k :: k in r <==> k in s
  {
    set k | k in s
  }

  lemma NoNames(s: seq<Name>)
    ensures ToSet(s) == {} <==> s == []
  {
    if s != [] { assert s[0] in ToSet(s); }
  }

  // ---- Counting -----------------------------------------------------------------------

  lemma HeadAndTail(s: seq<Name>)
    requires s != []
    ensures s == [s[0]] + s[1..] && multiset(s) == multiset{s[0]} + multiset(s[1..])
  {
    assert s == [s[0]] + s[1..];
  }

  lemma DupFreeCons(s: seq<Name>)
    requires s != []
    ensures DupFree(s) <==> s[0] !in s[1..] && DupFree(s[1..])
  {
    assert forall i :: 0 <= i < |s| - 1 ==> s[1..][i] == s[i + 1];
    if s[0] !in s[1..] && DupFree(s[1..]) {
      forall i, j | 0 <= i < j < |s| ensures s[i] != s[j] {
        assert s[j] == s[1..][j - 1];
      }
    }
  }

  lemma {:induction false} DupFreeCounts(s: seq<Name>)
    ensures DupFree(s) <==> forall k :: multiset(s)[k] <= 1
  {
    if s != [] {
      hide DupFree;
      HeadAndTail(s);
      DupFreeCons(s);
      DupFreeCounts(s[1..]);
      assert s[0] in s[1..] <==> multiset(s[1..])[s[0]] > 0;
      assert multiset(s)[s[0]] == 1 + multiset(s[1..])[s[0]];
      if !DupFree(s[1..]) {
        var k :| multiset(s[1..])[k] > 1;
        assert multiset(s)[k] > 1;
      }
    }
  }

  lemma SameBagSameNames(s: seq<Name>, t: seq<Name>)
    requires multiset(s) == multiset(t)
    ensures DupFree(s) <==> DupFree(t)
    ensures forall k :: k in s <==> k in t
    ensures ToSet(s) == ToSet(t)
  {
    DupFreeCounts(s);
    DupFreeCounts(t);
    forall k ensures k in s <==> k in t {
      assert k in multiset(s) <==> k in multiset(t);
    }
  }

  // ---- Sorting ------------------------------------------------------------------------

  /** Is `t` what a library sort makes of the names counted in `bag`? */
  ghost predicate IsSortOf(t: seq<Name>, bag: multiset<Name>) {
    Sorted(t) && multiset(t) == bag
  }

  function Insert(x: Name, s: seq<Name>): seq<Name> {
    if s == [] || Compare(x, s[0]) <= 0 then [x] + s else [s[0]] + Insert(x, s[1..])
  }

  /** sort.Strings and slices.Sort: equal strings cannot be told apart, so the result is determined. */
  function Sort(s: seq<Name>): seq<Name> {
    if s == [] then [] else Insert(s[0], Sort(s[1..]))
  }

  lemma SortedCons(x: Name, s: seq<Name>)
    ensures Sorted([x] + s) <==> Sorted(s) && forall k :: k in s ==> Compare(x, k) <= 0
  {
    hide Compare;
    var t := [x] + s;
    assert forall i :: 0 <= i < |s| ==> s[i] == t[i + 1];
    if Sorted(t) {
      forall k | k in s ensures Compare(x, k) <= 0 {
        var i :| 0 <= i < |s| && s[i] == k;
        assert t[0] == x && t[i + 1] == k;
      }
    }
    if Sorted(s) && forall k :: k in s ==> Compare(x, k) <= 0 {
      forall i, j | 0 <= i < j < |t| ensures Compare(t[i], t[j]) <= 0 {
        assert t[j] == s[j - 1];
        if i > 0 { assert t[i] == s[i - 1]; }
      }
    }
  }

  lemma {:induction false} InsertSorts(x: Name, s: seq<Name>)
    requires Sorted(s)
    ensures IsSortOf(Insert(x, s), multiset{x} + multiset(s))
  {
    hide Compare, Sorted;
    if s == [] {
      SortedCons(x, s);
      assert Sorted(s) by { SortedEmpty(); }
    } else {
      HeadAndTail(s);
      SortedCons(s[0], s[1..]);
      if Compare(x, s[0]) <= 0 {
        forall k | k in s ensures Compare(x, k) <= 0 {
          CompareSwaps(s[0], s[0]);
          if k != s[0] { assert k in s[1..]; }
          CompareTransitive(x, s[0], k);
        }
        SortedCons(x, s);
        assert multiset([x] + s) == multiset{x} + multiset(s);
      } else {
        InsertSorts(x, s[1..]);
        var t := Insert(x, s[1..]);
        CompareSwaps(x, s[0]);
        forall k | k in t ensures Compare(s[0], k) <= 0 {
          assert k in multiset(t);
        }
        SortedCons(s[0], t);
        assert multiset([s[0]] + t) == multiset{s[0]} + multiset(t);
      }
    }
  }

  lemma SortedEmpty()
    ensures Sorted([])
  {
  }

  lemma {:induction false} SortSorts(s: seq<Name>)
    ensures IsSortOf(Sort(s), multiset(s))
  {
    if s != [] {
      HeadAndTail(s);
      SortSorts(s[1..]);
      InsertSorts(s[0], Sort(s[1..]));
    }
  }

  /** Sorting leaves no choice. */
  lemma {:induction false} SortIsUnique(s: seq<Name>, t: seq<Name>)
    requires Sorted(s) && Sorted(t) && multiset(s) == multiset(t)
    ensures s == t
  {
    hide Compare, Sorted;
    if s == [] {
      assert |t| == |multiset(t)| == 0;
    } else {
      assert |t| == |multiset(t)| == |s|;
      HeadAndTail(s);
      HeadAndTail(t);
      SortedCons(s[0], s[1..]);
      SortedCons(t[0], t[1..]);
      assert s[0] in multiset(t) && t[0] in multiset(s);
      if s[0] != t[0] {
        assert t[0] in multiset(s[1..]) && s[0] in multiset(t[1..]);
        CompareSwaps(s[0], t[0]);
        assert false;
      }
      assert multiset(s[1..]) == multiset(s) - multiset{s[0]};
      assert multiset(t[1..]) == multiset(t) - multiset{t[0]};
      SortIsUnique(s[1..], t[1..]);
    }
  }

  // ---- Removing -----------------------------------------------------------------------

  /** The list without the first occurrence of `v`. */
  function RemoveFirst(s: seq<Name>, v: Name): seq<Name> {
    if s == [] then [] else if s[0] == v then s[1..] else [s[0]] + RemoveFirst(s[1..], v)
  }

  /** The list without the first occurrence of every name in `vs`. */
  function RemoveFirsts(s: seq<Name>, vs: set<Name>): seq<Name> {
    if s == [] then []
    else if s[0] in vs then RemoveFirsts(s[1..], vs - {s[0]})
    else [s[0]] + RemoveFirsts(s[1..], vs)
  }

  /** The list without any name in `vs`, in the same order. */
  function Without(s: seq<Name>, vs: set<Name>): seq<Name> {
    if s == [] then []
    else if s[0] in vs then Without(s[1..], vs)
    else [s[0]] + Without(s[1..], vs)
  }

  lemma {:induction false} RemoveFirstsEmpty(s: seq<Name>)
    ensures RemoveFirsts(s, {}) == s
  {
    if s != [] { RemoveFirstsEmpty(s[1..]); }
  }

  /** The names can be removed one after the other, in whatever order. */
  lemma {:induction false} RemoveOneOf(s: seq<Name>, v: Name, vs: set<Name>)
    requires v in vs
    ensures RemoveFirsts(RemoveFirst(s, v), vs - {v}) == RemoveFirsts(s, vs)
  {
    if s != [] && s[0] != v {
      var t := RemoveFirst(s, v);
      assert t[0] == s[0] && t[1..] == RemoveFirst(s[1..], v);
      if s[0] in vs {
        assert vs - {v} - {s[0]} == vs - {s[0]} - {v};
        RemoveOneOf(s[1..], v, vs - {s[0]});
      } else {
        RemoveOneOf(s[1..], v, vs);
      }
    }
  }

  lemma {:induction false} WithoutCounts(s: seq<Name>, vs: set<Name>)
    ensures forall k :: multiset(Without(s, vs))[k] == if k in vs then 0 else multiset(s)[k]
  {
    if s != [] {
      HeadAndTail(s);
      WithoutCounts(s[1..], vs);
      if s[0] !in vs {
        var t := Without(s[1..], vs);
        assert multiset([s[0]] + t) == multiset{s[0]} + multiset(t);
      }
    }
  }

  lemma WithoutIsFilter(s: seq<Name>, vs: set<Name>)
    ensures forall k :: k in Without(s, vs) <==> k in s && k !in vs
    ensures DupFree(s) ==> DupFree(Without(s, vs))
    ensures ToSet(Without(s, vs)) == ToSet(s) - vs
  {
    hide DupFree, Without;
    var t := Without(s, vs);
    WithoutCounts(s, vs);
    forall k ensures k in t <==> k in s && k !in vs {
      assert k in t <==> multiset(t)[k] > 0;
      assert k in s <==> multiset(s)[k] > 0;
    }
    DupFreeCounts(s);
    DupFreeCounts(t);
  }

  /** Of every name in `vs` one occurrence is gone. */
  lemma {:induction false} RemoveFirstsCounts(s: seq<Name>, vs: set<Name>, k: Name)
    ensures multiset(RemoveFirsts(s, vs))[k] == multiset(s)[k] - (if k in vs && k in s then 1 else 0)
  {
    if s != [] {
      HeadAndTail(s);
      assert k in s <==> k == s[0] || k in s[1..];
      if s[0] in vs {
        RemoveFirstsCounts(s[1..], vs - {s[0]}, k);
      } else {
        RemoveFirstsCounts(s[1..], vs, k);
      }
    }
  }

  lemma {:induction false} RemoveFirstsOfDupFree(s: seq<Name>, vs: set<Name>)
    requires DupFree(s)
    ensures RemoveFirsts(s, vs) == Without(s, vs)
  {
    if s != [] {
      assert forall i :: 0 <= i < |s[1..]| ==> s[1..][i] == s[i + 1];
      assert s[0] !in s[1..];
      RemoveFirstsOfDupFree(s[1..], vs - {s[0]});
      RemoveFirstsOfDupFree(s[1..], vs);
      WithoutAbsent(s[1..], vs, s[0]);
    }
  }

  lemma {:induction false} WithoutAbsent(s: seq<Name>, vs: set<Name>, v: Name)
    requires v !in s
    ensures Without(s, vs - {v}) == Without(s, vs)
  {
    if s != [] {
      assert s[0] != v && v !in s[1..];
      WithoutAbsent(s[1..], vs, v);
    }
  }

  lemma {:induction false} RemoveFirstKeeps(s: seq<Name>, v: Name)
    ensures forall k :: k in s && k != v ==> k in RemoveFirst(s, v)
    ensures forall k :: k in RemoveFirst(s, v) ==> k in s
  {
    if s != [] {
      HeadAndTail(s);
      if s[0] != v { RemoveFirstKeeps(s[1..], v); }
    }
  }

  lemma {:induction false} RemoveFirstsKeeps(s: seq<Name>, vs: set<Name>)
    ensures forall k :: k in s && k !in vs ==> k in RemoveFirsts(s, vs)
    ensures forall k :: k in RemoveFirsts(s, vs) ==> k in s
  {
    if s != [] {
      HeadAndTail(s);
      RemoveFirstsKeeps(s[1..], vs - {s[0]});
      RemoveFirstsKeeps(s[1..], vs);
    }
  }

  lemma {:induction false} WithoutFinds(s: seq<Name>, vs: set<Name>, i: nat) returns (p: nat)
    requires i < |s| && s[i] !in vs
    ensures p < |Without(s, vs)| && Without(s, vs)[p] == s[i]
  {
    if i == 0 {
      p := 0;
    } else {
      p := WithoutFinds(s[1..], vs, i - 1);
      if s[0] !in vs { p := p + 1; }
    }
  }

  /** Names that stay keep their relative order. */
  lemma {:induction false} WithoutKeepsOrder(s: seq<Name>, vs: set<Name>, i: nat, j: nat) returns (p: nat, q: nat)
    requires i < j < |s| && s[i] !in vs && s[j] !in vs
    ensures p < q < |Without(s, vs)| && Without(s, vs)[p] == s[i] && Without(s, vs)[q] == s[j]
  {
    if i == 0 {
      p := 0;
      q := WithoutFinds(s[1..], vs, j - 1);
      q := q + 1;
    } else {
      p, q := WithoutKeepsOrder(s[1..], vs, i - 1, j - 1);
      if s[0] !in vs { p, q := p + 1, q + 1; }
    }
  }
}
