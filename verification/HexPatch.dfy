/** The scan of HexPatch: it overwrites matches in place, goes on one byte further, and so reads
    again what it has just written. */
module HexPatch {
  import opened Words

  // ---- One position -----------------------------------------------------------------------

  predicate MatchesAt(m: Bytes, i: nat, from: Bytes) {
    i + |from| <= |m| && m[i..i + |from|] == from
  }

  /** All the bytes that are left match, but the pattern is longer: the comparison loop indexes
      beyond the end of the buffer. */
  predicate RunsOff(m: Bytes, i: nat, from: Bytes) {
    i < |m| < i + |from| && m[i..] == from[..|m| - i]
  }

  /** copy(m[i:], to) */
  function Overwrite(m: Bytes, i: nat, to: Bytes): (r: Bytes)
    requires i <= |m|
    ensures |r| == |m|
  {
    var n := if |to| <= |m| - i then |to| else |m| - i;
    m[..i] + to[..n] + m[i + n..]
  }

  // ---- The scan ----------------------------------------------------------------------------

  /** The buffer as it is left, whether anything was patched, and whether the run was cut short by
      an index out of range. */
  datatype Scanned = Scanned(buffer: Bytes, patched: bool, panicked: bool)

  function Scan(m: Bytes, i: nat, from: Bytes, to: Bytes, patched: bool): (r: Scanned)
    ensures |r.buffer| == |m|
    decreases |m| - i
  {
    if i >= |m| then Scanned(m, patched, false)
    else if from == [] || RunsOff(m, i, from) then Scanned(m, patched, true)
    else if MatchesAt(m, i, from) then Scan(Overwrite(m, i, to), i + 1, from, to, true)
    else Scan(m, i + 1, from, to, patched)
  }

  /** The two nested loops over the mapped file. */
  method Patch(m: array<byte>, from: Bytes, to: Bytes) returns (patched: bool, panicked: bool)
    modifies m
    ensures Scanned(m[..], patched, panicked) == Scan(old(m[..]), 0, from, to, false)
  {
    hide MatchesAt, RunsOff;
    patched, panicked := false, false;
    var i := 0;
    while i < m.Length
      invariant i <= m.Length && !panicked
      invariant Scan(old(m[..]), 0, from, to, false) == Scan(m[..], i, from, to, patched)
    {
      if |from| == 0 { panicked := true; return; }
      var found := false;
      if from[0] == m[i] {
        var end;
        found, end := CompareAt(m, i, from);
        if end { panicked := true; return; }
        if found {
          CopyTo(m, i, to);
          patched := true;
        }
      } else {
        MatchByte(m[..], i, from, 0);
      }
      i := i + 1;
    }
  }

  /** A match, whole or cut off by the end, agrees with the pattern byte by byte. */
  lemma MatchByte(m: Bytes, i: nat, from: Bytes, j: nat)
    requires j < |from| && i + j < |m|
    ensures MatchesAt(m, i, from) || RunsOff(m, i, from) ==> m[i + j] == from[j]
  {
    if MatchesAt(m, i, from) {
      assert m[i..i + |from|][j] == m[i + j];
    } else if RunsOff(m, i, from) {
      assert m[i..][j] == m[i + j];
    }
  }

  method CompareAt(m: array<byte>, i: nat, from: Bytes) returns (found: bool, runsOff: bool)
    requires i < m.Length && from != []
    ensures runsOff == RunsOff(m[..], i, from)
    ensures !runsOff ==> found == MatchesAt(m[..], i, from)
  {
    found, runsOff := true, false;
    ghost var s := m[..];
    for j := 0 to |from|
      invariant i + j <= m.Length && found && !runsOff
      invariant s[i..i + j] == from[..j]
    {
      if i + j >= m.Length {
        assert s[i..] == from[..j];
        return true, true;
      }
      assert s[i + j] == m[i + j];
      if from[j] != m[i + j] {
        MatchByte(s, i, from, j);
        return false, false;
      }
    }
    assert s[i..i + |from|] == from;
  }

  method CopyTo(m: array<byte>, i: nat, to: Bytes)
    requires i < m.Length
    modifies m
    ensures m[..] == Overwrite(old(m[..]), i, to)
  {
    var n := if |to| <= m.Length - i then |to| else m.Length - i;
    forall k | 0 <= k < n {
      m[i + k] := to[k];
    }
    assert m[..] == old(m[..i]) + to[..n] + old(m[i + n..]);
  }

  // ---- Any pattern, any replacement ------------------------------------------------------------

  predicate OccursIn(s: Bytes, from: Bytes) {
    exists i :: 0 <= i <= |s| && MatchesAt(s, i, from)
  }

  /** The positions the scan overwrites, in order. */
  function Hits(m: Bytes, i: nat, from: Bytes, to: Bytes): (ps: seq<nat>)
    requires from != []
    decreases |m| - i
  {
    if i >= |m| || RunsOff(m, i, from) then []
    else if MatchesAt(m, i, from) then [i] + Hits(Overwrite(m, i, to), i + 1, from, to)
    else Hits(m, i + 1, from, to)
  }

  function OverwriteAll(m: Bytes, ps: seq<nat>, to: Bytes): (r: Bytes)
    ensures |r| == |m|
    decreases ps
  {
    if ps == [] || ps[0] > |m| then m else OverwriteAll(Overwrite(m, ps[0], to), ps[1..], to)
  }

  /** The scan does nothing but copy `to` over the positions it hits, left to right. */
  lemma {:induction false} ScanOverwritesHits(m: Bytes, i: nat, from: Bytes, to: Bytes, patched: bool)
    requires from != []
    ensures var r := Scan(m, i, from, to, patched);
            var ps := Hits(m, i, from, to);
            && r.buffer == OverwriteAll(m, ps, to)
            && (r.patched <==> patched || ps != [])
            && (forall k :: 0 <= k < |ps| ==> i <= ps[k] < |m|)
            && (forall k, l :: 0 <= k < l < |ps| ==> ps[k] < ps[l])
    decreases |m| - i
  {
    hide MatchesAt, RunsOff, Overwrite;
    if i < |m| && !RunsOff(m, i, from) {
      if MatchesAt(m, i, from) {
        var m' := Overwrite(m, i, to);
        ScanOverwritesHits(m', i + 1, from, to, true);
        var ps := [i] + Hits(m', i + 1, from, to);
        assert ps[1..] == Hits(m', i + 1, from, to);
      } else {
        ScanOverwritesHits(m, i + 1, from, to, patched);
      }
    }
  }

  /** Each hit is a match in the buffer as the earlier hits have left it. */
  lemma {:induction false} HitsAreMatches(m: Bytes, i: nat, from: Bytes, to: Bytes, k: nat)
    requires from != [] && k < |Hits(m, i, from, to)|
    ensures MatchesAt(OverwriteAll(m, Hits(m, i, from, to)[..k], to), Hits(m, i, from, to)[k], from)
    decreases |m| - i
  {
    hide RunsOff, Overwrite;
    if MatchesAt(m, i, from) {
      if k > 0 {
        var m' := Overwrite(m, i, to);
        var ps := Hits(m', i + 1, from, to);
        assert ([i] + ps)[..k][1..] == ps[..k - 1];
        HitsAreMatches(m', i + 1, from, to, k - 1);
      }
    } else {
      HitsAreMatches(m, i + 1, from, to, k);
    }
  }

  /** Copying stops at the end of the buffer. */
  lemma OverwriteByte(m: Bytes, i: nat, to: Bytes, x: nat)
    requires i <= |m| && x < |m|
    ensures Overwrite(m, i, to)[x] == if i <= x < i + |to| then to[x - i] else m[x]
  {
  }

  /** An empty pattern has no first byte to compare: the run is cut short at once. */
  lemma EmptyPattern(m: Bytes, to: Bytes)
    ensures Scan(m, 0, [], to, false) == Scanned(m, false, m != [])
  {
  }

  /** The hits before position p. */
  function Below(ps: seq<nat>, p: nat): seq<nat> {
    if ps == [] || ps[0] >= p then [] else [ps[0]] + Below(ps[1..], p)
  }

  lemma {:induction false} HitsFrom(m: Bytes, i: nat, from: Bytes, to: Bytes)
    requires from != []
    ensures forall p :: p in Hits(m, i, from, to) ==> i <= p
    decreases |m| - i
  {
    hide MatchesAt, RunsOff, Overwrite;
    if i < |m| && !RunsOff(m, i, from) {
      if MatchesAt(m, i, from) {
        HitsFrom(Overwrite(m, i, to), i + 1, from, to);
      } else {
        HitsFrom(m, i + 1, from, to);
      }
    }
  }

  /** In a run that completes no match is passed over: a position is hit exactly if the pattern stands there in the
      buffer as the hits before it have left it, even where that is what they wrote. */
  lemma {:induction false} HitsIff(m: Bytes, i: nat, from: Bytes, to: Bytes, patched: bool, p: nat)
    requires from != [] && i <= p < |m| && !Scan(m, i, from, to, patched).panicked
    ensures p in Hits(m, i, from, to) <==> MatchesAt(OverwriteAll(m, Below(Hits(m, i, from, to), p), to), p, from)
    decreases |m| - i
  {
    hide MatchesAt, RunsOff, Overwrite;
    if MatchesAt(m, i, from) {
      var m' := Overwrite(m, i, to);
      var ps := Hits(m', i + 1, from, to);
      assert ([i] + ps)[1..] == ps;
      if i < p {
        HitsIff(m', i + 1, from, to, true, p);
        assert Below([i] + ps, p) == [i] + Below(ps, p);
        assert ([i] + Below(ps, p))[1..] == Below(ps, p);
      }
    } else {
      HitsFrom(m, i + 1, from, to);
      var ps := Hits(m, i + 1, from, to);
      if i < p {
        HitsIff(m, i + 1, from, to, patched, p);
      } else {
        assert ps != [] ==> ps[0] in ps;
        assert Below(ps, p) == [];
      }
    }
  }

  /** A byte the scan changed lies in a window of |to| bytes that begins at a hit. */
  lemma {:induction false} ChangedBytesAreHit(m: Bytes, ps: seq<nat>, to: Bytes, x: nat)
    requires x < |m| && OverwriteAll(m, ps, to)[x] != m[x]
    ensures exists k :: 0 <= k < |ps| && ps[k] <= x < ps[k] + |to|
    decreases ps
  {
    var p := ps[0];
    var m' := Overwrite(m, p, to);
    if p <= x < p + |to| {
    } else {
      assert m'[x] == m[x];
      ChangedBytesAreHit(m', ps[1..], to, x);
      var k :| 0 <= k < |ps[1..]| && ps[1..][k] <= x < ps[1..][k] + |to|;
      assert ps[k + 1] == ps[1..][k];
    }
  }

  /** Up to the first occurrence the scan changes nothing and cannot run off the end. */
  lemma {:induction false} ScanFindsFirst(m: Bytes, i: nat, from: Bytes, to: Bytes, p: nat)
    requires from != [] && i <= p && MatchesAt(m, p, from)
    requires forall q :: i <= q < p ==> !MatchesAt(m, q, from)
    ensures Scan(m, i, from, to, false) == Scan(Overwrite(m, p, to), p + 1, from, to, true)
    decreases p - i
  {
    if i < p {
      ScanFindsFirst(m, i + 1, from, to, p);
    }
  }

  lemma {:induction false} StaysPatched(m: Bytes, i: nat, from: Bytes, to: Bytes)
    ensures Scan(m, i, from, to, true).patched
    decreases |m| - i
  {
    hide MatchesAt, RunsOff, Overwrite;
    if i < |m| && !(from == [] || RunsOff(m, i, from)) {
      if MatchesAt(m, i, from) {
        StaysPatched(Overwrite(m, i, to), i + 1, from, to);
      } else {
        StaysPatched(m, i + 1, from, to);
      }
    }
  }

  lemma {:induction false} FirstOccurrence(s: Bytes, from: Bytes, bound: nat) returns (p: nat)
    requires MatchesAt(s, bound, from)
    ensures p <= bound && MatchesAt(s, p, from) && forall q :: 0 <= q < p ==> !MatchesAt(s, q, from)
    decreases bound
  {
    p := bound;
    if q :| 0 <= q < bound && MatchesAt(s, q, from) {
      p := FirstOccurrence(s, from, q);
    }
  }

  /** HexPatch reports true exactly when the pattern occurs in the file as it was. */
  lemma ReportsOccurrence(m: Bytes, from: Bytes, to: Bytes)
    requires from != []
    ensures Scan(m, 0, from, to, false).patched <==> OccursIn(m, from)
  {
    hide MatchesAt, RunsOff;
    if OccursIn(m, from) {
      var any :| 0 <= any <= |m| && MatchesAt(m, any, from);
      var p := FirstOccurrence(m, from, any);
      ScanFindsFirst(m, 0, from, to, p);
      assert p <= |m| by { MatchFits(m, p, from); }
      StaysPatched(Overwrite(m, p, to), p + 1, from, to);
    } else {
      ScanWithoutMatch(m, 0, from, to, false);
    }
  }

  lemma MatchFits(m: Bytes, p: nat, from: Bytes)
    requires MatchesAt(m, p, from)
    ensures p + |from| <= |m|
  {
  }

  /** Every changed byte lies in a window that begins where the pattern was matched. */
  lemma ChangesLieInWindows(m: Bytes, from: Bytes, to: Bytes, x: nat)
    requires from != [] && x < |m| && Scan(m, 0, from, to, false).buffer[x] != m[x]
    ensures exists k :: 0 <= k < |Hits(m, 0, from, to)| &&
                        Hits(m, 0, from, to)[k] <= x < Hits(m, 0, from, to)[k] + |to|
  {
    hide MatchesAt, RunsOff;
    ScanOverwritesHits(m, 0, from, to, false);
    ChangedBytesAreHit(m, Hits(m, 0, from, to), to, x);
  }

  // ---- When the run is cut short -----------------------------------------------------------------

  /** Does some non-empty proper prefix of `from` end the bytes, beginning at `i` or later? */
  predicate EndsInPrefix(s: Bytes, i: nat, from: Bytes) {
    exists j :: i <= j < |s| && RunsOff(s, j, from)
  }

  lemma EndsLater(s: Bytes, i: nat, from: Bytes)
    requires !RunsOff(s, i, from)
    ensures EndsInPrefix(s, i, from) <==> EndsInPrefix(s, i + 1, from)
  {
    hide RunsOff;
  }

  /** Where nothing matches any more, nothing is overwritten either. */
  lemma {:induction false} ScanWithoutMatch(m: Bytes, i: nat, from: Bytes, to: Bytes, patched: bool)
    requires from != [] && forall q :: i <= q < |m| ==> !MatchesAt(m, q, from)
    ensures Scan(m, i, from, to, patched) == Scanned(m, patched, EndsInPrefix(m, i, from))
    decreases |m| - i
  {
    hide RunsOff, MatchesAt;
    if i < |m| && !RunsOff(m, i, from) {
      ScanWithoutMatch(m, i + 1, from, to, patched);
      EndsLater(m, i, from);
    }
  }

  lemma TooShort(s: Bytes, q: nat, from: Bytes)
    requires |s| < q + |from|
    ensures !MatchesAt(s, q, from)
  {
  }

  lemma FitsNoRun(m: Bytes, i: nat, from: Bytes)
    requires i + |from| <= |m|
    ensures !RunsOff(m, i, from)
  {
  }

  lemma {:induction false} PanicsBehind(m: Bytes, i: nat, from: Bytes, to: Bytes, patched: bool)
    requires from != []
    ensures var r := Scan(m, i, from, to, patched); r.panicked <==> EndsInPrefix(r.buffer, i, from)
    decreases |m| - i
  {
    hide MatchesAt, Overwrite, RunsOff, EndsInPrefix;
    if i + |from| > |m| {
      forall q | i <= q < |m| ensures !MatchesAt(m, q, from) { TooShort(m, q, from); }
      ScanWithoutMatch(m, i, from, to, patched);
    } else {
      var r := Scan(m, i, from, to, patched);
      FitsNoRun(m, i, from);
      FitsNoRun(r.buffer, i, from);
      EndsLater(r.buffer, i, from);
      if MatchesAt(m, i, from) {
        PanicsBehind(Overwrite(m, i, to), i + 1, from, to, true);
      } else {
        PanicsBehind(m, i + 1, from, to, patched);
      }
    }
  }

  /** For any pattern and replacement: the run is cut short exactly when the buffer it leaves ends in a
      proper prefix of the pattern. (PatchReplacesAll has the condition on the buffer as it was.) */
  lemma PanicsAtPrefix(m: Bytes, from: Bytes, to: Bytes)
    requires from != []
    ensures var r := Scan(m, 0, from, to, false); r.panicked <==> EndsInPrefix(r.buffer, 0, from)
  {
    PanicsBehind(m, 0, from, to, false);
  }

  // ---- Leftmost non-overlapping replacement ----------------------------------------------------------

  /** What a match becomes: a shorter replacement leaves the end of the pattern in place, a longer one
      covers bytes behind the match. */
  function Window(from: Bytes, to: Bytes): (w: Bytes)
    ensures |w| >= |from| && |w| >= |to|
  {
    if |to| <= |from| then to + from[|to|..] else to
  }

  /** Matches from left to right, with what each becomes written over it; what would lie beyond the end is
      cut off. */
  function ReplaceAll(s: Bytes, from: Bytes, w: Bytes): Bytes
    requires |w| >= |from| > 0
    decreases |s|
  {
    if |s| < |from| then s
    else if s[..|from|] != from then [s[0]] + ReplaceAll(s[1..], from, w)
    else if |s| < |w| then w[..|s|]
    else w + ReplaceAll(s[|w|..], from, w)
  }

  /** What lies behind the last match when the pattern no longer fits; if what was written there is cut off
      at the end, all of it but its first byte. */
  function Tail(s: Bytes, from: Bytes, w: Bytes): Bytes
    requires |w| >= |from| > 0
    decreases |s|
  {
    if |s| < |from| then s
    else if s[..|from|] != from then Tail(s[1..], from, w)
    else if |s| < |w| then w[1..|s|]
    else Tail(s[|w|..], from, w)
  }

  /** A non-empty proper prefix of `from` that `s` ends with. */
  predicate PrefixEnds(from: Bytes, s: Bytes) {
    exists n :: 0 < n < |from| && n <= |s| && from[..n] == s[|s| - n..]
  }

  /** A non-empty proper suffix of `from` that `s` begins with. */
  predicate SuffixBegins(from: Bytes, s: Bytes) {
    exists n :: 0 < n < |from| && n <= |s| && from[|from| - n..] == s[..n]
  }

  /** Nothing that begins behind the first byte of `w`, within it, can become a match. */
  predicate Inert(from: Bytes, w: Bytes) {
    !PrefixEnds(from, w) && forall q :: 1 <= q < |w| ==> !MatchesAt(w, q, from)
  }

  lemma ShortEndsInPrefix(done: Bytes, rest: Bytes, from: Bytes)
    ensures EndsInPrefix(done + rest, |done|, from) <==> PrefixEnds(from, rest)
  {
    var m := done + rest;
    forall j | |done| <= j < |m| ensures m[j..] == rest[|rest| - (|m| - j)..] {
    }
    if PrefixEnds(from, rest) {
      var n :| 0 < n < |from| && n <= |rest| && from[..n] == rest[|rest| - n..];
      assert RunsOff(m, |m| - n, from);
    }
    if EndsInPrefix(m, |done|, from) {
      var j :| |done| <= j < |m| && RunsOff(m, j, from);
      assert from[..|m| - j] == rest[|rest| - (|m| - j)..];
    }
  }

  /** A match that begins inside a written window lies in it, or begins with an end of what was written. */
  lemma MatchInWindow(done: Bytes, w: Bytes, rest: Bytes, from: Bytes, p: nat)
    requires |done| < p < |done| + |w|
    ensures var m := done + w + rest;
            MatchesAt(m, p, from) || RunsOff(m, p, from) ==> PrefixEnds(from, w) || MatchesAt(w, p - |done|, from)
  {
    var m := done + w + rest;
    var n := |done| + |w| - p;
    assert m[p..p + n] == w[|w| - n..];
    if MatchesAt(m, p, from) {
      if |from| <= n {
        assert m[p..p + |from|] == w[p - |done|..p - |done| + |from|];
      } else {
        assert from[..n] == m[p..p + |from|][..n] == m[p..p + n];
      }
    } else if RunsOff(m, p, from) {
      assert from[..n] == m[p..][..n] == m[p..p + n];
    }
  }

  lemma InsideWindow(done: Bytes, w: Bytes, rest: Bytes, from: Bytes, p: nat)
    requires Inert(from, w) && |done| < p < |done| + |w|
    ensures !MatchesAt(done + w + rest, p, from) && !RunsOff(done + w + rest, p, from)
  {
    hide MatchesAt, RunsOff, PrefixEnds;
    MatchInWindow(done, w, rest, from, p);
  }

  lemma {:induction false} ScanLeavesWindow(done: Bytes, w: Bytes, rest: Bytes, from: Bytes, p: nat)
    requires Inert(from, w) && from != [] && |done| < p <= |done| + |w|
    ensures Scan(done + w + rest, p, from, w, true) == Scan(done + w + rest, |done| + |w|, from, w, true)
    decreases |done| + |w| - p
  {
    hide MatchesAt, RunsOff, Inert;
    if p < |done| + |w| {
      InsideWindow(done, w, rest, from, p);
      ScanLeavesWindow(done, w, rest, from, p + 1);
    }
  }

  lemma MatchInCut(w: Bytes, k: nat, from: Bytes, q: nat)
    requires k <= |w| && MatchesAt(w[..k], q, from)
    ensures MatchesAt(w, q, from)
  {
    assert w[..k][q..q + |from|] == w[q..q + |from|];
  }

  /** Behind a window that the end of the file cuts off. */
  lemma ScanLeavesCut(done: Bytes, w: Bytes, k: nat, from: Bytes)
    requires Inert(from, w) && from != [] && 0 < k <= |w|
    ensures Scan(done + w[..k], |done| + 1, from, w, true) ==
            Scanned(done + w[..k], true, PrefixEnds(from, w[1..k]))
  {
    hide MatchesAt, EndsInPrefix, PrefixEnds, Scan, RunsOff;
    var m := done + w[..k];
    forall q | |done| + 1 <= q < |m| ensures !MatchesAt(m, q, from) {
      MatchShifts(done, w[..k], from, q);
      if MatchesAt(w[..k], q - |done|, from) { MatchInCut(w, k, from, q - |done|); }
    }
    ScanWithoutMatch(m, |done| + 1, from, w, true);
    assert m == (done + [w[0]]) + w[1..k];
    ShortEndsInPrefix(done + [w[0]], w[1..k], from);
  }

  lemma MatchIsPrefix(done: Bytes, rest: Bytes, from: Bytes)
    ensures MatchesAt(done + rest, |done|, from) <==> |from| <= |rest| && rest[..|from|] == from
  {
    if |from| <= |rest| {
      assert (done + rest)[|done|..|done| + |from|] == rest[..|from|];
    }
  }

  lemma OverwriteMiddle(done: Bytes, rest: Bytes, w: Bytes)
    ensures |w| <= |rest| ==> Overwrite(done + rest, |done|, w) == done + w + rest[|w|..]
    ensures |w| > |rest| ==> Overwrite(done + rest, |done|, w) == done + w[..|rest|]
  {
  }

  lemma ReplaceUnfolds(s: Bytes, from: Bytes, w: Bytes)
    requires |w| >= |from| > 0
    ensures |s| < |from| ==> ReplaceAll(s, from, w) == s && Tail(s, from, w) == s
    ensures |s| >= |from| && s[..|from|] != from ==>
              ReplaceAll(s, from, w) == [s[0]] + ReplaceAll(s[1..], from, w) && Tail(s, from, w) == Tail(s[1..], from, w)
    ensures |s| >= |from| && s[..|from|] == from && |s| < |w| ==>
              ReplaceAll(s, from, w) == w[..|s|] && Tail(s, from, w) == w[1..|s|]
    ensures |s| >= |w| && s[..|from|] == from ==>
              ReplaceAll(s, from, w) == w + ReplaceAll(s[|w|..], from, w) && Tail(s, from, w) == Tail(s[|w|..], from, w)
  {
  }

  lemma {:induction false} ScanReplaces(done: Bytes, rest: Bytes, from: Bytes, w: Bytes, patched: bool)
    requires |w| >= |from| > 0 && Inert(from, w)
    ensures var r := Scan(done + rest, |done|, from, w, patched);
            r.buffer == done + ReplaceAll(rest, from, w) && (r.panicked <==> PrefixEnds(from, Tail(rest, from, w)))
    decreases |rest|
  {
    hide PrefixEnds, EndsInPrefix, RunsOff, MatchesAt, Overwrite, Inert, ReplaceAll, Tail;
    var m, i := done + rest, |done|;
    ReplaceUnfolds(rest, from, w);
    if |rest| < |from| {
      forall q | i <= q < |m| ensures !MatchesAt(m, q, from) { TooShort(m, q, from); }
      ScanWithoutMatch(m, i, from, w, patched);
      ShortEndsInPrefix(done, rest, from);
    } else {
      FitsNoRun(m, i, from);
      MatchIsPrefix(done, rest, from);
      OverwriteMiddle(done, rest, w);
      if !MatchesAt(m, i, from) {
        var rest' := rest[1..];
        assert m == done + [rest[0]] + rest';
        ScanReplaces(done + [rest[0]], rest', from, w, patched);
        assert done + [rest[0]] + ReplaceAll(rest', from, w) == done + ([rest[0]] + ReplaceAll(rest', from, w));
      } else if |rest| < |w| {
        ScanLeavesCut(done, w, |rest|, from);
      } else {
        var rest' := rest[|w|..];
        ScanLeavesWindow(done, w, rest', from, i + 1);
        ScanReplaces(done + w, rest', from, w, true);
        assert done + w + ReplaceAll(rest', from, w) == done + (w + ReplaceAll(rest', from, w));
      }
    }
  }

  // ---- No occurrence is left ---------------------------------------------------------------------------

  lemma FrontOfWindow(s: Bytes, from: Bytes, w: Bytes, n: nat)
    requires |w| >= |from| > 0 && |s| >= |from| && s[..|from|] == from && n <= |from|
    ensures |ReplaceAll(s, from, w)| >= n && ReplaceAll(s, from, w)[0..n] == w[..n]
  {
    hide ReplaceAll, Tail;
    ReplaceUnfolds(s, from, w);
    var r := ReplaceAll(s, from, w);
    if |s| < |w| {
      assert r == w[..|s|];
    } else {
      assert r == w + ReplaceAll(s[|w|..], from, w);
    }
    assert forall i :: 0 <= i < n ==> r[i] == w[i];
  }

  /** Where the first bytes of the result come from: unchanged, or unchanged up to a window. */
  lemma {:induction false} ReplacedPrefix(s: Bytes, from: Bytes, w: Bytes, n: nat) returns (k: nat)
    requires |w| >= |from| > 0 && n <= |ReplaceAll(s, from, w)| && n <= |from|
    ensures k <= n <= |s| && ReplaceAll(s, from, w)[..k] == s[..k]
    ensures k == n || ReplaceAll(s, from, w)[k..n] == w[..n - k]
    decreases |s|
  {
    var r := ReplaceAll(s, from, w);
    ReplaceKeepsLength(s, from, w);
    if |s| < |from| || n == 0 {
      k := n;
    } else if s[..|from|] == from {
      k := 0;
      ReplaceUnfolds(s, from, w);
      FrontOfWindow(s, from, w, n);
    } else {
      var k' := ReplacedPrefix(s[1..], from, w, n - 1);
      k := k' + 1;
      var r' := ReplaceAll(s[1..], from, w);
      assert r == [s[0]] + r';
      assert r[..k] == [s[0]] + r'[..k'] && s[..k] == [s[0]] + s[1..][..k'];
      assert r[k..n] == r'[k'..n - 1];
    }
  }

  lemma {:induction false} ReplaceKeepsLength(s: Bytes, from: Bytes, w: Bytes)
    requires |w| >= |from| > 0
    ensures |ReplaceAll(s, from, w)| == |s|
    decreases |s|
  {
    if |s| >= |from| {
      if s[..|from|] != from {
        ReplaceKeepsLength(s[1..], from, w);
      } else if |s| >= |w| {
        ReplaceKeepsLength(s[|w|..], from, w);
      }
    }
  }

  /** A pattern at the front of the result begins with what was written, or ends in it. */
  lemma HitAtFront(s: Bytes, from: Bytes, w: Bytes)
    requires |w| >= |from| > 0
    ensures MatchesAt(ReplaceAll(s, from, w), 0, from) ==> MatchesAt(w, 0, from) || SuffixBegins(from, w)
  {
    var r := ReplaceAll(s, from, w);
    ReplaceKeepsLength(s, from, w);
    if MatchesAt(r, 0, from) {
      var n := |from|;
      var k := ReplacedPrefix(s, from, w, n);
      assert r[..n] == from;
      if k == n {
        assert s[..n] == from;
        assert r[..n] == w[..n];
      } else if k == 0 {
        assert r[0..n] == w[..n];
      } else {
        assert r[k..n] == from[k..] == w[..n - k];
        assert from[|from| - (n - k)..] == w[..n - k];
      }
    }
  }

  lemma MatchShifts(front: Bytes, back: Bytes, from: Bytes, q: nat)
    requires |front| <= q
    ensures MatchesAt(front + back, q, from) <==> MatchesAt(back, q - |front|, from)
  {
    if q + |from| <= |front + back| {
      assert (front + back)[q..q + |from|] == back[q - |front|..q - |front| + |from|];
    }
  }

  lemma {:induction false} NothingLeft(s: Bytes, from: Bytes, w: Bytes, q: nat)
    requires |w| >= |from| > 0 && Inert(from, w) && !MatchesAt(w, 0, from) && !SuffixBegins(from, w)
    ensures !MatchesAt(ReplaceAll(s, from, w), q, from)
    decreases |s|, q
  {
    hide PrefixEnds, SuffixBegins, MatchesAt, RunsOff;
    if q == 0 {
      HitAtFront(s, from, w);
    } else if |s| < q + |from| {
      ReplaceKeepsLength(s, from, w);
      TooShort(ReplaceAll(s, from, w), q, from);
    } else if s[..|from|] != from {
      NothingLeft(s[1..], from, w, q - 1);
      MatchShifts([s[0]], ReplaceAll(s[1..], from, w), from, q);
    } else if |s| < |w| {
      if MatchesAt(w[..|s|], q, from) { MatchInCut(w, |s|, from, q); }
    } else {
      var r' := ReplaceAll(s[|w|..], from, w);
      if q < |w| {
        InsideWindow([], w, r', from, q);
        assert [] + w + r' == w + r';
      } else {
        NothingLeft(s[|w|..], from, w, q - |w|);
        MatchShifts(w, r', from, q);
      }
    }
  }

  // ---- Every replacement -----------------------------------------------------------------------------------

  lemma OverwriteWindow(m: Bytes, i: nat, from: Bytes, to: Bytes)
    requires MatchesAt(m, i, from)
    ensures Overwrite(m, i, to) == Overwrite(m, i, Window(from, to))
  {
    if |to| <= |from| {
      var n := |to|;
      assert m[i + n..i + |from|] == m[i..i + |from|][n..] == from[n..];
      assert m[i + n..] == m[i + n..i + |from|] + m[i + |from|..];
    }
  }

  lemma {:induction false} ScanOfWindow(m: Bytes, i: nat, from: Bytes, to: Bytes, patched: bool)
    ensures Scan(m, i, from, to, patched) == Scan(m, i, from, Window(from, to), patched)
    decreases |m| - i
  {
    hide MatchesAt, RunsOff, Overwrite, Window;
    if i < |m| && !(from == [] || RunsOff(m, i, from)) {
      if MatchesAt(m, i, from) {
        OverwriteWindow(m, i, from, to);
        ScanOfWindow(Overwrite(m, i, to), i + 1, from, to, true);
      } else {
        ScanOfWindow(m, i + 1, from, to, patched);
      }
    }
  }

  /** As long as nothing that begins inside what is written can become a match, HexPatch is leftmost
      non-overlapping replacement, whatever the lengths. It is cut short, with all that done, exactly when a
      proper prefix of the pattern ends what lies behind the last match. If the pattern cannot end in, or
      begin with, what is written either, no occurrence is left. */
  lemma PatchReplacesAll(m: Bytes, from: Bytes, to: Bytes)
    requires from != [] && Inert(from, Window(from, to))
    ensures var r, w := Scan(m, 0, from, to, false), Window(from, to);
            && r.buffer == ReplaceAll(m, from, w)
            && (r.panicked <==> PrefixEnds(from, Tail(m, from, w)))
            && (!MatchesAt(w, 0, from) && !SuffixBegins(from, w) ==> !OccursIn(r.buffer, from))
  {
    hide PrefixEnds, SuffixBegins, MatchesAt, Inert;
    var w := Window(from, to);
    assert [] + m == m;
    ScanOfWindow(m, 0, from, to, false);
    ScanReplaces([], m, from, w, false);
    var r := ReplaceAll(m, from, w);
    assert [] + r == r;
    if !MatchesAt(w, 0, from) && !SuffixBegins(from, w) {
      forall q | 0 <= q <= |r| ensures !MatchesAt(r, q, from) {
        NothingLeft(m, from, w, q);
      }
    }
  }

  /** One byte of the pattern 1 2 at the end of the file, and the index is out of range. */
  lemma LonePrefixPanics()
    ensures Scan([5, 1], 0, [1, 2], [3, 4], false) == Scanned([5, 1], false, true)
  {
    assert RunsOff([5, 1], 1, [1, 2]);
    assert Scan([5, 1], 1, [1, 2], [3, 4], false) == Scanned([5, 1], false, true);
    MatchByte([5, 1], 0, [1, 2], 0);
  }
}
