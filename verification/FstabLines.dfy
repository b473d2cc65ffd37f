/** One line of an fstab: what it looks like once patched, and what a second patch makes of it. */
module FstabLines {
  import opened Words
  import opened Text
  import opened Fstab

  predicate HasFourFields(line: Bytes) {
    !IsComment(line) && |Fields(line)| == 4
  }

  /** A line the flags of which are edited. */
  predicate IsMount(line: Bytes) {
    !IsComment(line) && |Fields(line)| >= 5
  }

  /** Patching takes the indentation off a line, which may turn it into a comment. */
  predicate IsIndentedComment(line: Bytes) {
    IsMount(line) && [HASH] <= Fields(line)[0]
  }

  /** No flag text is left of a line that stays a mount line. */
  predicate LosesFlags(line: Bytes, patterns: seq<Bytes>) {
    IsMount(line) && !IsIndentedComment(line) && NewFlags(Fields(line)[4], patterns) == []
  }

  // ---- The shape of a patched line ---------------------------------------------------------

  function Front(fs: seq<Bytes>): Bytes
    requires |fs| >= 5
  {
    Join(fs[..4], SPACE) + [SPACE]
  }

  function Back(fs: seq<Bytes>): Bytes
    requires |fs| >= 5
  {
    if |fs| > 5 then [SPACE] + Join(fs[5..], SPACE) else []
  }

  lemma PatchedLine(line: Bytes, patterns: seq<Bytes>)
    requires IsMount(line)
    ensures var fs := Fields(line);
            PatchLine(line, patterns) == Some(Front(fs) + NewFlags(fs[4], patterns) + Back(fs))
  {
    hide Fields, IsComment, NewFlags;
    var fs := Fields(line);
    var flags := NewFlags(fs[4], patterns);
    assert [Join(fs[..4], SPACE), flags][1..] == [flags];
    assert Join([Join(fs[..4], SPACE), flags], SPACE) == Front(fs) + flags;
    assert Front(fs) + flags + [SPACE] + Join(fs[5..], SPACE) == Front(fs) + flags + ([SPACE] + Join(fs[5..], SPACE));
    assert Front(fs) + flags + [] == Front(fs) + flags;
  }

  /** The fields of the patched line: the fifth edited, or gone with its last flag. */
  function PatchedFields(fs: seq<Bytes>, patterns: seq<Bytes>): seq<Bytes>
    requires |fs| >= 5
  {
    if NewFlags(fs[4], patterns) == [] then fs[..4] + fs[5..] else fs[4 := NewFlags(fs[4], patterns)]
  }

  lemma FlagsAreSpaceFree(field: Bytes, patterns: seq<Bytes>)
    requires SpaceFree(field)
    ensures SpaceFree(NewFlags(field, patterns))
  {
    hide SpaceFree, HasPrefixIn;
    SplitIsSpaceFree(field);
    var flags := Split(field, COMMA);
    var kept := Keep(flags, patterns);
    KeepIsPart(flags, patterns);
    assert AllSpaceFree(kept) by {
      forall i | 0 <= i < |kept| ensures SpaceFree(kept[i]) {
        assert kept[i] in flags;
      }
    }
    JoinIsSpaceFree(kept);
  }

  /** Fields in front of anything are found again. */
  lemma {:induction false} FieldsInFront(fs: seq<Bytes>, rest: Bytes)
    requires AreFields(fs) && fs != []
    ensures Fields(Join(fs, SPACE) + [SPACE] + rest) == fs + Fields(rest)
  {
    hide Fields, IsField;
    if |fs| == 1 {
      FieldsOfOne(fs[0], rest);
    } else {
      var more := Join(fs[1..], SPACE) + [SPACE] + rest;
      assert Join(fs, SPACE) + [SPACE] + rest == fs[0] + [SPACE] + more;
      FieldsOfOne(fs[0], more);
      FieldsInFront(fs[1..], rest);
      assert [fs[0]] + (fs[1..] + Fields(rest)) == fs + Fields(rest);
    }
  }

  lemma BlankBefore(rest: Bytes)
    ensures Fields([SPACE] + rest) == Fields(rest)
  {
    SpaceIsSpace(rest);
    assert ([SPACE] + rest)[1..] == rest;
  }

  /** The fields of what stands behind the first four. */
  lemma FieldsBehind(fs: seq<Bytes>, flags: Bytes)
    requires |fs| >= 5 && AreFields(fs) && SpaceFree(flags)
    ensures Fields(flags + Back(fs)) == if flags == [] then fs[5..] else [flags] + fs[5..]
  {
    hide Fields, SpaceFree;
    FieldsJoin(fs[5..]);
    var rest := Join(fs[5..], SPACE);
    NoFields();
    if flags == [] {
      BlankBefore(rest);
      assert flags + Back(fs) == Back(fs);
    } else {
      FieldsOfOne(flags, rest);
      assert flags + ([SPACE] + rest) == flags + [SPACE] + rest;
      assert flags + [] == flags;
    }
  }

  /** The patched line has the old fields with only the fifth edited, or gone if no flag is left;
      it is a comment exactly when its first field begins like one. */
  lemma PatchedFieldsRead(line: Bytes, patterns: seq<Bytes>)
    requires IsMount(line)
    ensures var line' := PatchLine(line, patterns).value;
            && Fields(line') == PatchedFields(Fields(line), patterns)
            && (IsComment(line') <==> IsIndentedComment(line))
  {
    hide NewFlags, SpaceFree, Fields, Back;
    var fs := Fields(line);
    var flags := NewFlags(fs[4], patterns);
    PatchedLine(line, patterns);
    FieldsAreFields(line);
    assert IsField(fs[4]) && IsField(fs[0]);
    FlagsAreSpaceFree(fs[4], patterns);
    FieldsInFront(fs[..4], flags + Back(fs));
    FieldsBehind(fs, flags);
    var line' := Front(fs) + flags + Back(fs);
    assert line' == Join(fs[..4], SPACE) + [SPACE] + (flags + Back(fs));
    assert line'[0] == fs[0][0];
    assert flags != [] ==> fs[..4] + ([flags] + fs[5..]) == fs[4 := flags];
  }

  // ---- Flags that are filtered twice ---------------------------------------------------------

  lemma KeptSplits(field: Bytes, patterns: seq<Bytes>)
    requires NewFlags(field, patterns) != []
    ensures Split(NewFlags(field, patterns), COMMA) == Keep(Split(field, COMMA), patterns)
  {
    hide FreeOf, HasPrefixIn;
    var flags := Split(field, COMMA);
    var kept := Keep(flags, patterns);
    SplitIsFree(field, COMMA);
    KeepIsPart(flags, patterns);
    assert AllFreeOf(kept, COMMA) by {
      forall i | 0 <= i < |kept| ensures FreeOf(kept[i], COMMA) {
        assert kept[i] in flags;
      }
    }
    SplitJoin(kept, COMMA);
  }

  lemma KeptNothing(flags: seq<Bytes>, p: seq<Bytes>, q: seq<Bytes>)
    requires Join(Keep(flags, p + q), COMMA) != []
    ensures Join(Keep(flags, p), COMMA) != []
  {
    hide HasPrefixIn;
    KeepTwice(flags, p, q);
    var kept := Keep(flags, p);
    if |kept| <= 1 {
      KeepIsPart(kept, q);
      assert Keep(kept, q) == [] || Keep(kept, q) == kept by {
        if |kept| == 1 && Keep(kept, q) != [] {
          assert Keep(kept, q)[0] in kept;
        }
      }
    } else {
      assert |Join(kept, COMMA)| >= 1;
    }
  }

  lemma FlagsTwice(field: Bytes, p: seq<Bytes>, q: seq<Bytes>)
    ensures NewFlags(field, p) != [] ==> NewFlags(NewFlags(field, p), q) == NewFlags(field, p + q)
    ensures NewFlags(field, p) == [] ==> NewFlags(field, p + q) == []
  {
    hide Keep;
    if NewFlags(field, p) != [] {
      KeptSplits(field, p);
      KeepTwice(Split(field, COMMA), p, q);
    }
    if NewFlags(field, p + q) != [] { KeptNothing(Split(field, COMMA), p, q); }
  }

  lemma SameFlags(p: seq<Bytes>, q: seq<Bytes>)
    ensures forall field :: NewFlags(field, p + q) == NewFlags(field, q + p)
    ensures forall field :: NewFlags(field, p + p) == NewFlags(field, p)
  {
    hide HasPrefixIn, Keep;
    forall flag ensures HasPrefixIn(flag, p + q) <==> HasPrefixIn(flag, q + p) {
      PrefixInSum(flag, p, q);
      PrefixInSum(flag, q, p);
    }
    forall flag ensures HasPrefixIn(flag, p + p) <==> HasPrefixIn(flag, p) {
      PrefixInSum(flag, p, p);
    }
    forall field ensures NewFlags(field, p + q) == NewFlags(field, q + p)
                 ensures NewFlags(field, p + p) == NewFlags(field, p) {
      KeepAgrees(Split(field, COMMA), p + q, q + p);
      KeepAgrees(Split(field, COMMA), p + p, p);
    }
  }

  lemma {:induction false} KeptIsShorter(flags: seq<Bytes>, patterns: seq<Bytes>)
    ensures |Join(Keep(flags, patterns), COMMA)| <= |Join(flags, COMMA)|
  {
    hide HasPrefixIn;
    if flags != [] {
      var kept := Keep(flags[1..], patterns);
      KeptIsShorter(flags[1..], patterns);
      KeepIsPart(flags[1..], patterns);
      assert ([flags[0]] + kept)[1..] == kept;
    }
  }

  lemma NewFlagsIsShorter(field: Bytes, patterns: seq<Bytes>)
    ensures |NewFlags(field, patterns)| <= |field|
  {
    KeptIsShorter(Split(field, COMMA), patterns);
    JoinSplit(field, COMMA);
  }

  // ---- A second patch -----------------------------------------------------------------------

  function Twice(line: Bytes, p: seq<Bytes>, q: seq<Bytes>): Option<Bytes> {
    match PatchLine(line, p)
    case Some(line') => PatchLine(line', q)
    case None => None
  }

  /** The field in the place of the flags when those are gone. */
  function NextFlags(fs: seq<Bytes>, patterns: seq<Bytes>): Bytes
    requires |fs| > 5
  {
    NewFlags(fs[5], patterns)
  }

  /** What a second patch makes of a mount line: an indented comment is left alone; where flags are
      left, the two patches are one; where none are, the next field is taken for the flags, and if
      there is none, the second patch does not survive. */
  lemma SecondPatch(line: Bytes, p: seq<Bytes>, q: seq<Bytes>)
    requires IsMount(line)
    ensures var fs := Fields(line);
            Twice(line, p, q) ==
            if IsIndentedComment(line) then PatchLine(line, p)
            else if NewFlags(fs[4], p) != [] then PatchLine(line, p + q)
            else if |fs| == 5 then None
            else Some(Front(fs) + NextFlags(fs, q) + Back(fs[..4] + fs[5..]))
  {
    hide Fields, NewFlags, IsComment, Front, Back;
    var fs := Fields(line);
    var gs := PatchedFields(fs, p);
    var line' := PatchLine(line, p).value;
    PatchedLine(line, p);
    PatchedFieldsRead(line, p);
    FlagsTwice(fs[4], p, q);
    if !IsIndentedComment(line) {
      if |gs| >= 5 {
        PatchedLine(line', q);
        PatchedLine(line, p + q);
        SameEnds(fs, gs);
      }
    }
  }

  lemma SameEnds(fs: seq<Bytes>, gs: seq<Bytes>)
    requires |fs| >= 5 && |gs| >= 5 && fs[..4] == gs[..4]
    ensures Front(fs) == Front(gs)
    ensures |fs| == |gs| && fs[5..] == gs[5..] ==> Back(fs) == Back(gs)
  {
  }

  /** The line without its flags is shorter than a line with the next field in their place. */
  lemma NextIsShorter(fs: seq<Bytes>, patterns: seq<Bytes>)
    requires |fs| > 5
    ensures |NextFlags(fs, patterns)| + |Back(fs[..4] + fs[5..])| < |Back(fs)|
  {
    hide NewFlags;
    var gs := fs[..4] + fs[5..];
    NewFlagsIsShorter(fs[5], patterns);
    assert gs[5..] == fs[6..];
    assert fs[5..][1..] == fs[6..];
    assert |Back(gs)| == if |fs| == 6 then 0 else 1 + |Join(fs[6..], SPACE)|;
  }

  /** Lines that differ in their flags only are equal when those are. */
  lemma SameLine(front: Bytes, a: Bytes, b: Bytes, back: Bytes)
    ensures front + a + back == front + b + back <==> a == b
  {
    var s, t := front + a + back, front + b + back;
    if s == t {
      assert |s| == |front| + |a| + |back| && |t| == |front| + |b| + |back|;
      assert s[|front|..|front| + |a|] == a;
      assert t[|front|..|front| + |b|] == b;
    }
  }

  // ---- Two patches of one line, and one with both lists ----------------------------------------

  /** Some flag is left, or, if the line turns into a comment, none is left for the second list. */
  predicate Composable(line: Bytes, p: seq<Bytes>, q: seq<Bytes>) {
    IsMount(line) ==>
      var flags := NewFlags(Fields(line)[4], p);
      if IsIndentedComment(line) then flags == NewFlags(Fields(line)[4], p + q) else flags != []
  }

  lemma LineComposesIff(line: Bytes, p: seq<Bytes>, q: seq<Bytes>)
    requires !HasFourFields(line)
    ensures Twice(line, p, q) == PatchLine(line, p + q) <==> Composable(line, p, q)
  {
    hide Fields, NewFlags, Front, Back, NextFlags;
    if IsMount(line) {
      var fs := Fields(line);
      SecondPatch(line, p, q);
      PatchedLine(line, p);
      PatchedLine(line, p + q);
      FlagsTwice(fs[4], p, q);
      SameLine(Front(fs), NewFlags(fs[4], p), NewFlags(fs[4], p + q), Back(fs));
      if |fs| > 5 { NextIsShorter(fs, q); }
    }
  }

  /** The two orders leave flags alike. */
  predicate Commutable(line: Bytes, p: seq<Bytes>, q: seq<Bytes>) {
    IsMount(line) ==>
      var fs := Fields(line);
      if IsIndentedComment(line) then NewFlags(fs[4], p) == NewFlags(fs[4], q)
      else
        && (NewFlags(fs[4], p) == [] <==> NewFlags(fs[4], q) == [])
        && (NewFlags(fs[4], p) == [] && |fs| > 5 ==> NextFlags(fs, p) == NextFlags(fs, q))
  }

  lemma LineCommutesIff(line: Bytes, p: seq<Bytes>, q: seq<Bytes>)
    requires !HasFourFields(line)
    ensures Twice(line, p, q) == Twice(line, q, p) <==> Commutable(line, p, q)
  {
    hide Fields, NewFlags, Front, Back, NextFlags;
    if IsMount(line) {
      var fs := Fields(line);
      SecondPatch(line, p, q);
      SecondPatch(line, q, p);
      PatchedLine(line, p);
      PatchedLine(line, q);
      PatchedLine(line, p + q);
      PatchedLine(line, q + p);
      SameFlags(p, q);
      SameLine(Front(fs), NewFlags(fs[4], p), NewFlags(fs[4], q), Back(fs));
      if |fs| > 5 {
        NextIsShorter(fs, p);
        NextIsShorter(fs, q);
        SameLine(Front(fs), NextFlags(fs, p), NextFlags(fs, q), Back(fs[..4] + fs[5..]));
      }
    }
  }

  // ---- A patched line is one line --------------------------------------------------------------

  lemma NewlineIsSpace(f: Bytes)
    requires SpaceFree(f)
    ensures FreeOf(f, NEWLINE)
  {
    forall i | 0 <= i < |f| ensures f[i] != NEWLINE {
      assert SpaceLen(f[i..]) == 0 && f[i..][0] == f[i];
    }
  }

  lemma {:induction false} JoinedFieldsAreOneLine(fs: seq<Bytes>)
    requires AreFields(fs)
    ensures FreeOf(Join(fs, SPACE), NEWLINE)
  {
    hide SpaceFree;
    if fs != [] {
      assert IsField(fs[0]);
      NewlineIsSpace(fs[0]);
      if |fs| > 1 { JoinedFieldsAreOneLine(fs[1..]); }
    }
  }

  lemma PatchedLineIsOneLine(line: Bytes, patterns: seq<Bytes>)
    requires FreeOf(line, NEWLINE)
    ensures PatchLine(line, patterns).Some? ==> FreeOf(PatchLine(line, patterns).value, NEWLINE)
  {
    hide Fields, NewFlags, SpaceFree;
    if IsMount(line) {
      PatchedLine(line, patterns);
      var fs := Fields(line);
      FieldsAreFields(line);
      assert IsField(fs[4]);
      FlagsAreSpaceFree(fs[4], patterns);
      NewlineIsSpace(NewFlags(fs[4], patterns));
      JoinedFieldsAreOneLine(fs[..4]);
      JoinedFieldsAreOneLine(fs[5..]);
    }
  }
}
