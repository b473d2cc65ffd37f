/** What patching an fstab does to the whole file: when it fails, and exactly when two patches
    combine. */
module FstabLaws {
  import opened Words
  import opened Text
  import opened Fstab
  import opened FstabLines

  // ---- Line by line ------------------------------------------------------------------------------

  lemma {:induction false} PatchLinesEach(lines: seq<Bytes>, patterns: seq<Bytes>)
    ensures PatchLines(lines, patterns).Some? <==> forall i :: 0 <= i < |lines| ==> PatchLine(lines[i], patterns).Some?
    ensures PatchLines(lines, patterns).Some? ==>
              var r := PatchLines(lines, patterns).value;
              |r| == |lines| && forall i :: 0 <= i < |r| ==> Some(r[i]) == PatchLine(lines[i], patterns)
  {
    hide PatchLine;
    if lines != [] {
      var more := lines[1..];
      PatchLinesEach(more, patterns);
      assert forall i :: 0 <= i < |more| ==> more[i] == lines[i + 1];
      assert forall i :: 1 <= i < |lines| ==> lines[i] == more[i - 1];
    }
  }

  lemma FourFieldsFail(line: Bytes, patterns: seq<Bytes>)
    ensures PatchLine(line, patterns) == None <==> HasFourFields(line)
  {
    hide Fields, NewFlags;
  }

  /** Patching is ended by an index out of range exactly when some line that is not a comment has
      four fields: the code asks for four and then takes the fifth. */
  lemma FailsIff(content: Bytes, patterns: seq<Bytes>)
    ensures PatchFstab(content, patterns) == None <==>
            exists line :: line in Split(content, NEWLINE) && HasFourFields(line)
  {
    hide HasFourFields, PatchLines, PatchLine;
    var lines := Split(content, NEWLINE);
    PatchLinesEach(lines, patterns);
    forall i | 0 <= i < |lines| ensures PatchLine(lines[i], patterns) == None <==> HasFourFields(lines[i]) {
      FourFieldsFail(lines[i], patterns);
    }
  }

  /** A file of comments and short lines comes back byte for byte. */
  lemma NothingToPatch(content: Bytes, patterns: seq<Bytes>)
    requires forall line :: line in Split(content, NEWLINE) ==> IsComment(line) || |Fields(line)| < 4
    ensures PatchFstab(content, patterns) == Some(content)
  {
    hide IsComment, Fields, PatchLines;
    var lines := Split(content, NEWLINE);
    PatchLinesEach(lines, patterns);
    assert PatchLines(lines, patterns).value == lines;
    JoinSplit(content, NEWLINE);
  }

  lemma PatchedLinesAreLines(lines: seq<Bytes>, patterns: seq<Bytes>)
    requires AllFreeOf(lines, NEWLINE) && PatchLines(lines, patterns).Some?
    ensures AllFreeOf(PatchLines(lines, patterns).value, NEWLINE)
  {
    hide PatchLines, PatchLine, FreeOf;
    PatchLinesEach(lines, patterns);
    var r := PatchLines(lines, patterns).value;
    forall i | 0 <= i < |r| ensures FreeOf(r[i], NEWLINE) {
      PatchedLineIsOneLine(lines[i], patterns);
    }
  }

  // ---- Two passes ----------------------------------------------------------------------------------

  function PatchTwice(content: Bytes, p: seq<Bytes>, q: seq<Bytes>): Option<Bytes> {
    match PatchFstab(content, p)
    case Some(content') => PatchFstab(content', q)
    case None => None
  }

  /** The lines behind two passes. */
  ghost predicate IsTwicePatched(lines: seq<Bytes>, p: seq<Bytes>, q: seq<Bytes>, out: seq<Bytes>) {
    && |out| == |lines| && AllFreeOf(out, NEWLINE)
    && forall i :: 0 <= i < |lines| ==> Twice(lines[i], p, q) == Some(out[i])
  }

  ghost predicate TwiceFails(lines: seq<Bytes>, p: seq<Bytes>, q: seq<Bytes>) {
    exists i :: 0 <= i < |lines| && Twice(lines[i], p, q) == None
  }

  /** Two passes are two patches of every line. */
  lemma TwoPasses(content: Bytes, p: seq<Bytes>, q: seq<Bytes>) returns (out: seq<Bytes>)
    requires PatchFstab(content, p).Some?
    ensures var lines := Split(content, NEWLINE);
            if TwiceFails(lines, p, q) then PatchTwice(content, p, q) == None
            else PatchTwice(content, p, q) == Some(Join(out, NEWLINE)) && IsTwicePatched(lines, p, q, out)
  {
    hide PatchLines, PatchLine, FreeOf;
    var lines := Split(content, NEWLINE);
    SplitIsFree(content, NEWLINE);
    var mid := PatchLines(lines, p).value;
    PatchLinesEach(lines, p);
    PatchedLinesAreLines(lines, p);
    SplitJoin(mid, NEWLINE);
    PatchLinesEach(mid, q);
    assert forall i :: 0 <= i < |lines| ==> Twice(lines[i], p, q) == PatchLine(mid[i], q);
    out := [];
    if PatchLines(mid, q).Some? {
      out := PatchLines(mid, q).value;
      PatchedLinesAreLines(mid, q);
    }
  }

  lemma SameText(a: seq<Bytes>, b: seq<Bytes>)
    requires a != [] && b != [] && AllFreeOf(a, NEWLINE) && AllFreeOf(b, NEWLINE)
    ensures Join(a, NEWLINE) == Join(b, NEWLINE) <==> a == b
  {
    SplitJoin(a, NEWLINE);
    SplitJoin(b, NEWLINE);
  }

  /** When the first pass completes, a second one, whatever it looks for, is ended by an index out of
      range exactly when some five-field mount line has lost all its flags. */
  lemma SecondPassFailsIff(content: Bytes, p: seq<Bytes>, q: seq<Bytes>)
    requires PatchFstab(content, p).Some?
    ensures PatchTwice(content, p, q) == None <==>
            exists line :: line in Split(content, NEWLINE) && LosesFlags(line, p) && |Fields(line)| == 5
  {
    hide PatchFstab, Fields, PatchLine, LosesFlags, Split, Join;
    var lines := Split(content, NEWLINE);
    var out := TwoPasses(content, p, q);
    FailsIff(content, p);
    forall i | 0 <= i < |lines|
      ensures Twice(lines[i], p, q) == None <==> LosesFlags(lines[i], p) && |Fields(lines[i])| == 5
    {
      assert lines[i] in lines;
      LineFailsTwice(lines[i], p, q);
    }
  }

  lemma LineFailsTwice(line: Bytes, p: seq<Bytes>, q: seq<Bytes>)
    requires !HasFourFields(line)
    ensures Twice(line, p, q) == None <==> LosesFlags(line, p) && |Fields(line)| == 5
  {
    hide Fields, NewFlags, Front, Back, NextFlags;
    if IsMount(line) {
      SecondPatch(line, p, q);
      PatchedLine(line, p);
      PatchedLine(line, p + q);
    }
  }

  /** Patching with one list and then with another is patching once with both, exactly when every
      mount line keeps some flag text under the first list; a line that turns into a comment has to
      hold nothing for the second list instead. */
  lemma PatchesComposeIff(content: Bytes, p: seq<Bytes>, q: seq<Bytes>)
    requires PatchFstab(content, p).Some?
    ensures PatchTwice(content, p, q) == PatchFstab(content, p + q) <==>
            forall line :: line in Split(content, NEWLINE) ==> Composable(line, p, q)
  {
    hide Fields, PatchLine, Composable, Split, Join, HasFourFields, PatchLines, FreeOf, Twice;
    var lines := Split(content, NEWLINE);
    var out := TwoPasses(content, p, q);
    FailsIff(content, p);
    FailsIff(content, p + q);
    PatchLinesEach(lines, p + q);
    SplitIsFree(content, NEWLINE);
    PatchedLinesAreLines(lines, p + q);
    var once := PatchLines(lines, p + q).value;
    forall i | 0 <= i < |lines|
      ensures Twice(lines[i], p, q) == Some(once[i]) <==> Composable(lines[i], p, q)
    {
      assert lines[i] in lines;
      LineComposesIff(lines[i], p, q);
    }
    if !TwiceFails(lines, p, q) { SameText(out, once); }
  }

  /** The order of two patches does not matter, exactly when every line comes out alike, or some
      line makes each order fail. */
  lemma PatchesCommuteIff(content: Bytes, p: seq<Bytes>, q: seq<Bytes>)
    requires PatchFstab(content, p).Some?
    ensures PatchTwice(content, p, q) == PatchTwice(content, q, p) <==>
            || (forall line :: line in Split(content, NEWLINE) ==> Commutable(line, p, q))
            || ((exists line :: line in Split(content, NEWLINE) && LosesFlags(line, p) && |Fields(line)| == 5) &&
                (exists line :: line in Split(content, NEWLINE) && LosesFlags(line, q) && |Fields(line)| == 5))
  {
    hide Fields, PatchLine, Commutable, Split, Join, HasFourFields, PatchLines, FreeOf, Twice, LosesFlags, PatchFstab,
         PatchTwice;
    var lines := Split(content, NEWLINE);
    FailsIff(content, p);
    FailsIff(content, q);
    var out := TwoPasses(content, p, q);
    var out' := TwoPasses(content, q, p);
    SecondPassFailsIff(content, p, q);
    SecondPassFailsIff(content, q, p);
    forall i | 0 <= i < |lines|
      ensures Twice(lines[i], p, q) == Twice(lines[i], q, p) <==> Commutable(lines[i], p, q)
    {
      assert lines[i] in lines;
      LineCommutesIff(lines[i], p, q);
    }
    if !TwiceFails(lines, p, q) && !TwiceFails(lines, q, p) { SameText(out, out'); }
  }

  /** A second patch with the same list changes nothing, exactly when every mount line keeps some
      flag text. */
  lemma PatchIsIdempotentIff(content: Bytes, p: seq<Bytes>)
    requires PatchFstab(content, p).Some?
    ensures PatchTwice(content, p, p) == PatchFstab(content, p) <==>
            forall line :: line in Split(content, NEWLINE) ==> !LosesFlags(line, p)
  {
    hide Fields, Split, PatchFstab, PatchTwice, NewFlags;
    SameFlags(p, p);
    forall line ensures Composable(line, p, p) <==> !LosesFlags(line, p) {
    }
    PatchesComposeIff(content, p, p);
    SamePatch(content, p + p, p);
  }

  lemma SamePatch(content: Bytes, p: seq<Bytes>, q: seq<Bytes>)
    requires forall field :: NewFlags(field, p) == NewFlags(field, q)
    ensures PatchFstab(content, p) == PatchFstab(content, q)
  {
    hide Fields, NewFlags, PatchLines;
    var lines := Split(content, NEWLINE);
    PatchLinesEach(lines, p);
    PatchLinesEach(lines, q);
    assert forall i :: 0 <= i < |lines| ==> PatchLine(lines[i], p) == PatchLine(lines[i], q);
    if PatchLines(lines, p).Some? {
      assert PatchLines(lines, p).value == PatchLines(lines, q).value;
    }
  }

  // ---- verity and encryption --------------------------------------------------------------------------

  const VERITY_PATTERNS: seq<Bytes> := [
    [118, 101, 114, 105, 102, 121, 97, 116, 98, 111, 111, 116],           // verifyatboot
    [118, 101, 114, 105, 102, 121],                                       // verify
    [97, 118, 98, 95, 107, 101, 121, 115],                                // avb_keys
    [97, 118, 98],                                                        // avb
    [115, 117, 112, 112, 111, 114, 116, 95, 115, 99, 102, 115],           // support_scfs
    [102, 115, 118, 101, 114, 105, 116, 121]]                             // fsverity

  const ENCRYPTION_PATTERNS: seq<Bytes> := [
    [102, 111, 114, 99, 101, 101, 110, 99, 114, 121, 112, 116],           // forceencrypt
    [102, 111, 114, 99, 101, 102, 100, 101, 111, 114, 102, 98, 101],      // forcefdeorfbe
    [102, 105, 108, 101, 101, 110, 99, 114, 121, 112, 116, 105, 111, 110]] // fileencryption

  function PatchVerity(content: Bytes): Option<Bytes> {
    PatchFstab(content, VERITY_PATTERNS)
  }

  function PatchEncryption(content: Bytes): Option<Bytes> {
    PatchFstab(content, ENCRYPTION_PATTERNS)
  }

  /** Nothing in the file runs into the weak spots of the code: a line of exactly four fields, an
      indented comment, and a mount line that loses all its flags. */
  predicate Clean(content: Bytes, patterns: seq<Bytes>) {
    forall line :: line in Split(content, NEWLINE) ==>
      !HasFourFields(line) && !IsIndentedComment(line) && !LosesFlags(line, patterns)
  }

  /** PatchVerity and PatchEncryption commute, are idempotent, and together are one pass with
      both lists of patterns. */
  lemma VerityAndEncryption(content: Bytes)
    requires Clean(content, VERITY_PATTERNS) && Clean(content, ENCRYPTION_PATTERNS)
    ensures PatchVerity(content).Some? && PatchEncryption(content).Some?
    ensures PatchVerity(PatchVerity(content).value) == PatchVerity(content)
    ensures PatchEncryption(PatchEncryption(content).value) == PatchEncryption(content)
    ensures PatchEncryption(PatchVerity(content).value) == PatchVerity(PatchEncryption(content).value)
    ensures PatchEncryption(PatchVerity(content).value) ==
            PatchFstab(content, VERITY_PATTERNS + ENCRYPTION_PATTERNS)
  {
    hide PatchFstab, Split, Fields, NewFlags, IsComment;
    var v, e := VERITY_PATTERNS, ENCRYPTION_PATTERNS;
    FailsIff(content, v);
    FailsIff(content, e);
    PatchesComposeIff(content, v, e);
    PatchesCommuteIff(content, v, e);
    PatchIsIdempotentIff(content, v);
    PatchIsIdempotentIff(content, e);
  }

  // ---- The weak spot, at one input ---------------------------------------------------------------------

  const AVB: Bytes := [97, 118, 98]
  const AVB_FIELDS: seq<Bytes> := [[97], [98], [99], [100], AVB]
  const AVB_LINE: Bytes := [97, 32, 98, 32, 99, 32, 100, 32, 97, 118, 98]

  lemma AvbGoes()
    ensures NewFlags(AVB, VERITY_PATTERNS) == []
  {
    SplitPart(AVB, [], COMMA);
    assert VERITY_PATTERNS[3] <= AVB;
    assert [AVB][1..] == [];
    assert Keep([AVB], VERITY_PATTERNS) == [];
  }

  lemma AvbIsJoined()
    ensures AVB_LINE == Join(AVB_FIELDS, SPACE)
  {
    var fs := AVB_FIELDS;
    assert fs[1..][1..] == fs[2..] && fs[2..][1..] == fs[3..] && fs[3..][1..] == fs[4..];
    assert Join(fs[4..], SPACE) == fs[4];
    assert Join(fs[3..], SPACE) == fs[3] + [SPACE] + Join(fs[4..], SPACE);
    assert Join(fs[2..], SPACE) == fs[2] + [SPACE] + Join(fs[3..], SPACE);
    assert Join(fs[1..], SPACE) == fs[1] + [SPACE] + Join(fs[2..], SPACE);
  }

  /** "a b c d avb": PatchVerity completes and a second pass does not. */
  lemma AvbAloneFails()
    ensures PatchVerity(AVB_LINE).Some? && PatchVerity(PatchVerity(AVB_LINE).value) == None
  {
    hide PatchFstab, Fields, Join, Split, NewFlags;
    AvbGoes();
    AvbIsJoined();
    assert AreFields(AVB_FIELDS);
    FieldsJoin(AVB_FIELDS);
    SplitPart(AVB_LINE, [], NEWLINE);
    assert AVB_LINE in Split(AVB_LINE, NEWLINE);
    assert LosesFlags(AVB_LINE, VERITY_PATTERNS);
    FailsIff(AVB_LINE, VERITY_PATTERNS);
    SecondPassFailsIff(AVB_LINE, VERITY_PATTERNS, VERITY_PATTERNS);
  }
}
