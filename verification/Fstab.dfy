/** patchFstab: lines, fields and flags are taken apart, flags with certain prefixes dropped, and
    everything is put together again. */
module Fstab {
  import opened Words
  import opened Text

  const NEWLINE: byte := 10
  const SPACE: byte := 32
  const HASH: byte := 35
  const COMMA: byte := 44

  // ---- White space -------------------------------------------------------------------------

  /** The length of the white-space character at the front, 0 if there is none: the characters of
      unicode.IsSpace, in UTF-8. (No byte of a multi-byte character begins another one, so white
      space is found wherever it stands.) */
  function SpaceLen(s: Bytes): (n: nat)
    ensures n <= |s|
  {
    if s == [] then 0
    else if 9 <= s[0] <= 13 || s[0] == 32 then 1
    else if |s| >= 2 && s[0] == 0xC2 && (s[1] == 0x85 || s[1] == 0xA0) then 2
    else if |s| >= 3 && s[0] == 0xE1 && s[1] == 0x9A && s[2] == 0x80 then 3
    else if |s| >= 3 && s[0] == 0xE2 && s[1] == 0x80 &&
            (0x80 <= s[2] <= 0x8A || s[2] == 0xA8 || s[2] == 0xA9 || s[2] == 0xAF) then 3
    else if |s| >= 3 && s[0] == 0xE2 && s[1] == 0x81 && s[2] == 0x9F then 3
    else if |s| >= 3 && s[0] == 0xE3 && s[1] == 0x80 && s[2] == 0x80 then 3
    else 0
  }

  /** The number of bytes before the next white space. */
  function FieldLen(s: Bytes): (n: nat)
    ensures n <= |s|
  {
    if s == [] || SpaceLen(s) > 0 then 0 else 1 + FieldLen(s[1..])
  }

  /** bytes.Fields */
  function Fields(s: Bytes): seq<Bytes>
    decreases |s|
  {
    if s == [] then []
    else if SpaceLen(s) > 0 then Fields(s[SpaceLen(s)..])
    else
      assert FieldLen(s) > 0;
      [s[..FieldLen(s)]] + Fields(s[FieldLen(s)..])
  }

  predicate SpaceFree(s: Bytes) {
    forall i :: 0 <= i < |s| ==> SpaceLen(s[i..]) == 0
  }

  lemma SpaceFreeTail(s: Bytes)
    requires s != []
    ensures SpaceFree(s) <==> SpaceLen(s) == 0 && SpaceFree(s[1..])
  {
    assert s[0..] == s;
    assert forall i :: 0 <= i < |s| - 1 ==> s[1..][i..] == s[i + 1..];
    if SpaceLen(s) == 0 && SpaceFree(s[1..]) {
      forall i | 0 <= i < |s| ensures SpaceLen(s[i..]) == 0 {
        if i > 0 { assert s[i..] == s[1..][i - 1..]; }
      }
    }
  }

  /** What follows an ASCII byte cannot complete a white-space character begun before it. */
  lemma SpaceLenBefore(t: Bytes, c: byte, rest: Bytes)
    requires t != [] && SpaceLen(t) == 0 && c < 0x80
    ensures SpaceLen(t + [c] + rest) == 0
  {
    var s := t + [c] + rest;
    assert forall i :: 0 <= i < |t| ==> s[i] == t[i];
    assert s[|t|] == c;
  }

  lemma SpaceLenCut(t: Bytes, n: nat)
    requires SpaceLen(t) == 0 && n <= |t|
    ensures SpaceLen(t[..n]) == 0
  {
  }

  lemma {:induction false} FieldStartsLine(f: Bytes, rest: Bytes)
    requires SpaceFree(f)
    ensures FieldLen(f) == |f| && FieldLen(f + [SPACE] + rest) == |f|
  {
    hide SpaceFree;
    if f == [] {
      assert f + [SPACE] + rest == [SPACE] + rest;
    } else {
      SpaceFreeTail(f);
      SpaceLenBefore(f, SPACE, rest);
      assert (f + [SPACE] + rest)[1..] == f[1..] + [SPACE] + rest;
      FieldStartsLine(f[1..], rest);
    }
  }

  predicate IsField(f: Bytes) {
    f != [] && SpaceFree(f)
  }

  predicate AreFields(fs: seq<Bytes>) {
    forall i :: 0 <= i < |fs| ==> IsField(fs[i])
  }

  lemma FieldsOfOne(f: Bytes, rest: Bytes)
    requires IsField(f)
    ensures Fields(f) == [f]
    ensures Fields(f + [SPACE] + rest) == [f] + Fields(rest)
  {
    hide FieldLen, SpaceLen;
    SpaceFreeTail(f);
    FieldStartsLine(f, rest);
    assert f[..|f|] == f && f[|f|..] == [];
    var s := f + [SPACE] + rest;
    SpaceLenBefore(f, SPACE, rest);
    assert s[..|f|] == f && s[|f|..] == [SPACE] + rest;
    assert SpaceLen([SPACE] + rest) == 1 by { SpaceIsSpace(rest); }
    assert ([SPACE] + rest)[1..] == rest;
  }

  lemma SpaceIsSpace(rest: Bytes)
    ensures SpaceLen([SPACE] + rest) == 1
  {
  }

  /** Fields joined by blanks are found again. */
  lemma {:induction false} FieldsJoin(fs: seq<Bytes>)
    requires AreFields(fs)
    ensures Fields(Join(fs, SPACE)) == fs
  {
    hide Fields, IsField;
    if fs == [] {
      NoFields();
    } else if |fs| == 1 {
      FieldsOfOne(fs[0], []);
    } else {
      FieldsOfOne(fs[0], Join(fs[1..], SPACE));
      FieldsJoin(fs[1..]);
    }
  }

  lemma NoFields()
    ensures Fields([]) == []
  {
  }

  lemma {:induction false} FieldLenIsSpaceFree(s: Bytes)
    ensures SpaceFree(s[..FieldLen(s)])
  {
    hide SpaceLen, SpaceFree;
    var n := FieldLen(s);
    if n > 0 {
      FieldLenIsSpaceFree(s[1..]);
      assert s[..n][1..] == s[1..][..n - 1];
      SpaceLenCut(s, n);
      SpaceFreeTail(s[..n]);
    } else {
      SpaceFreeEmpty();
      assert s[..n] == [];
    }
  }

  lemma SpaceFreeEmpty()
    ensures SpaceFree([])
  {
  }

  lemma {:induction false} FieldsAreFields(s: Bytes)
    ensures AreFields(Fields(s))
    decreases |s|
  {
    hide SpaceLen, SpaceFree;
    if s != [] {
      if SpaceLen(s) > 0 {
        FieldsAreFields(s[SpaceLen(s)..]);
      } else {
        FieldLenIsSpaceFree(s);
        assert FieldLen(s) > 0;
        FieldsAreFields(s[FieldLen(s)..]);
      }
    }
  }

  /** Pieces joined by a printable ASCII byte contain no white space if they do not. */
  lemma {:induction false} SpaceFreeGlue(a: Bytes, c: byte, b: Bytes)
    requires SpaceFree(a) && SpaceFree(b) && 32 < c < 0x80
    ensures SpaceFree(a + [c] + b)
  {
    hide SpaceFree;
    var s := a + [c] + b;
    SpaceFreeTail(s);
    if a == [] {
      assert s == [c] + b && s[1..] == b;
      assert SpaceLen(s) == 0;
    } else {
      SpaceFreeTail(a);
      SpaceLenBefore(a, c, b);
      assert s[1..] == a[1..] + [c] + b;
      SpaceFreeGlue(a[1..], c, b);
    }
  }

  predicate AllSpaceFree(parts: seq<Bytes>) {
    forall i :: 0 <= i < |parts| ==> SpaceFree(parts[i])
  }

  lemma {:induction false} JoinIsSpaceFree(parts: seq<Bytes>)
    requires AllSpaceFree(parts)
    ensures SpaceFree(Join(parts, COMMA))
  {
    hide SpaceFree;
    if parts == [] {
      SpaceFreeEmpty();
    } else if |parts| > 1 {
      JoinIsSpaceFree(parts[1..]);
      SpaceFreeGlue(parts[0], COMMA, Join(parts[1..], COMMA));
    }
  }

  lemma {:induction false} SplitIsSpaceFree(s: Bytes)
    requires SpaceFree(s)
    ensures AllSpaceFree(Split(s, COMMA))
  {
    hide SpaceFree;
    SpaceFreeEmpty();
    if s != [] {
      SpaceFreeTail(s);
      SplitIsSpaceFree(s[1..]);
      var rest := Split(s[1..], COMMA);
      if s[0] != COMMA {
        SplitHeadIsPrefix(s, COMMA);
        var part := [s[0]] + rest[0];
        SpaceLenCut(s, |part|);
        SpaceFreeTail(part);
        assert part[1..] == rest[0];
      }
    }
  }

  lemma {:induction false} SplitHeadIsPrefix(s: Bytes, sep: byte)
    ensures Split(s, sep)[0] <= s
  {
    if s != [] { SplitHeadIsPrefix(s[1..], sep); }
  }

  // ---- Flags ---------------------------------------------------------------------------------

  predicate HasPrefixIn(flag: Bytes, patterns: seq<Bytes>) {
    exists i :: 0 <= i < |patterns| && patterns[i] <= flag
  }

  /** The flags that no pattern is a prefix of, in their order. */
  function Keep(flags: seq<Bytes>, patterns: seq<Bytes>): seq<Bytes> {
    if flags == [] then []
    else if HasPrefixIn(flags[0], patterns) then Keep(flags[1..], patterns)
    else [flags[0]] + Keep(flags[1..], patterns)
  }

  lemma PrefixInSum(flag: Bytes, p: seq<Bytes>, q: seq<Bytes>)
    ensures HasPrefixIn(flag, p + q) <==> HasPrefixIn(flag, p) || HasPrefixIn(flag, q)
  {
    assert forall i :: 0 <= i < |p| ==> (p + q)[i] == p[i];
    assert forall i :: 0 <= i < |q| ==> (p + q)[|p| + i] == q[i];
  }

  lemma {:induction false} KeepTwice(flags: seq<Bytes>, p: seq<Bytes>, q: seq<Bytes>)
    ensures Keep(Keep(flags, p), q) == Keep(flags, p + q)
  {
    hide HasPrefixIn;
    if flags != [] {
      PrefixInSum(flags[0], p, q);
      KeepTwice(flags[1..], p, q);
      var kept := Keep(flags[1..], p);
      assert ([flags[0]] + kept)[1..] == kept;
    }
  }

  lemma {:induction false} KeepAgrees(flags: seq<Bytes>, p: seq<Bytes>, q: seq<Bytes>)
    requires forall flag :: HasPrefixIn(flag, p) <==> HasPrefixIn(flag, q)
    ensures Keep(flags, p) == Keep(flags, q)
  {
    hide HasPrefixIn;
    if flags != [] { KeepAgrees(flags[1..], p, q); }
  }

  lemma {:induction false} KeepIsPart(flags: seq<Bytes>, patterns: seq<Bytes>)
    ensures |Keep(flags, patterns)| <= |flags|
    ensures forall f :: f in Keep(flags, patterns) ==> f in flags
  {
    hide HasPrefixIn;
    if flags != [] {
      KeepIsPart(flags[1..], patterns);
      assert flags == [flags[0]] + flags[1..];
    }
  }

  // ---- Lines -----------------------------------------------------------------------------------

  /** A line that is copied as it is, whatever it holds. */
  predicate IsComment(line: Bytes) {
    line == [] || line[0] == HASH
  }

  function NewFlags(field: Bytes, patterns: seq<Bytes>): Bytes {
    Join(Keep(Split(field, COMMA), patterns), COMMA)
  }

  /** One line; None where fields[4] does not exist although four fields are taken to be enough. */
  function PatchLine(line: Bytes, patterns: seq<Bytes>): Option<Bytes> {
    if IsComment(line) then Some(line)
    else
      var fields := Fields(line);
      if |fields| < 4 then Some(line)
      else if |fields| == 4 then None
      else
        var newLine := Join([Join(fields[..4], SPACE), NewFlags(fields[4], patterns)], SPACE);
        Some(if |fields| > 5 then newLine + [SPACE] + Join(fields[5..], SPACE) else newLine)
  }

  function PatchLines(lines: seq<Bytes>, patterns: seq<Bytes>): Option<seq<Bytes>> {
    if lines == [] then Some([])
    else match (PatchLine(lines[0], patterns), PatchLines(lines[1..], patterns))
      case (Some(line), Some(rest)) => Some([line] + rest)
      case _ => None
  }

  /** patchFstab; None if it is ended by an index out of range. */
  function PatchFstab(content: Bytes, patterns: seq<Bytes>): Option<Bytes> {
    match PatchLines(Split(content, NEWLINE), patterns)
    case Some(lines) => Some(Join(lines, NEWLINE))
    case None => None
  }

  // ---- The loops -----------------------------------------------------------------------------------

  method FilterFlags(flags: seq<Bytes>, patterns: seq<Bytes>) returns (newFlags: seq<Bytes>)
    ensures newFlags == Keep(flags, patterns)
  {
    newFlags := [];
    assert flags[0..] == flags;
    for i := 0 to |flags|
      invariant newFlags + Keep(flags[i..], patterns) == Keep(flags, patterns)
    {
      assert flags[i..][1..] == flags[i + 1..];
      var flag, shouldRemove := flags[i], false;
      for j := 0 to |patterns|
        invariant !shouldRemove && forall k :: 0 <= k < j ==> !(patterns[k] <= flag)
      {
        if patterns[j] <= flag {
          shouldRemove := true;
          break;
        }
      }
      if !shouldRemove {
        newFlags := newFlags + [flag];
      }
    }
    assert flags[|flags|..] == [];
  }

  /** The body of the loop over the lines. */
  method PatchOne(line: Bytes, patterns: seq<Bytes>) returns (r: Option<Bytes>)
    ensures r == PatchLine(line, patterns)
  {
    hide Fields, Split;
    if |line| == 0 || line[0] == HASH { return Some(line); }
    var fields := Fields(line);
    if |fields| < 4 { return Some(line); }
    if |fields| == 4 { return None; }
    var newFlags := FilterFlags(Split(fields[4], COMMA), patterns);
    var newLine := Join([Join(fields[..4], SPACE), Join(newFlags, COMMA)], SPACE);
    if |fields| > 5 {
      newLine := newLine + [SPACE];
      newLine := newLine + Join(fields[5..], SPACE);
    }
    return Some(newLine);
  }

  /** The lines done and the lines ahead make up the whole. */
  ghost predicate Continues(result: seq<Bytes>, rest: Option<seq<Bytes>>, all: Option<seq<Bytes>>) {
    match rest
    case None => all == None
    case Some(lines) => all == Some(result + lines)
  }

  method Patch(fstabContent: Bytes, patterns: seq<Bytes>) returns (r: Option<Bytes>)
    ensures r == PatchFstab(fstabContent, patterns)
  {
    hide PatchLine, Split;
    var lines := Split(fstabContent, NEWLINE);
    var result: seq<Bytes> := [];
    ghost var all := PatchLines(lines, patterns);
    assert lines[0..] == lines;
    assert all.Some? ==> [] + all.value == all.value;
    for i := 0 to |lines|
      invariant Continues(result, PatchLines(lines[i..], patterns), all)
    {
      assert lines[i..][1..] == lines[i + 1..];
      var line := PatchOne(lines[i], patterns);
      if line.None? { return None; }
      ghost var rest := PatchLines(lines[i + 1..], patterns);
      if rest.Some? {
        assert result + ([line.value] + rest.value) == result + [line.value] + rest.value;
      }
      result := result + [line.value];
    }
    assert lines[|lines|..] == [];
    assert result + [] == result;
    return Some(Join(result, NEWLINE));
  }
}
