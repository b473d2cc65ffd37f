/** What the patchers do to the text: which flags go, where fields begin and end, and the line and the file that
    come out. */
module FstabText {
  import opened Words
  import opened Text
  import opened Fstab
  import opened FstabLines
  import opened FstabLaws

  lemma PatternsAreSpelled()
    ensures VERITY_PATTERNS == [Ascii("verifyatboot"), Ascii("verify"), Ascii("avb_keys"), Ascii("avb"),
                                Ascii("support_scfs"), Ascii("fsverity")]
  {
    var ps := VERITY_PATTERNS;
    assert ps[0] == Ascii("verifyatboot") && ps[1] == Ascii("verify") && ps[2] == Ascii("avb_keys");
    assert ps[3] == Ascii("avb") && ps[4] == Ascii("support_scfs") && ps[5] == Ascii("fsverity");
  }

  lemma EncryptionPatternsAreSpelled()
    ensures ENCRYPTION_PATTERNS == [Ascii("forceencrypt"), Ascii("forcefdeorfbe"), Ascii("fileencryption")]
  {
    var ps := ENCRYPTION_PATTERNS;
    assert ps[0] == Ascii("forceencrypt") && ps[1] == Ascii("forcefdeorfbe") && ps[2] == Ascii("fileencryption");
  }

  // ---- Which flags go --------------------------------------------------------------------------

  /** A flag stays exactly if no pattern is a prefix of it, as often as it was there. */
  lemma {:induction false} KeepIff(flags: seq<Bytes>, patterns: seq<Bytes>, f: Bytes)
    ensures f in Keep(flags, patterns) <==>
            f in flags && forall i :: 0 <= i < |patterns| ==> !(patterns[i] <= f)
    ensures f in Keep(flags, patterns) ==> multiset(Keep(flags, patterns))[f] == multiset(flags)[f]
  {
    if flags != [] {
      var more := Keep(flags[1..], patterns);
      KeepIff(flags[1..], patterns, f);
      assert flags == [flags[0]] + flags[1..];
      assert f in flags[1..] <==> multiset(flags[1..])[f] > 0;
      assert f in more <==> multiset(more)[f] > 0;
    }
  }

  /** Flags that stay keep their order: filtering a list is filtering its parts. */
  lemma {:induction false} KeepAppend(a: seq<Bytes>, b: seq<Bytes>, patterns: seq<Bytes>)
    ensures Keep(a + b, patterns) == Keep(a, patterns) + Keep(b, patterns)
  {
    hide HasPrefixIn;
    if a == [] {
      assert a + b == b;
    } else {
      assert (a + b)[1..] == a[1..] + b;
      KeepAppend(a[1..], b, patterns);
    }
  }

  // ---- White space --------------------------------------------------------------------------------

  /** A character in UTF-8. */
  function Utf8(c: nat): (s: Bytes)
    requires c < 0x11_0000
    ensures s != []
  {
    if c < 0x80 then [c]
    else if c < 0x800 then [0xC0 + c / 0x40, 0x80 + c % 0x40]
    else if c < 0x1_0000 then [0xE0 + c / 0x1000, 0x80 + c / 0x40 % 0x40, 0x80 + c % 0x40]
    else [0xF0 + c / 0x4_0000, 0x80 + c / 0x1000 % 0x40, 0x80 + c / 0x40 % 0x40, 0x80 + c % 0x40]
  }

  /** The characters of unicode.IsSpace. */
  predicate IsSpace(c: nat) {
    9 <= c <= 13 || c == 32 || c == 0x85 || c == 0xA0 || c == 0x1680 || 0x2000 <= c <= 0x200A ||
    c == 0x2028 || c == 0x2029 || c == 0x202F || c == 0x205F || c == 0x3000
  }

  /** White space is found where such a character stands, and nowhere else. */
  lemma SpaceIff(c: nat, rest: Bytes)
    requires c < 0x11_0000
    ensures SpaceLen(Utf8(c) + rest) == if IsSpace(c) then |Utf8(c)| else 0
  {
    var s := Utf8(c) + rest;
    if c < 0x80 {
      assert s[0] == c;
    } else if c < 0x800 {
      assert s[0] == 0xC0 + c / 0x40 && s[1] == 0x80 + c % 0x40;
    } else if c < 0x1_0000 {
      ThreeBytes(c, rest);
    } else {
      assert s[0] == 0xF0 + c / 0x4_0000;
    }
  }

  lemma ThreeBytes(c: nat, rest: Bytes)
    requires 0x800 <= c < 0x1_0000
    ensures SpaceLen(Utf8(c) + rest) == if IsSpace(c) then 3 else 0
  {
    var s := Utf8(c) + rest;
    var x, y, z := c / 0x1000, c / 0x40 % 0x40, c % 0x40;
    assert c == x * 0x1000 + y * 0x40 + z;
    assert s[0] == 0xE0 + x && s[1] == 0x80 + y && s[2] == 0x80 + z;
  }

  /** White space, one character or more. */
  predicate IsBlank(s: Bytes) {
    s == [] || (SpaceLen(s) > 0 && IsBlank(s[SpaceLen(s)..]))
  }

  lemma {:induction false} FieldsSkipBlank(blank: Bytes, rest: Bytes)
    requires IsBlank(blank)
    ensures Fields(blank + rest) == Fields(rest)
    decreases |blank|
  {
    if blank == [] {
      assert blank + rest == rest;
    } else {
      var n := SpaceLen(blank);
      SpaceStays(blank, rest);
      assert (blank + rest)[n..] == blank[n..] + rest;
      FieldsSkipBlank(blank[n..], rest);
    }
  }

  lemma SpaceStays(s: Bytes, rest: Bytes)
    requires SpaceLen(s) > 0
    ensures SpaceLen(s + rest) == SpaceLen(s)
  {
    assert forall i :: 0 <= i < |s| ==> (s + rest)[i] == s[i];
  }

  /** A field is not cut short by what follows it, if that begins a white-space character of its own. */
  lemma {:induction false} FieldEnds(f: Bytes, blank: Bytes, rest: Bytes)
    requires SpaceFree(f) && SpaceLen(blank) > 0
    ensures FieldLen(f + (blank + rest)) == |f|
  {
    hide SpaceFree;
    if f == [] {
      SpaceStays(blank, rest);
      assert f + (blank + rest) == blank + rest;
    } else {
      SpaceFreeTail(f);
      SpaceBreaks(f, blank, rest);
      assert (f + (blank + rest))[1..] == f[1..] + (blank + rest);
      FieldEnds(f[1..], blank, rest);
    }
  }

  lemma SpaceBreaks(f: Bytes, blank: Bytes, rest: Bytes)
    requires f != [] && SpaceLen(f) == 0 && SpaceLen(blank) > 0
    ensures SpaceLen(f + (blank + rest)) == 0
  {
    var s := f + (blank + rest);
    assert forall i :: 0 <= i < |f| ==> s[i] == f[i];
    assert s[|f|] == blank[0];
    assert |f| < 3 && |blank| > 1 ==> s[|f| + 1] == blank[1];
    assert blank[0] < 0x80 || blank[0] >= 0xC2;
  }

  lemma FieldBetween(f: Bytes, blank: Bytes, rest: Bytes)
    requires IsField(f) && IsBlank(blank) && blank != []
    ensures Fields(f + (blank + rest)) == [f] + Fields(rest)
  {
    hide FieldLen, SpaceLen, IsBlank;
    var s := f + (blank + rest);
    assert SpaceLen(blank) > 0 by { BlankStarts(blank); }
    FieldEnds(f, blank, rest);
    SpaceFreeTail(f);
    SpaceBreaks(f, blank, rest);
    assert s[..|f|] == f && s[|f|..] == blank + rest;
    FieldsSkipBlank(blank, rest);
  }

  lemma BlankStarts(blank: Bytes)
    requires IsBlank(blank) && blank != []
    ensures SpaceLen(blank) > 0
  {
  }

  /** A field with the white space behind it. */
  datatype Spaced = Spaced(field: Bytes, blank: Bytes)

  function SpacedText(parts: seq<Spaced>): Bytes {
    if parts == [] then [] else parts[0].field + (parts[0].blank + SpacedText(parts[1..]))
  }

  function FieldsOf(parts: seq<Spaced>): seq<Bytes> {
    if parts == [] then [] else [parts[0].field] + FieldsOf(parts[1..])
  }

  /** Only the last field may lack white space behind it. */
  predicate WellSpaced(parts: seq<Spaced>) {
    parts == [] ||
    (IsField(parts[0].field) && IsBlank(parts[0].blank) && (parts[0].blank != [] || |parts| == 1) &&
     WellSpaced(parts[1..]))
  }

  lemma {:induction false} PartsFound(parts: seq<Spaced>)
    requires WellSpaced(parts)
    ensures Fields(SpacedText(parts)) == FieldsOf(parts)
  {
    hide Fields, IsBlank, IsField;
    if parts == [] {
      NoFields();
    } else {
      var f, blank, rest := parts[0].field, parts[0].blank, SpacedText(parts[1..]);
      PartsFound(parts[1..]);
      if blank == [] {
        assert parts[1..] == [] && f + (blank + rest) == f;
        FieldsOfOne(f, []);
      } else {
        FieldBetween(f, blank, rest);
      }
    }
  }

  /** Fields are found again whatever white space stands before, between and behind them. */
  lemma FieldsFound(before: Bytes, parts: seq<Spaced>)
    requires IsBlank(before) && WellSpaced(parts)
    ensures Fields(before + SpacedText(parts)) == FieldsOf(parts)
  {
    hide Fields, IsBlank, WellSpaced, SpacedText;
    FieldsSkipBlank(before, SpacedText(parts));
    PartsFound(parts);
  }

  // ---- Lines and files -----------------------------------------------------------------------------

  lemma {:induction false} JoinAppend(a: seq<Bytes>, b: seq<Bytes>, sep: byte)
    requires a != [] && b != []
    ensures Join(a + b, sep) == Join(a, sep) + [sep] + Join(b, sep)
  {
    if |a| == 1 {
      assert (a + b)[1..] == b;
    } else {
      assert (a + b)[1..] == a[1..] + b;
      JoinAppend(a[1..], b, sep);
      assert a[0] + [sep] + (Join(a[1..], sep) + [sep] + Join(b, sep)) ==
             a[0] + [sep] + Join(a[1..], sep) + [sep] + Join(b, sep);
    }
  }

  lemma FrontAndBack(fs: seq<Bytes>, flags: Bytes)
    requires |fs| >= 5
    ensures Front(fs) + flags + Back(fs) == Join(fs[4 := flags], 32)
  {
    var ps := fs[4 := flags];
    assert ps[..4] == fs[..4] && ps[5..] == fs[5..];
    assert ps == ps[..4] + ([flags] + ps[5..]);
    JoinAppend(ps[..4], [flags] + ps[5..], 32);
    if |fs| > 5 {
      JoinAppend([flags], ps[5..], 32);
      assert Front(fs) + flags + ([SPACE] + Join(fs[5..], SPACE)) == Front(fs) + (flags + [SPACE] + Join(fs[5..], SPACE));
    } else {
      assert [flags] + ps[5..] == [flags];
      assert Front(fs) + flags + [] == Front(fs) + flags;
    }
  }

  /** What becomes of a line: one that is empty, begins with '#' or has fewer than four fields is copied; one of four
      fields ends the run; of any other the fields are joined by single blanks, the fifth being its flags without
      those that begin with a pattern. */
  lemma LineIs(line: Bytes, patterns: seq<Bytes>)
    ensures var fs := Fields(line);
            PatchLine(line, patterns) ==
            if line == [] || line[0] == '#' as int || |fs| < 4 then Some(line)
            else if |fs| == 4 then None
            else Some(Join(fs[4 := Join(Keep(Split(fs[4], ',' as int), patterns), ',' as int)], ' ' as int))
  {
    hide Fields, Keep, Split, Front, Back;
    if IsMount(line) {
      PatchedLine(line, patterns);
      FrontAndBack(Fields(line), NewFlags(Fields(line)[4], patterns));
    }
  }

  /** What becomes of the file: each of its lines is patched, and there are as many as before. */
  lemma FileIs(content: Bytes, patterns: seq<Bytes>)
    ensures PatchFstab(content, patterns).Some? ==>
            var was, now := Split(content, '\n' as int), Split(PatchFstab(content, patterns).value, '\n' as int);
            |was| == |now| && forall i :: 0 <= i < |was| ==> PatchLine(was[i], patterns) == Some(now[i])
    ensures PatchFstab(content, patterns).None? <==>
            exists line :: line in Split(content, '\n' as int) && PatchLine(line, patterns) == None
  {
    hide PatchLines, PatchLine, FreeOf;
    var lines := Split(content, NEWLINE);
    SplitIsFree(content, NEWLINE);
    PatchLinesEach(lines, patterns);
    if PatchLines(lines, patterns).Some? {
      PatchedLinesAreLines(lines, patterns);
      SplitJoin(PatchLines(lines, patterns).value, NEWLINE);
    }
  }
}
