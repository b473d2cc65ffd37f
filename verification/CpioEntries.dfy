/** What the commands put into entries, and what they take an entry for: file types and reserved names, spelled
    out. */
module CpioEntries {
  import opened Words
  import opened Varint
  import opened CpioFormat
  import opened Names
  import opened CpioRoundTrip
  import opened CpioOps
  import opened CpioBackup
  import opened CpioRestore

  lemma PathsAreSpelled()
    ensures BACKUP == Ascii(".backup") && BACKUP_SLASH == Ascii(".backup/") && RMLIST == Ascii(".rmlist")
    ensures MAGISK == Ascii(".magisk") && XZ_SUFFIX == Ascii(".xz") && [SLASH] == Ascii("/") && NUL == 0
  {
  }

  // ---- File types ----------------------------------------------------------------------------

  lemma {:induction false} OrZero(a: nat)
    ensures BitOr(a, 0) == a
  {
    if a > 0 { OrZero(a / 2); }
  }

  lemma OrStep(p: nat, r: nat, q: nat)
    requires r < 2
    ensures BitOr(2 * p + r, 2 * q) == r + 2 * BitOr(p, q)
  {
    assert (2 * p + r) / 2 == p && (2 * q) / 2 == q;
    assert (2 * p + r) % 2 == r && (2 * q) % 2 == 0;
    if 2 * p + r == 0 && q == 0 { assert BitOr(p, q) == 0; }
  }

  /** Or-ing in one bit sets it and leaves what is above and below. */
  lemma {:induction false} OrBit(x: nat, low: nat, n: nat)
    requires low < Pow2(n)
    ensures BitOr(x * Pow2(n) + low, Pow2(n)) == (x / 2 * 2 + 1) * Pow2(n) + low
    decreases n
  {
    hide BitOr;
    if n == 0 {
      assert x == 2 * (x / 2) + x % 2;
      assert BitOr(x, 1) == x / 2 * 2 + 1 by { OrOne(x); }
    } else {
      var p, y := Pow2(n - 1), x / 2 * 2 + 1;
      OrBit(x, low / 2, n - 1);
      OrStep(x * p + low / 2, low % 2, p);
      assert x * (2 * p) + low == 2 * (x * p + low / 2) + low % 2;
      assert y * (2 * p) == 2 * (y * p);
    }
  }

  lemma OrOne(x: nat)
    ensures BitOr(x, 1) == x / 2 * 2 + 1
  {
    OrZero(x / 2);
  }

  lemma PowerFourteen()
    ensures Pow2(14) == 0x4000
  {
    assert Pow2(5) == 32;
    assert Pow2(10) == 32 * 32;
  }

  /** mkdir makes an entry without data whose mode has the bit of a directory or-ed in. */
  lemma DirEntryIs(mode: uint32)
    ensures BitOr(mode, 0x4000) < TWO32 && DirEntry(mode) == Entry(BitOr(mode, 0x4000), 0, 0, 0, 0, [])
  {
    PowerFourteen();
    OrBit(mode / 0x4000, mode % 0x4000, 14);
  }

  /** ln makes a symbolic link to the cleaned target, with a slash in front just if the target has one. */
  lemma LinkEntryIs(target: Name, cleaned: Name)
    ensures LinkEntry(target, cleaned) ==
            Entry(0xA000, 0, 0, 0, 0,
                  if target != [] && target[0] == 47 then Ascii("/") + cleaned else cleaned)
  {
    PathsAreSpelled();
    assert HasPrefix(target, [SLASH]) <==> target != [] && target[0] == 47;
  }

  /** Of the four bits of a mode that hold the type of the file, a regular one has the highest and no other. */
  lemma RegularIff(e: Entry)
    ensures IsRegular(e) <==>
            e.mode / 0x8000 % 2 == 1 && e.mode / 0x4000 % 2 == 0 && e.mode / 0x2000 % 2 == 0 && e.mode / 0x1000 % 2 == 0
  {
    var q := e.mode / 0x1000;
    assert e.mode / 0x8000 == q / 8 by { Shifted(e.mode, 8); }
    assert e.mode / 0x4000 == q / 4 by { Shifted(e.mode, 4); }
    assert e.mode / 0x2000 == q / 2 by { Shifted(e.mode, 2); }
    LowFour(q);
  }

  lemma Shifted(m: nat, k: nat)
    requires k in {2, 4, 8}
    ensures m / (0x1000 * k) == m / 0x1000 / k
  {
    if k == 2 {
      assert m / 0x2000 == m / 0x1000 / 2;
    } else if k == 4 {
      assert m / 0x4000 == m / 0x1000 / 4;
    } else {
      assert m / 0x8000 == m / 0x1000 / 8;
    }
  }

  lemma LowFour(q: nat)
    ensures q % 16 == 8 <==> q / 8 % 2 == 1 && q / 4 % 2 == 0 && q / 2 % 2 == 0 && q % 2 == 0
  {
    LowTwo(q);
    LowTwo(q / 4);
    assert q / 4 / 2 == q / 8;
    assert q % 16 == q / 4 % 4 * 4 + q % 4;
  }

  lemma LowTwo(q: nat)
    ensures q % 4 == q / 2 % 2 * 2 + q % 2
  {
  }

  // ---- Loading into an archive ------------------------------------------------------------------

  /** Loading adds to what is there: keys behind keys, later entries over earlier ones. */
  lemma LoadAdds(a: Archive, b: Archive)
    requires SizesFit(b) && GoodNames(b.keys)
    ensures Apply(a, LoadEdit(DumpBytes(b))) ==
            Archive(a.entries + (map k | k in b.keys :: Lookup(b.entries, k)), a.keys + b.keys)
  {
    hide DumpBytes, SizesFit, GoodNames;
    var s := [Segment(b, [])];
    assert s[1..] == [];
    assert Image(s) == DumpBytes(b) + [] + Image(s[1..]);
    assert Image(s) == DumpBytes(b);
    ConcatenationLoads(s, a);
    assert OverlayAll(a, s) == OverlayAll(Overlay(a, b), s[1..]);
  }

  // ---- Compression -----------------------------------------------------------------------------

  /** Saved entries are compressed if that is wanted, the file is regular and the codec manages; nothing but the
      data changes. */
  lemma PackedIs(e: Entry, skip: bool, lib: Library)
    ensures var p := Packed(e, skip, lib);
            if !skip && e.mode / 0x1000 % 16 == 8 && lib.xz(e.data).Some?
            then p == Entry(e.mode, e.uid, e.gid, e.rdevMajor, e.rdevMinor, lib.xz(e.data).value)
            else p == e
  {
  }

  /** A kept entry is decompressed exactly if its name ends in .xz, the file is regular and the codec manages. */
  lemma UnpackedIs(k: Name, e: Entry, lib: Library)
    ensures var unpacks := |k| >= 3 && k[|k| - 3..] == Ascii(".xz") && e.mode / 0x1000 % 16 == 8 && lib.unxz(e.data).Some?;
            && (Unpacks(k, e, lib) <==> unpacks)
            && Unpacked(k, e, lib) ==
               if unpacks then Entry(e.mode, e.uid, e.gid, e.rdevMajor, e.rdevMinor, lib.unxz(e.data).value) else e
  {
    PathsAreSpelled();
  }

  /** What is kept below .backup is whatever stands there but the rm list and .magisk, under the name behind the
      prefix, less .xz if it was decompressed. */
  lemma SavedIff(k: Name, e: Entry, lib: Library)
    ensures IsSaved(k) <==>
            Ascii(".backup/") <= k && k != Ascii(".backup/") + Ascii(".rmlist") && k != Ascii(".backup/") + Ascii(".magisk")
    ensures IsSaved(k) ==>
            k == Ascii(".backup/") + Target(k, e, lib) + (if Unpacks(k, e, lib) then Ascii(".xz") else [])
  {
    PathsAreSpelled();
    if IsSaved(k) && Unpacks(k, e, lib) {
      XzLeavesPrefix(k);
      assert k == k[..8] + k[8..|k| - 3] + k[|k| - 3..];
    }
  }

  // ---- What backup leaves ------------------------------------------------------------------------

  /** What backup puts in: the directory .backup, the saved entries, and the rm list if a name was recorded. */
  function Extra(d: Diff): map<Name, Entry> {
    map[Ascii(".backup") := Entry(0x4000, 0, 0, 0, 0, [])] + d.saved +
    (if d.removed == [] then map[]
     else map[Ascii(".backup/") + Ascii(".rmlist") := Entry(0x8000, 0, 0, 0, 0, RmListBytes(d.removed))])
  }

  lemma ExtraIs(d: Diff)
    ensures BackupEntries(d) == Extra(d)
  {
    hide RmListBytes;
    PathsAreSpelled();
    var first := map[BACKUP := BACKUP_DIR] + d.saved;
    assert first + map[] == first;
    if d.removed != [] {
      var e := RmListEntry(d.removed);
      assert first[BACKUP_SLASH + RMLIST := e] == first + map[BACKUP_SLASH + RMLIST := e];
    }
  }

  lemma InsertedCounts(a: Archive, extra: map<Name, Entry>, b: Archive)
    requires IsInsertion(a, extra, b)
    ensures b.entries == a.entries + extra && Sorted(b.keys)
    ensures forall k :: multiset(b.keys)[k] == multiset(a.keys)[k] + (if k in extra then 1 else 0)
  {
    hide Sorted;
  }

  /** The state after backup: the old archive less .backup and all below it, with these put in, the saved entries
      under their plain names; the keys are sorted, each entry put in bringing one. The original is whatever of it
      could be loaded, less its own .backup. */
  lemma BackupLeaves(c: Archive, origin: Bytes, skip: bool, lib: Library, b: Archive)
    requires IsBackup(c, origin, skip, lib, b)
    ensures var o, c' := Rm(Load(EMPTY, origin).archive, BACKUP, true), Rm(c, BACKUP, true);
            var extra := Extra(Merge(o.keys, c'.keys, o.entries, c'.entries, skip, lib));
            && b.entries == c'.entries + extra
            && Sorted(b.keys)
            && (forall k :: multiset(b.keys)[k] == multiset(c'.keys)[k] + (if k in extra then 1 else 0))
  {
    hide Rm, Merge, Load, Sorted, BackupEntries, Extra, IsInsertion;
    var d := BackupDiff(c, origin, skip, lib);
    ExtraIs(d);
    InsertedCounts(Rm(c, BACKUP, true), BackupEntries(d), b);
  }
}
