/** The Cpio object: a map of entries and an ordered list of keys, edited in place. */
module Cpio {
  import opened Words
  import opened Text
  import opened CpioFormat
  import opened Names
  import opened CpioOps
  import opened CpioBackup
  import opened CpioRestore

  // ---- Facts the loops need -----------------------------------------------------------------

  lemma {:induction false} RemoveFirstAt(s: seq<Name>, v: Name, i: nat)
    requires i < |s| && s[i] == v && v !in s[..i]
    ensures RemoveFirst(s, v) == s[..i] + s[i + 1..]
  {
    if i > 0 {
      assert s[0] == s[..i][0];
      assert s[1..][..i - 1] == s[..i][1..];
      RemoveFirstAt(s[1..], v, i - 1);
      assert s[..i] + s[i + 1..] == [s[0]] + (s[1..][..i - 1] + s[1..][i..]);
    }
  }

  lemma {:induction false} RemoveFirstAbsent(s: seq<Name>, v: Name)
    requires v !in s
    ensures RemoveFirst(s, v) == s
  {
    if s != [] { RemoveFirstAbsent(s[1..], v); }
  }

  lemma {:induction false} WithoutAppend(s: seq<Name>, k: Name, vs: set<Name>)
    ensures Without(s + [k], vs) == Without(s, vs) + (if k in vs then [] else [k])
  {
    if s == [] {
      assert [k][1..] == [];
    } else {
      assert (s + [k])[1..] == s[1..] + [k];
      WithoutAppend(s[1..], k, vs);
    }
  }

  lemma {:induction false} RmListAppend(names: seq<Name>, n: Name)
    ensures RmListBytes(names + [n]) == RmListBytes(names) + n + [NUL]
  {
    if names == [] {
      assert RmListBytes([n]) == n + [NUL] + RmListBytes([n][1..]);
    } else {
      assert (names + [n])[1..] == names[1..] + [n];
      RmListAppend(names[1..], n);
    }
  }

  lemma InsertOne(m: map<Name, Entry>, k: Name, e: Entry, rest: map<Name, Entry>)
    ensures m[k := e] + rest == m + (map[k := e] + rest)
  {
  }

  /** Padding behind an aligned start does not depend on where the start is. */
  lemma PaddingShifts(base: nat, x: nat)
    requires base % 4 == 0
    ensures Padding(base + x) == Padding(x)
  {
    AlignShifts(base, x);
  }

  /** Some of the doomed entries are gone already; `left` are still there. */
  ghost predicate IsPartlyRemoved(a: Archive, doomed: set<Name>, left: set<Name>, b: Archive) {
    && left <= doomed <= a.entries.Keys
    && b.entries == a.entries - (doomed - left)
    && RemoveFirsts(b.keys, left) == RemoveFirsts(a.keys, doomed)
  }

  lemma RemoveOneDoomed(a: Archive, doomed: set<Name>, left: set<Name>, b: Archive, k: Name)
    requires IsPartlyRemoved(a, doomed, left, b) && k in left
    ensures IsPartlyRemoved(a, doomed, left - {k}, Archive(b.entries - {k}, RemoveFirst(b.keys, k)))
  {
    hide RemoveFirst, RemoveFirsts;
    RemoveOneOf(b.keys, k, left);
    assert doomed - (left - {k}) == (doomed - left) + {k};
    assert b.entries - {k} == a.entries - (doomed - (left - {k}));
  }

  /** All of `extra` but what is still to be done has been put in. */
  ghost predicate IsPartlyInserted(a: Archive, extra: map<Name, Entry>, todo: set<Name>, b: Archive) {
    && todo <= extra.Keys
    && b.entries == a.entries + (extra - todo)
    && multiset(b.keys) + multiset(todo) == multiset(a.keys) + multiset(extra.Keys)
  }

  lemma InsertStart(a: Archive, extra: map<Name, Entry>)
    ensures IsPartlyInserted(a, extra, extra.Keys, a)
  {
    assert a.entries + (extra - extra.Keys) == a.entries;
  }

  lemma InsertNext(a: Archive, extra: map<Name, Entry>, todo: set<Name>, b: Archive, k: Name)
    requires IsPartlyInserted(a, extra, todo, b) && k in todo
    ensures IsPartlyInserted(a, extra, todo - {k}, Archive(b.entries[k := extra[k]], b.keys + [k]))
  {
    assert multiset(todo) == multiset(todo - {k}) + multiset{k};
    assert multiset(b.keys + [k]) == multiset(b.keys) + multiset{k};
    assert b.entries[k := extra[k]] == a.entries + (extra - (todo - {k}));
  }

  lemma PartlyInsertedKeys(a: Archive, extra: map<Name, Entry>, todo: set<Name>, b: Archive)
    requires IsPartlyInserted(a, extra, todo, b)
    ensures todo <= extra.Keys
  {
  }

  lemma InsertEnd(a: Archive, extra: map<Name, Entry>, b: Archive)
    requires IsPartlyInserted(a, extra, {}, b)
    ensures IsInsertion(a, extra, Archive(b.entries, Sort(b.keys)))
  {
    assert extra - {} == extra;
    assert multiset(b.keys) + multiset({}) == multiset(b.keys);
    SortSorts(b.keys);
  }

  class Cpio {
    var entries: map<Name, Entry>
    var keys: seq<Name>

    ghost function State(): Archive
      reads this
    {
      Archive(entries, keys)
    }

    constructor ()
      ensures State() == EMPTY
    {
      entries, keys := map[], [];
    }

    // ---- Reading and writing archives -------------------------------------------------------

    method LoadFromData(data: Bytes) returns (outcome: Outcome)
      modifies this
      ensures Loaded(State(), outcome) == Load(old(State()), data)
    {
      hide ReadHead, ReadEntry, IndexOf;
      ghost var goal := Load(State(), data);
      var pos := 0;
      while pos < |data|
        invariant goal == LoadFrom(data, pos, State())
        decreases |data| - pos
      {
        var head := ReadHead(data, pos);
        if head.Stop? { return head.outcome; }
        var name, next := head.name, head.next;
        if name == DOT || name == DOT_DOT {
          pos := next;
          continue;
        }
        if name == TRAILER {
          if next > |data| { return Panicked; }
          var nextHeader := IndexOf(data, next, MAGIC);
          if nextHeader.None? { break; }
          pos := nextHeader.value;
          continue;
        }
        var entry := ReadEntry(data, pos, next);
        if entry.None? { return Panicked; }
        entries := entries[name := entry.value];
        keys := keys + [name];
        pos := Align4(next + |entry.value.data|);
      }
      return Done;
    }

    /** The bytes Dump writes, with the position it keeps beside them. */
    method Dump() returns (file: Bytes)
      ensures file == DumpBytes(State())
    {
      hide Header, Align4, Lookup;
      file := [];
      var pos, inode := 0, FIRST_INODE;
      assert keys[0..] == keys;
      for i := 0 to |keys|
        invariant pos == |file| && pos % 4 == 0 && inode == FIRST_INODE + i
        invariant file + Records(entries, keys[i..], inode) == Records(entries, keys, FIRST_INODE)
      {
        var name := keys[i];
        ghost var before := file;
        file, pos := WriteRecord(file, pos, name, Lookup(entries, name), inode);
        assert keys[i..][1..] == keys[i + 1..];
        assert before + Records(entries, keys[i..], inode) == file + Records(entries, keys[i + 1..], inode + 1);
        inode := inode + 1;
      }
      assert keys[|keys|..] == [];
      file, pos := WriteRecord(file, pos, TRAILER, TRAILER_ENTRY, inode);
    }

    method WriteRecord(file: Bytes, at: nat, name: Name, e: Entry, inode: nat) returns (file': Bytes, pos: nat)
      requires at == |file| && at % 4 == 0
      ensures file' == file + Record(name, e, inode) && pos == |file'| && pos % 4 == 0
    {
      hide Header, Align4, Zeros;
      var header := Header(inode, e, |name| + 1);
      file' := file + header;
      pos := at + |header|;
      file' := file' + name;
      pos := pos + |name|;
      file' := file' + [0];
      pos := pos + 1;
      ghost var front := NamePart(name, e, inode);
      assert file' == file + front;
      PaddingShifts(at, |front|);
      AlignShifts(at, |front|);
      file' := file' + Zeros(Align4(pos) - pos);
      pos := Align4(pos);
      file' := file' + e.data;
      pos := pos + |e.data|;
      PaddingShifts(at + Align4(|front|), |e.data|);
      AlignShifts(at + Align4(|front|), |e.data|);
      file' := file' + Zeros(Align4(pos) - pos);
      pos := Align4(pos);
    }

    // ---- Editing ----------------------------------------------------------------------------

    method RemoveByValue(slice: seq<Name>, value: Name) returns (r: seq<Name>)
      ensures r == RemoveFirst(slice, value)
    {
      for i := 0 to |slice|
        invariant value !in slice[..i]
      {
        if slice[i] == value {
          RemoveFirstAt(slice, value, i);
          return slice[..i] + slice[i + 1..];
        }
      }
      RemoveFirstAbsent(slice, value);
      return slice;
    }

    method RemoveEntry(k: Name)
      modifies this
      ensures State() == Archive(old(entries) - {k}, RemoveFirst(old(keys), k))
    {
      entries := entries - {k};
      keys := RemoveByValue(keys, k);
    }

    /** The map is walked in an unspecified order while entries are deleted from it. */
    method Rm(path: Name, recursive: bool)
      modifies this
      ensures State() == CpioOps.Rm(old(State()), path, recursive)
    {
      hide HasPrefix, RemoveFirst, RemoveFirsts;
      ghost var a := State();
      ghost var doomed := Doomed(a, path, recursive);
      ghost var left := doomed;
      if path in entries {
        RemoveOneDoomed(a, doomed, left, State(), path);
        RemoveEntry(path);
        left := left - {path};
      }
      if recursive {
        var prefix := path + [SLASH];
        var todo := entries.Keys;
        while todo != {}
          invariant IsPartlyRemoved(a, doomed, left, State())
          invariant left == set k | k in todo && HasPrefix(k, prefix)
          decreases |todo|
        {
          var k :| k in todo;
          todo := todo - {k};
          if HasPrefix(k, prefix) {
            RemoveOneDoomed(a, doomed, left, State(), k);
            RemoveEntry(k);
            left := left - {k};
          }
        }
      }
      assert left == {};
      RemoveFirstsEmpty(keys);
    }

    method AddEntry(key: Name, entry: Entry)
      modifies this
      ensures State() == CpioOps.AddEntry(old(State()), key, entry)
      ensures entries == old(entries)[key := entry] && IsSortOf(keys, multiset(old(keys)) + multiset{key})
    {
      entries := entries[key := entry];
      keys := keys + [key];
      SortSorts(keys);
      keys := Sort(keys);
    }

    method Mkdir(mode: uint32, dir: Name)
      modifies this
      ensures State() == Apply(old(State()), MkdirEdit(mode, dir))
    {
      AddEntry(dir, DirEntry(mode));
    }

    method Ln(src: Name, cleaned: Name, dst: Name)
      modifies this
      ensures State() == Apply(old(State()), LnEdit(src, cleaned, dst))
    {
      AddEntry(dst, LinkEntry(src, cleaned));
    }

    method Mv(from: Name, to: Name)
      modifies this
      ensures State() == CpioOps.Mv(old(State()), from, to)
    {
      hide Lookup;
      var entry := Lookup(entries, from);
      var newk: seq<Name> := [];
      for i := 0 to |keys|
        invariant State() == old(State())
        invariant newk == Without(keys[..i], {from})
      {
        WithoutAppend(keys[..i], keys[i], {from});
        assert keys[..i] + [keys[i]] == keys[..i + 1];
        if keys[i] != from { newk := newk + [keys[i]]; }
      }
      assert keys[..|keys|] == keys;
      entries := entries - {from};
      keys := newk;
      AddEntry(to, entry);
    }

    // ---- Backup and restore -------------------------------------------------------------------

    /** Puts the entries in, in the map's own unspecified order, and sorts the keys. */
    method InsertAll(backups: map<Name, Entry>)
      modifies this
      ensures IsInsertion(old(State()), backups, State())
    {
      hide IsPartlyInserted, IsInsertion;
      var todo := backups.Keys;
      InsertStart(State(), backups);
      while todo != {}
        invariant IsPartlyInserted(old(State()), backups, todo, State())
        decreases |todo|
      {
        var k :| k in todo;
        PartlyInsertedKeys(old(State()), backups, todo, State());
        InsertNext(old(State()), backups, todo, State(), k);
        todo := todo - {k};
        keys := keys + [k];
        entries := entries[k := backups[k]];
      }
      InsertEnd(old(State()), backups, State());
      keys := Sort(keys);
    }

    method Restore(lib: Library)
      modifies this
      ensures IsRestore(old(State()), lib, State())
    {
      hide HasPrefix, HasSuffix, Lookup, Decompress, CpioOps.Rm, Split;
      var backups: map<Name, Entry> := map[];
      var rmList: Bytes := [];
      for i := 0 to |keys|
        invariant State() == old(State())
        invariant Collected(backups, rmList) == Collect(entries, keys[..i], lib)
      {
        var name := keys[i];
        assert keys[..i + 1][..i] == keys[..i];
        var entry := Lookup(entries, name);
        if HasPrefix(name, BACKUP_SLASH) {
          if name == BACKUP_SLASH + RMLIST {
            rmList := rmList + entry.data;
          } else if name != BACKUP_SLASH + MAGISK {
            if HasSuffix(name, XZ_SUFFIX) && Decompress(entry, lib).Some? {
              XzLeavesPrefix(name);
              backups := backups[name[8..|name| - 3] := Decompress(entry, lib).value];
            } else {
              assert |name| >= 8 by { PrefixLength(name); }
              backups := backups[name[8..] := entry];
            }
          }
        }
      }
      assert keys[..|keys|] == keys;
      Rm(BACKUP, false);
      ghost var mid := State();
      if rmList == [] && backups == map[] {
        while entries != map[]
          invariant keys == mid.keys
          decreases |entries|
        {
          var k :| k in entries;
          entries := entries - {k};
        }
        return;
      }
      var parts := Split(rmList, NUL);
      assert parts[0..] == parts;
      for i := 0 to |parts|
        invariant RmAll(State(), parts[i..], lib) == RmAll(mid, parts, lib)
      {
        assert parts[i..][1..] == parts[i + 1..];
        if |parts[i]| != 0 { Rm(lib.norm(parts[i]), false); }
      }
      assert parts[|parts|..] == [];
      InsertAll(backups);
    }

    /** LoadFromFile drops the error of LoadFromData, so a damaged original is used as far as it
        could be read; only an out-of-range slice ends the run. */
    method Backup(origin: Bytes, skipCompress: bool, lib: Library) returns (outcome: Outcome)
      modifies this
      ensures outcome == if Load(EMPTY, origin).outcome == Panicked then Panicked else Done
      ensures outcome == Panicked ==> State() == old(State())
      ensures outcome == Done ==> IsBackup(old(State()), origin, skipCompress, lib, State())
    {
      hide Load, CpioOps.Rm, Merge, IsInsertion;
      var o := new Cpio();
      outcome := o.LoadFromData(origin);
      if outcome == Panicked { return; }
      outcome := Done;
      o.Rm(BACKUP, true);
      Rm(BACKUP, true);
      var backups := MergeKeys(o.keys, keys, o.entries, entries, skipCompress, lib);
      InsertAll(backups);
    }
  }

  lemma PrefixLength(name: Name)
    requires HasPrefix(name, BACKUP_SLASH)
    ensures |name| >= 8
  {
  }

  /** What the two indices still have to do, on top of what is saved and recorded. */
  ghost predicate Ahead(backups: map<Name, Entry>, recorded: seq<Name>, rest: Diff, all: Diff) {
    && backups + rest.saved == map[BACKUP := BACKUP_DIR] + all.saved
    && recorded + rest.removed == all.removed
  }

  lemma AheadSave(backups: map<Name, Entry>, recorded: seq<Name>, k: Name, e: Entry, rest: Diff, all: Diff)
    requires Ahead(backups, recorded, SaveFirst(k, e, rest), all)
    ensures Ahead(backups[k := e], recorded, rest, all)
  {
    InsertOne(backups, k, e, rest.saved);
  }

  lemma AheadRecord(backups: map<Name, Entry>, recorded: seq<Name>, k: Name, rest: Diff, all: Diff)
    requires Ahead(backups, recorded, RecordFirst(k, rest), all)
    ensures Ahead(backups, recorded + [k], rest, all)
  {
    assert recorded + [k] + rest.removed == recorded + ([k] + rest.removed);
  }

  /** The arguments of a merge. */
  datatype Sides = Sides(
    lhsKeys: seq<Name>, rhsKeys: seq<Name>, lhs: map<Name, Entry>, rhs: map<Name, Entry>, skip: bool, lib: Library)
  {
    /** The difference still to be found from the two indices on. */
    ghost function Rest(l: nat, r: nat): Diff
      requires l <= |lhsKeys| && r <= |rhsKeys|
    {
      Merge(lhsKeys[l..], rhsKeys[r..], lhs, rhs, skip, lib)
    }

    ghost function Saved(l: nat): Entry
      requires l < |lhsKeys|
    {
      Packed(Lookup(lhs, lhsKeys[l]), skip, lib)
    }

    lemma RestSteps(l: nat, r: nat)
      requires l <= |lhsKeys| && r <= |rhsKeys|
      ensures l < |lhsKeys| && (r == |rhsKeys| || Compare(lhsKeys[l], rhsKeys[r]) < 0) ==>
                Rest(l, r) == SaveFirst(lhsKeys[l], Saved(l), Rest(l + 1, r))
      ensures r < |rhsKeys| && (l == |lhsKeys| || Compare(lhsKeys[l], rhsKeys[r]) > 0) ==>
                Rest(l, r) == RecordFirst(rhsKeys[r], Rest(l, r + 1))
      ensures l < |lhsKeys| && r < |rhsKeys| && Compare(lhsKeys[l], rhsKeys[r]) == 0 ==>
                Rest(l, r) ==
                if Lookup(rhs, rhsKeys[r]).data != Lookup(lhs, lhsKeys[l]).data
                then SaveFirst(lhsKeys[l], Saved(l), Rest(l + 1, r + 1)) else Rest(l + 1, r + 1)
      ensures l == |lhsKeys| && r == |rhsKeys| ==> Rest(l, r) == Diff(map[], [])
    {
      hide Compare, Lookup, Packed;
      if l < |lhsKeys| { assert lhsKeys[l..][1..] == lhsKeys[l + 1..]; }
      if r < |rhsKeys| { assert rhsKeys[r..][1..] == rhsKeys[r + 1..]; }
    }
  }

  /** The two-pointer merge of backup, with its two trailing loops. */
  method MergeKeys(lhsKeys: seq<Name>, rhsKeys: seq<Name>, lhs: map<Name, Entry>, rhs: map<Name, Entry>,
                   skipCompress: bool, lib: Library)
    returns (backups: map<Name, Entry>)
    ensures backups == BackupEntries(Merge(lhsKeys, rhsKeys, lhs, rhs, skipCompress, lib))
  {
    hide Lookup, Compare, Packed, Ahead, Merge, RmListBytes;
    ghost var sides := Sides(lhsKeys, rhsKeys, lhs, rhs, skipCompress, lib);
    ghost var all := Merge(lhsKeys, rhsKeys, lhs, rhs, skipCompress, lib);
    ghost var recorded: seq<Name> := [];
    backups := map[BACKUP := BACKUP_DIR];
    var rmList: Bytes := [];
    var l, r := 0, 0;
    AheadStart(all);
    RmListIsEmpty(recorded);
    assert lhsKeys[0..] == lhsKeys && rhsKeys[0..] == rhsKeys;
    while l < |lhsKeys| && r < |rhsKeys|
      invariant l <= |lhsKeys| && r <= |rhsKeys|
      invariant Ahead(backups, recorded, sides.Rest(l, r), all) && rmList == RmListBytes(recorded)
      decreases |lhsKeys| - l + |rhsKeys| - r
    {
      hide *;
      sides.RestSteps(l, r);
      var lKey, rKey := lhsKeys[l], rhsKeys[r];
      var re, le := Lookup(rhs, rKey), Lookup(lhs, lKey);
      var c := Compare(lKey, rKey);
      if c < 0 {
        backups := BackupFunc(backups, lKey, le, skipCompress, lib, recorded, sides.Rest(l + 1, r), all);
        l := l + 1;
      } else if c == 0 {
        if re.data != le.data {
          backups := BackupFunc(backups, lKey, le, skipCompress, lib, recorded, sides.Rest(l + 1, r + 1), all);
        }
        l := l + 1;
        r := r + 1;
      } else {
        rmList, recorded := RecordFunc(rmList, rKey, backups, recorded, sides.Rest(l, r + 1), all);
        r := r + 1;
      }
    }
    while l < |lhsKeys|
      invariant l <= |lhsKeys| && r <= |rhsKeys| && (l < |lhsKeys| ==> r == |rhsKeys|)
      invariant Ahead(backups, recorded, sides.Rest(l, r), all)
    {
      sides.RestSteps(l, r);
      backups := BackupFunc(backups, lhsKeys[l], Lookup(lhs, lhsKeys[l]), skipCompress, lib, recorded,
                        sides.Rest(l + 1, r), all);
      l := l + 1;
    }
    while r < |rhsKeys|
      invariant r <= |rhsKeys|
      invariant Ahead(backups, recorded, sides.Rest(l, r), all) && rmList == RmListBytes(recorded)
    {
      sides.RestSteps(l, r);
      rmList, recorded := RecordFunc(rmList, rhsKeys[r], backups, recorded, sides.Rest(l, r + 1), all);
      r := r + 1;
    }
    sides.RestSteps(l, r);
    AheadEnd(backups, recorded, all);
    RmListIsEmpty(recorded);
    if rmList != [] {
      backups := backups[BACKUP_SLASH + RMLIST := Entry(S_IFREG, 0, 0, 0, 0, rmList)];
    }
  }

  /** backupFunc */
  method BackupFunc(backups: map<Name, Entry>, name: Name, entry: Entry, skipCompress: bool, lib: Library,
                ghost recorded: seq<Name>, ghost rest: Diff, ghost all: Diff)
    returns (backups': map<Name, Entry>)
    requires Ahead(backups, recorded, SaveFirst(name, Packed(entry, skipCompress, lib), rest), all)
    ensures Ahead(backups', recorded, rest, all)
  {
    AheadSave(backups, recorded, name, Packed(entry, skipCompress, lib), rest, all);
    backups' := backups[name := Packed(entry, skipCompress, lib)];
  }

  /** recordFunc */
  method RecordFunc(rmList: Bytes, name: Name, ghost backups: map<Name, Entry>, ghost recorded: seq<Name>,
                ghost rest: Diff, ghost all: Diff)
    returns (rmList': Bytes, ghost recorded': seq<Name>)
    requires Ahead(backups, recorded, RecordFirst(name, rest), all) && rmList == RmListBytes(recorded)
    ensures Ahead(backups, recorded', rest, all) && rmList' == RmListBytes(recorded')
  {
    AheadRecord(backups, recorded, name, rest, all);
    RmListAppend(recorded, name);
    rmList' := rmList + name;
    rmList' := rmList' + [NUL];
    recorded' := recorded + [name];
  }

  lemma AheadStart(all: Diff)
    ensures Ahead(map[BACKUP := BACKUP_DIR], [], all, all)
  {
  }

  lemma AheadEnd(backups: map<Name, Entry>, recorded: seq<Name>, all: Diff)
    requires Ahead(backups, recorded, Diff(map[], []), all)
    ensures backups == map[BACKUP := BACKUP_DIR] + all.saved && recorded == all.removed
  {
    assert backups + map[] == backups && recorded + [] == recorded;
  }
}
