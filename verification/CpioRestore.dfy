/** restore: the entries and the rm list kept below .backup are applied to the archive. */
module CpioRestore {
  import opened Words
  import opened Text
  import opened CpioFormat
  import opened Names
  import opened CpioOps
  import opened CpioBackup

  // ---- What is collected ------------------------------------------------------------------

  datatype Collected = Collected(backups: map<Name, Entry>, rmList: Bytes)

  function Decompress(e: Entry, lib: Library): Option<Entry> {
    if !IsRegular(e) then None
    else match lib.unxz(e.data)
      case Some(d) => Some(e.(data := d))
      case None => None
  }

  lemma XzLeavesPrefix(name: Name)
    requires HasPrefix(name, BACKUP_SLASH) && HasSuffix(name, XZ_SUFFIX)
    ensures |name| >= 11
  {
    assert name[7] == BACKUP_SLASH[7] == 47;
    assert name[|name| - 3] == 46 && name[|name| - 2] == 120 && name[|name| - 1] == 122;
  }

  /** One turn of the loop over the keys. */
  function CollectOne(c: Collected, name: Name, e: Entry, lib: Library): Collected {
    if !HasPrefix(name, BACKUP_SLASH) then c
    else if name == BACKUP_SLASH + RMLIST then c.(rmList := c.rmList + e.data)
    else if name == BACKUP_SLASH + MAGISK then c
    else if HasSuffix(name, XZ_SUFFIX) && Decompress(e, lib).Some? then
      XzLeavesPrefix(name);
      c.(backups := c.backups[name[8..|name| - 3] := Decompress(e, lib).value])
    else c.(backups := c.backups[name[8..] := e])
  }

  function Collect(entries: map<Name, Entry>, keys: seq<Name>, lib: Library): Collected {
    if keys == [] then Collected(map[], [])
    else
      var name := keys[|keys| - 1];
      CollectOne(Collect(entries, keys[..|keys| - 1], lib), name, Lookup(entries, name), lib)
  }

  // ---- The command ----------------------------------------------------------------------------

  /** One rm per non-empty part of the list, each path cleaned first. */
  function RmAll(a: Archive, names: seq<Name>, lib: Library): Archive
    decreases names
  {
    if names == [] then a
    else RmAll(if names[0] == [] then a else Rm(a, lib.norm(names[0]), false), names[1..], lib)
  }

  ghost predicate IsRestore(a: Archive, lib: Library, b: Archive) {
    var c := Collect(a.entries, a.keys, lib);
    var a' := Rm(a, BACKUP, false);
    if c.rmList == [] && c.backups == map[] then b == Archive(map[], a'.keys)
    else IsInsertion(RmAll(a', Split(c.rmList, NUL), lib), c.backups, b)
  }

  /** restore has one result, whatever order its map of backups is walked in. */
  lemma RestoreIsUnique(a: Archive, lib: Library, b: Archive, b': Archive)
    requires IsRestore(a, lib, b) && IsRestore(a, lib, b')
    ensures b == b'
  {
    hide Collect, RmAll, IsInsertion, Rm;
    var c := Collect(a.entries, a.keys, lib);
    if !(c.rmList == [] && c.backups == map[]) {
      InsertionIsUnique(RmAll(Rm(a, BACKUP, false), Split(c.rmList, NUL), lib), c.backups, b, b');
    }
  }

  lemma {:induction false} CoveredRmAll(a: Archive, names: seq<Name>, lib: Library)
    requires Covered(a)
    ensures Covered(RmAll(a, names, lib))
    decreases names
  {
    hide Covered, Rm;
    if names != [] {
      if names[0] != [] { CoveredRm(a, lib.norm(names[0]), false); }
      CoveredRmAll(if names[0] == [] then a else Rm(a, lib.norm(names[0]), false), names[1..], lib);
    }
  }

  // ---- What restore does to the entries ---------------------------------------------------------

  /** The names whose entries are kept below .backup, with that prefix taken off. */
  predicate IsSaved(k: Name) {
    HasPrefix(k, BACKUP_SLASH) && k != BACKUP_SLASH + RMLIST && k != BACKUP_SLASH + MAGISK
  }

  /** Is the entry taken for a compressed one? */
  predicate Unpacks(k: Name, e: Entry, lib: Library) {
    HasSuffix(k, XZ_SUFFIX) && Decompress(e, lib).Some?
  }

  /** The name an entry below .backup is restored under. */
  function Target(k: Name, e: Entry, lib: Library): Name
    requires IsSaved(k)
  {
    if Unpacks(k, e, lib) then XzLeavesPrefix(k); k[8..|k| - 3] else k[8..]
  }

  function Unpacked(k: Name, e: Entry, lib: Library): Entry {
    if Unpacks(k, e, lib) then Decompress(e, lib).value else e
  }

  function TargetOf(entries: map<Name, Entry>, k: Name, lib: Library): Name
    requires IsSaved(k)
  {
    Target(k, Lookup(entries, k), lib)
  }

  function SavedNames(entries: map<Name, Entry>, keys: seq<Name>, lib: Library): set<Name> {
    set k | k in ToSet(keys) && IsSaved(k) :: TargetOf(entries, k, lib)
  }

  /** The last key in the list that is restored under the name `n`. */
  function LastFor(entries: map<Name, Entry>, keys: seq<Name>, lib: Library, n: Name): (k: Name)
    requires n in SavedNames(entries, keys, lib)
    ensures k in keys && IsSaved(k) && TargetOf(entries, k, lib) == n
  {
    hide HasPrefix, HasSuffix, Target;
    var front, k := keys[..|keys| - 1], keys[|keys| - 1];
    LastKey(keys);
    if IsSaved(k) && TargetOf(entries, k, lib) == n then k else LastFor(entries, front, lib, n)
  }

  /** What is restored: under each name the last entry that has it for its target. */
  function SavedEntries(entries: map<Name, Entry>, keys: seq<Name>, lib: Library): map<Name, Entry> {
    map n | n in SavedNames(entries, keys, lib) ::
      Unpacked(LastFor(entries, keys, lib, n), Lookup(entries, LastFor(entries, keys, lib, n)), lib)
  }

  lemma LastKey(keys: seq<Name>)
    requires keys != []
    ensures var front, k := keys[..|keys| - 1], keys[|keys| - 1];
            && ToSet(keys) == ToSet(front) + {k}
            && multiset(keys) == multiset(front) + multiset{k}
  {
    var front, k := keys[..|keys| - 1], keys[|keys| - 1];
    assert keys == front + [k];
  }

  function Times(s: Bytes, n: nat): Bytes {
    if n == 0 then [] else Times(s, n - 1) + s
  }

  /** The rm list, once for every time its name is listed. */
  function RmListOf(entries: map<Name, Entry>, keys: seq<Name>): Bytes {
    Times(Lookup(entries, BACKUP_SLASH + RMLIST).data, multiset(keys)[BACKUP_SLASH + RMLIST])
  }

  lemma SavedEntriesAdd(entries: map<Name, Entry>, keys: seq<Name>, lib: Library)
    requires keys != []
    ensures var front, k := keys[..|keys| - 1], keys[|keys| - 1];
            SavedEntries(entries, keys, lib) ==
            if IsSaved(k)
            then SavedEntries(entries, front, lib)[TargetOf(entries, k, lib) := Unpacked(k, Lookup(entries, k), lib)]
            else SavedEntries(entries, front, lib)
  {
    hide IsSaved, TargetOf, Unpacked, Lookup;
    var front, k := keys[..|keys| - 1], keys[|keys| - 1];
    LastKey(keys);
    assert SavedNames(entries, keys, lib) ==
           SavedNames(entries, front, lib) + if IsSaved(k) then {TargetOf(entries, k, lib)} else {};
  }

  lemma CollectOneIs(c: Collected, k: Name, e: Entry, lib: Library)
    ensures CollectOne(c, k, e, lib) ==
            if IsSaved(k) then c.(backups := c.backups[Target(k, e, lib) := Unpacked(k, e, lib)])
            else if k == BACKUP_SLASH + RMLIST then c.(rmList := c.rmList + e.data)
            else c
    ensures !IsSaved(BACKUP_SLASH + RMLIST)
  {
    hide HasSuffix, Decompress, HasPrefix;
    PrefixOfSum(RMLIST);
  }

  /** Whatever the keys, repeated or not, and whatever is compressed, this is collected. */
  lemma {:induction false} CollectFinds(entries: map<Name, Entry>, keys: seq<Name>, lib: Library)
    ensures Collect(entries, keys, lib) == Collected(SavedEntries(entries, keys, lib), RmListOf(entries, keys))
  {
    hide Lookup, CollectOne, IsSaved, Target, Unpacked;
    if keys == [] {
      assert SavedNames(entries, keys, lib) == {};
      assert SavedEntries(entries, keys, lib) == map[];
    } else {
      hide SavedEntries;
      var front, k := keys[..|keys| - 1], keys[|keys| - 1];
      LastKey(keys);
      CollectFinds(entries, front, lib);
      SavedEntriesAdd(entries, keys, lib);
      CollectOneIs(Collect(entries, front, lib), k, Lookup(entries, k), lib);
    }
  }

  lemma PrefixOfSum(n: Name)
    ensures HasPrefix(BACKUP_SLASH + n, BACKUP_SLASH) && (BACKUP_SLASH + n)[8..] == n
  {
  }

  /** The listed names are normal: cleaning leaves them alone. */
  predicate Normal(names: seq<Name>, lib: Library) {
    forall i :: 0 <= i < |names| ==> names[i] != [] ==> lib.norm(names[i]) == names[i]
  }

  lemma RmOne(a: Archive, name: Name)
    ensures Rm(a, name, false).entries == a.entries - {name}
  {
  }

  /** The paths restore removes: the non-empty parts of the list, cleaned. */
  function Cleaned(names: seq<Name>, lib: Library): set<Name> {
    set n | n in names && n != [] :: lib.norm(n)
  }

  lemma CleanedCons(names: seq<Name>, lib: Library)
    requires names != []
    ensures Cleaned(names, lib) == Cleaned(names[1..], lib) + (if names[0] == [] then {} else {lib.norm(names[0])})
  {
    assert names == [names[0]] + names[1..];
    assert forall n :: n in names <==> n == names[0] || n in names[1..];
  }

  lemma {:induction false} RmAllRemoves(a: Archive, names: seq<Name>, lib: Library)
    ensures RmAll(a, names, lib).entries == a.entries - Cleaned(names, lib)
    decreases names
  {
    if names == [] {
      assert Cleaned(names, lib) == {};
    } else {
      hide Rm, Cleaned;
      var a' := if names[0] == [] then a else Rm(a, lib.norm(names[0]), false);
      RmOne(a, lib.norm(names[0]));
      RmAllRemoves(a', names[1..], lib);
      CleanedCons(names, lib);
      assert a.entries - Cleaned(names, lib) == a'.entries - Cleaned(names[1..], lib);
    }
  }

  lemma {:induction false} NonEmptyIff(parts: seq<Bytes>)
    ensures forall p :: p in NonEmpty(parts) <==> p in parts && p != []
  {
    if parts != [] {
      HeadAndTail(parts);
      NonEmptyIff(parts[1..]);
    }
  }

  /** Normal names are removed as they stand in the list. */
  lemma NormalCleaned(list: Bytes, lib: Library)
    requires Normal(Split(list, NUL), lib)
    ensures Cleaned(Split(list, NUL), lib) == ToSet(RmListNames(list))
  {
    hide Split, NonEmpty;
    var names := Split(list, NUL);
    NonEmptyIff(names);
    forall n | n in names && n != [] ensures lib.norm(n) == n {
      var i :| 0 <= i < |names| && names[i] == n;
    }
  }

  /** What there is to restore. */
  predicate HasBackup(a: Archive, lib: Library) {
    RmListOf(a.entries, a.keys) != [] || SavedNames(a.entries, a.keys, lib) != {}
  }

  lemma SavedKeys(a: Archive, lib: Library)
    ensures SavedEntries(a.entries, a.keys, lib).Keys == SavedNames(a.entries, a.keys, lib)
    ensures SavedEntries(a.entries, a.keys, lib) == map[] <==> SavedNames(a.entries, a.keys, lib) == {}
  {
    hide SavedNames, LastFor, Unpacked;
    var saved := SavedEntries(a.entries, a.keys, lib);
    assert saved.Keys == SavedNames(a.entries, a.keys, lib);
    assert saved == map[] <==> saved.Keys == {};
  }

  /** restore: drop the .backup directory and the listed names, cleaned, lay the saved entries over the rest. With
      nothing to restore it empties the map. */
  lemma RestoreApplies(a: Archive, lib: Library, b: Archive)
    requires IsRestore(a, lib, b)
    ensures b.entries ==
            if !HasBackup(a, lib) then map[]
            else (a.entries - {BACKUP} - Cleaned(Split(RmListOf(a.entries, a.keys), NUL), lib)) +
                 SavedEntries(a.entries, a.keys, lib)
  {
    hide Collect, Rm, RmAll, SavedNames, SavedEntries, RmListOf, Cleaned, Split;
    CollectFinds(a.entries, a.keys, lib);
    var rmList := RmListOf(a.entries, a.keys);
    var saved := SavedEntries(a.entries, a.keys, lib);
    SavedKeys(a, lib);
    RmOne(a, BACKUP);
    RmAllRemoves(Rm(a, BACKUP, false), Split(rmList, NUL), lib);
  }

  // ---- What restore does to the keys ------------------------------------------------------------

  lemma RmCounts(a: Archive, name: Name, k: Name)
    ensures multiset(Rm(a, name, false).keys)[k] ==
            multiset(a.keys)[k] - (if k == name && k in a.entries && k in a.keys then 1 else 0)
  {
    RmRemovesSubtree(a, name, false);
  }

  /** Each listed name that has an entry loses the entry and one key, however often it is listed. */
  lemma {:induction false} RmAllCounts(a: Archive, names: seq<Name>, lib: Library, k: Name)
    ensures multiset(RmAll(a, names, lib).keys)[k] ==
            multiset(a.keys)[k] - (if k in Cleaned(names, lib) && k in a.entries && k in a.keys then 1 else 0)
    decreases names
  {
    if names != [] {
      hide Rm, Cleaned;
      CleanedCons(names, lib);
      if names[0] == [] {
        RmAllCounts(a, names[1..], lib, k);
      } else {
        var name := lib.norm(names[0]);
        var a' := Rm(a, name, false);
        RmOne(a, name);
        RmCounts(a, name, k);
        RmAllCounts(a', names[1..], lib, k);
        CountOrAbsent(a'.keys, k);
      }
      CountOrAbsent(a.keys, k);
    }
  }

  lemma CountOrAbsent(s: seq<Name>, k: Name)
    ensures k in s <==> multiset(s)[k] > 0
  {
  }

  lemma RmBackupKeys(a: Archive)
    ensures Rm(a, BACKUP, false).keys == if BACKUP in a.entries then RemoveFirst(a.keys, BACKUP) else a.keys
  {
    hide RemoveFirst;
    if BACKUP in a.entries {
      assert Doomed(a, BACKUP, false) == {BACKUP};
      RemoveOneOf(a.keys, BACKUP, {BACKUP});
      assert {BACKUP} - {BACKUP} == {};
      RemoveFirstsEmpty(RemoveFirst(a.keys, BACKUP));
    } else {
      assert Doomed(a, BACKUP, false) == {};
      RemoveFirstsEmpty(a.keys);
    }
  }

  /** The names restore deletes entries of: .backup and the listed ones. */
  function Dropped(a: Archive, lib: Library): set<Name> {
    {BACKUP} + Cleaned(Split(RmListOf(a.entries, a.keys), NUL), lib)
  }

  lemma DroppedCounts(a: Archive, lib: Library, k: Name)
    ensures multiset(RmAll(Rm(a, BACKUP, false), Split(RmListOf(a.entries, a.keys), NUL), lib).keys)[k] ==
            multiset(a.keys)[k] - (if k in Dropped(a, lib) && k in a.entries && k in a.keys then 1 else 0)
  {
    hide Rm, RmAll, RmListOf, Cleaned, Split;
    RmOne(a, BACKUP);
    RmCounts(a, BACKUP, k);
    RmAllCounts(Rm(a, BACKUP, false), Split(RmListOf(a.entries, a.keys), NUL), lib, k);
    CountOrAbsent(a.keys, k);
    CountOrAbsent(Rm(a, BACKUP, false).keys, k);
  }

  /** The keys. With nothing to restore they stay, but for one .backup whose entry was there, although the map is
      emptied. Otherwise they are sorted; each entry that was deleted takes one key with it, and each name that
      was restored brings one, even if it was listed already. */
  lemma RestoreKeys(a: Archive, lib: Library, b: Archive)
    requires IsRestore(a, lib, b)
    ensures !HasBackup(a, lib) ==>
              b.keys == if BACKUP in a.entries then RemoveFirst(a.keys, BACKUP) else a.keys
    ensures HasBackup(a, lib) ==>
              Sorted(b.keys) &&
              forall k :: multiset(b.keys)[k] ==
                multiset(a.keys)[k] - (if k in Dropped(a, lib) && k in a.entries && k in a.keys then 1 else 0)
                                    + (if k in SavedNames(a.entries, a.keys, lib) then 1 else 0)
  {
    hide Collect, Rm, RmAll, SavedNames, SavedEntries, RmListOf, Dropped, Sorted, RemoveFirst, Split;
    CollectFinds(a.entries, a.keys, lib);
    SavedKeys(a, lib);
    RmBackupKeys(a);
    if HasBackup(a, lib) {
      forall k ensures multiset(b.keys)[k] ==
        multiset(a.keys)[k] - (if k in Dropped(a, lib) && k in a.entries && k in a.keys then 1 else 0)
                            + (if k in SavedNames(a.entries, a.keys, lib) then 1 else 0)
      {
        DroppedCounts(a, lib, k);
      }
    }
  }

  // ---- The rest of the archive ----------------------------------------------------------------------

  /** Neither .backup nor anything below it. */
  predicate IsOutside(k: Name) {
    k != BACKUP && !HasPrefix(k, BACKUP_SLASH)
  }

  function Outside(m: map<Name, Entry>): map<Name, Entry> {
    map k | k in m && IsOutside(k) :: m[k]
  }

  lemma OutsideAfter(m: map<Name, Entry>, rm: set<Name>, saved: map<Name, Entry>)
    ensures Outside((m - {BACKUP} - rm) + saved) == (Outside(m) - rm) + Outside(saved)
  {
    hide HasPrefix;
  }

  lemma RmListIsEmpty(names: seq<Name>)
    ensures RmListBytes(names) == [] <==> names == []
  {
  }

  lemma NormalParts(c: Archive, d: Diff, lib: Library)
    requires forall k :: k in c.entries ==> lib.norm(k) == k
    requires ToSet(RmListNames(RmListBytes(d.removed))) <= c.entries.Keys
    ensures Normal(Split(RmListBytes(d.removed), NUL), lib)
  {
    hide Split, NonEmpty;
    var parts := Split(RmListBytes(d.removed), NUL);
    NonEmptyIff(parts);
    forall i | 0 <= i < |parts| && parts[i] != [] ensures lib.norm(parts[i]) == parts[i] {
      assert parts[i] in ToSet(NonEmpty(parts));
    }
  }

  // ---- Every command keeps every entry reachable ---------------------------------------------------

  datatype Command =
    | EditCommand(edit: Edit)
    | BackupCommand(origin: Bytes, skipCompress: bool)
    | RestoreCommand

  ghost predicate Next(a: Archive, command: Command, lib: Library, b: Archive) {
    match command
    case EditCommand(edit) => b == Apply(a, edit)
    case BackupCommand(origin, skip) => IsBackup(a, origin, skip, lib, b)
    case RestoreCommand => IsRestore(a, lib, b)
  }

  lemma NextCovers(a: Archive, command: Command, lib: Library, b: Archive)
    requires Covered(a) && Next(a, command, lib, b)
    ensures Covered(b)
  {
    hide Covered, Apply, Rm, IsInsertion, Collect, RmAll, BackupDiff, BackupEntries;
    match command
    case EditCommand(edit) =>
      CoveredApply(a, edit);
    case BackupCommand(origin, skip) =>
      CoveredRm(a, BACKUP, true);
      InsertionCovers(Rm(a, BACKUP, true), BackupEntries(BackupDiff(a, origin, skip, lib)), b);
    case RestoreCommand =>
      var c := Collect(a.entries, a.keys, lib);
      var a' := Rm(a, BACKUP, false);
      CoveredRm(a, BACKUP, false);
      if c.rmList == [] && c.backups == map[] {
        NothingIsCovered(a'.keys);
      } else {
        CoveredRmAll(a', Split(c.rmList, NUL), lib);
        InsertionCovers(RmAll(a', Split(c.rmList, NUL), lib), c.backups, b);
      }
  }

  lemma NothingIsCovered(keys: seq<Name>)
    ensures Covered(Archive(map[], keys))
  {
  }

  /** A run: the state before and after every command. */
  ghost predicate IsRun(states: seq<Archive>, commands: seq<Command>, lib: Library) {
    && |states| == |commands| + 1
    && states[0] == EMPTY
    && forall i :: 0 <= i < |commands| ==> Next(states[i], commands[i], lib, states[i + 1])
  }

  /** In no state of any run does the map hold an entry that Dump would not print. */
  lemma {:induction false} RunsLoseNothing(states: seq<Archive>, commands: seq<Command>, lib: Library, n: nat)
    requires IsRun(states, commands, lib) && n < |states|
    ensures Covered(states[n])
  {
    hide Next;
    if n > 0 {
      RunsLoseNothing(states, commands, lib, n - 1);
      NextCovers(states[n - 1], commands[n - 1], lib, states[n]);
    }
  }
}
