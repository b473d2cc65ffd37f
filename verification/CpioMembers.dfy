/** Archives as any program may have written them: numbers in either case or unreadable, names with any number of
    terminators, any padding; and what Dump prints, column by column. */
module CpioMembers {
  import opened Words
  import opened Names
  import opened CpioFormat
  import opened CpioRoundTrip
  import opened CpioHex

  lemma NamesAreSpelled()
    ensures MAGIC == Ascii("070701") && DOT == Ascii(".") && DOT_DOT == Ascii("..") && TRAILER == Ascii("TRAILER!!!")
  {
  }

  // ---- What is printed -----------------------------------------------------------------------------

  /** The i-th column of eight characters. */
  function Column(header: Bytes, i: nat): Bytes
    requires 6 + 8 * i + 8 <= |header|
  {
    header[6 + 8 * i..14 + 8 * i]
  }

  /** What Dump prints in each column of a header. */
  lemma HeaderColumns(inode: nat, e: Entry, nameSize: nat)
    requires inode < TWO32 && nameSize < TWO32 && |e.data| < TWO32
    ensures var h := Header(inode, e, nameSize);
            && |h| == 110 && h[..6] == Ascii("070701")
            && Column(h, 0) == Hex08(inode) && Column(h, 1) == Hex08(e.mode)
            && Column(h, 2) == Hex08(e.uid) && Column(h, 3) == Hex08(e.gid)
            && Column(h, 4) == Hex08(1) && Column(h, 5) == Hex08(0)
            && Column(h, 6) == Hex08(|e.data|)
            && Column(h, 7) == Hex08(0) && Column(h, 8) == Hex08(0)
            && Column(h, 9) == Hex08(e.rdevMajor) && Column(h, 10) == Hex08(e.rdevMinor)
            && Column(h, 11) == Hex08(nameSize) && Column(h, 12) == Hex08(0)
  {
    hide Hex08, HexAll;
    HeaderFieldsFit(inode, e, nameSize);
    HeaderLength(inode, e, nameSize);
    NamesAreSpelled();
    forall i | 0 <= i < 13 ensures Column(Header(inode, e, nameSize), i) == Hex08(HeaderFields(inode, e, nameSize)[i]) {
      ColumnOf(inode, e, nameSize, i);
    }
  }

  lemma ColumnOf(inode: nat, e: Entry, nameSize: nat, i: nat)
    requires inode < TWO32 && nameSize < TWO32 && |e.data| < TWO32 && i < 13
    ensures |Header(inode, e, nameSize)| == 110
    ensures Column(Header(inode, e, nameSize), i) == Hex08(HeaderFields(inode, e, nameSize)[i])
  {
    hide Hex08, HexAll, HeaderFields;
    var ns := HeaderFields(inode, e, nameSize);
    HeaderFieldsFit(inode, e, nameSize);
    HexAllAt(ns, i);
    assert Column(Header(inode, e, nameSize), i) == HexAll(ns)[8 * i..8 * i + 8];
  }

  /** A printed member: header, name with one terminator, zeros up to a multiple of four, data, zeros again. */
  lemma RecordLayout(name: Name, e: Entry, inode: nat) returns (p: nat, q: nat)
    requires inode < TWO32 && EntryFits(name, e)
    ensures Record(name, e, inode) == Header(inode, e, |name| + 1) + name + [0] + Zeros(p) + e.data + Zeros(q)
    ensures p < 4 && q < 4 && (110 + |name| + 1 + p) % 4 == 0 && (|e.data| + q) % 4 == 0
  {
    hide Header, Zeros;
    HeaderLength(inode, e, |name| + 1);
    var front := NamePart(name, e, inode);
    p := Align4(|front|) - |front|;
    q := Align4(|e.data|) - |e.data|;
  }

  lemma {:induction false} RecordsHold(entries: map<Name, Entry>, keys: seq<Name>, inode: nat, i: nat)
    returns (front: Bytes, back: Bytes)
    requires i < |keys|
    ensures Records(entries, keys, inode) == front + Record(keys[i], Lookup(entries, keys[i]), inode + i) + back
    ensures i == 0 ==> front == []
  {
    hide Record, Lookup;
    if i == 0 {
      front, back := [], Records(entries, keys[1..], inode + 1);
    } else {
      front, back := RecordsHold(entries, keys[1..], inode + 1, i - 1);
      front := Record(keys[0], Lookup(entries, keys[0]), inode) + front;
    }
  }

  /** Dump prints a member for every key, inode numbers ascending from 300000, and the trailer behind them. */
  lemma DumpHolds(a: Archive, i: nat) returns (front: Bytes, back: Bytes)
    requires i <= |a.keys|
    ensures i < |a.keys| ==>
              DumpBytes(a) == front + Record(a.keys[i], Lookup(a.entries, a.keys[i]), 300000 + i) + back
    ensures i == |a.keys| ==>
              DumpBytes(a) == front + Record(Ascii("TRAILER!!!"), Entry(0x1ED, 0, 0, 0, 0, []), 300000 + i) && back == []
  {
    hide Record, Lookup, Records;
    NamesAreSpelled();
    var trailer := Record(TRAILER, TRAILER_ENTRY, FIRST_INODE + |a.keys|);
    if i < |a.keys| {
      front, back := RecordsHold(a.entries, a.keys, FIRST_INODE, i);
      back := back + trailer;
    } else {
      front, back := Records(a.entries, a.keys, FIRST_INODE), [];
    }
  }

  // ---- Loading any member ------------------------------------------------------------------------------

  /** What a column counts for: nothing, if it cannot be read. */
  function NumberIn(column: Bytes): uint32 {
    match X8u(column)
    case Some(v) => v
    case None => 0
  }

  /** At `pos` stand a header with these columns and a name with these terminators. */
  predicate HeadIs(data: Bytes, pos: nat, columns: seq<Bytes>, name: Name, terminators: nat) {
    && |columns| == 13 && (name == [] || name[|name| - 1] != 0)
    && pos + 110 + |name| + terminators <= |data|
    && data[pos..pos + 6] == Ascii("070701")
    && (forall i :: 0 <= i < 13 ==> data[pos + 6 + 8 * i..pos + 14 + 8 * i] == columns[i])
    && X8u(columns[11]) == Some(|name| + terminators)
    && data[pos + 110..pos + 110 + |name| + terminators] == name + Zeros(terminators)
  }

  lemma {:induction false} TrimZeros(name: Name, k: nat)
    requires name == [] || name[|name| - 1] != 0
    ensures TrimNul(name + Zeros(k)) == name
  {
    var s := name + Zeros(k);
    if k == 0 {
      assert s == name;
    } else {
      TrimZeros(name, k - 1);
      assert s[..|s| - 1] == name + Zeros(k - 1);
    }
  }

  lemma HeadIsRead(data: Bytes, pos: nat, columns: seq<Bytes>, name: Name, terminators: nat)
    requires HeadIs(data, pos, columns, name, terminators)
    ensures pos + 110 <= |data| && ReadHead(data, pos) == Head(name, Align4(pos + 110 + |name| + terminators))
    ensures forall i :: 0 <= i < 13 ==> NumberAt(data, pos, i) == NumberIn(columns[i])
  {
    hide X8u, Align4, TrimNul, Zeros;
    NamesAreSpelled();
    TrimZeros(name, terminators);
    var start, n := pos + 110, |name| + terminators;
    assert data[start..start + n] == name + Zeros(terminators);
    assert FieldAt(data, pos, 11) == columns[11];
  }

  /** Where such a member stands, with as many data as its size says, it is loaded, whatever its padding holds;
      "." and ".." are passed over, data and all not being looked at; the trailer looks for the next archive. */
  lemma MemberLoads(data: Bytes, pos: nat, columns: seq<Bytes>, name: Name, terminators: nat, a: Archive)
    requires HeadIs(data, pos, columns, name, terminators)
    ensures var start := Align4(pos + 110 + |name| + terminators);
            var end := start + NumberIn(columns[6]);
            if name == Ascii(".") || name == Ascii("..") then LoadFrom(data, pos, a) == LoadFrom(data, start, a)
            else if name == Ascii("TRAILER!!!") then
              LoadFrom(data, pos, a) == if start > |data| then Loaded(a, Panicked) else Resync(data, start, a)
            else if end > |data| then LoadFrom(data, pos, a) == Loaded(a, Panicked)
            else
              var e := Entry(NumberIn(columns[1]), NumberIn(columns[2]), NumberIn(columns[3]),
                             NumberIn(columns[9]), NumberIn(columns[10]), data[start..end]);
              LoadFrom(data, pos, a) ==
              LoadFrom(data, Align4(end), Archive(a.entries[name := e], a.keys + [name]))
  {
    hide X8u, ReadHead, NumberAt, HeadIs, IndexOf, NumberIn, Align4;
    NamesAreSpelled();
    HeadIsRead(data, pos, columns, name, terminators);
  }

  /** Where no member can stand, loading ends, with what was loaded before. */
  lemma LoadStops(data: Bytes, pos: nat, a: Archive)
    ensures pos >= |data| ==> LoadFrom(data, pos, a) == Loaded(a, Done)
    ensures pos < |data| < pos + 110 ==> LoadFrom(data, pos, a) == Loaded(a, Panicked)
    ensures pos + 110 <= |data| && data[pos..pos + 6] != Ascii("070701") ==>
              LoadFrom(data, pos, a) == Loaded(a, InvalidMagic)
    ensures pos + 110 <= |data| && data[pos..pos + 6] == Ascii("070701") ==>
              var size := X8u(data[pos + 94..pos + 102]);
              && (size.None? ==> LoadFrom(data, pos, a) == Loaded(a, BadHeader))
              && (size.Some? && pos + 110 + size.value > |data| ==> LoadFrom(data, pos, a) == Loaded(a, Panicked))
  {
    hide X8u, ReadEntry, IndexOf, TrimNul;
    NamesAreSpelled();
    if pos + 110 <= |data| {
      assert FieldAt(data, pos, 11) == data[pos + 94..pos + 102];
    }
  }

  predicate MagicAt(data: Bytes, i: int) {
    0 <= i && i + 6 <= |data| && data[i..i + 6] == Ascii("070701")
  }

  /** The search behind a trailer stops at the first magic number; without one the archive ends there. */
  lemma ResyncFindsFirst(data: Bytes, next: nat, a: Archive)
    ensures forall i :: next <= i && MagicAt(data, i) && (forall j :: next <= j < i ==> !MagicAt(data, j)) ==>
              Resync(data, next, a) == LoadFrom(data, i, a)
    ensures (forall i :: next <= i ==> !MagicAt(data, i)) ==> Resync(data, next, a) == Loaded(a, Done)
  {
    hide IndexOf, LoadFrom;
    NamesAreSpelled();
    forall i: int ensures OccursAt(data, i, MAGIC) <==> MagicAt(data, i) {
    }
  }

  /** A member whose numbers another program printed in the other case loads as Dump's own does. */
  lemma RecasedLoads(data: Bytes, pos: nat, columns: seq<Bytes>, name: Name, e: Entry, inode: nat, a: Archive)
    requires HeadIs(data, pos, columns, name, 1) && GoodName(name) && EntryFits(name, e) && inode < TWO32
    requires forall i :: 0 <= i < 13 ==> Recased(columns[i], HeaderFields(inode, e, |name| + 1)[i])
    requires var start := Align4(pos + 110 + |name| + 1);
             start + |e.data| <= |data| && data[start..start + |e.data|] == e.data
    ensures LoadFrom(data, pos, a) ==
            LoadFrom(data, Align4(Align4(pos + 110 + |name| + 1) + |e.data|), Add(a, name, e))
  {
    hide X8u, LoadFrom, Align4, Recased;
    NamesAreSpelled();
    forall i | 0 <= i < 13 ensures NumberIn(columns[i]) == HeaderFields(inode, e, |name| + 1)[i] {
      RecasedNumber(columns[i], HeaderFields(inode, e, |name| + 1)[i]);
    }
    MemberLoads(data, pos, columns, name, 1, a);
  }

  ghost predicate Recased(column: Bytes, n: nat) {
    n < TWO32 && |column| == 8 && |Hex08(n)| == 8 && forall i :: 0 <= i < 8 ==> SameDigit(column[i], Hex08(n)[i])
  }

  lemma RecasedNumber(column: Bytes, n: nat)
    requires Recased(column, n)
    ensures NumberIn(column) == n
  {
    hide X8u, Hex08, SameDigit;
    RecasedReads(n, column);
  }
}
