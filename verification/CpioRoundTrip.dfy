/** Loading what Dump printed, alone or in a chain of archives with other bytes in between. */
module CpioRoundTrip {
  import opened Words
  import opened Names
  import opened CpioFormat

  // ---- What survives ------------------------------------------------------------------

  /** Names the loader stores under themselves. */
  predicate GoodName(name: Name) {
    name != DOT && name != DOT_DOT && name != TRAILER && (name == [] || name[|name| - 1] != 0)
  }

  /** Everything the header prints in eight digits needs no more than eight. */
  predicate EntryFits(name: Name, e: Entry) {
    |name| + 1 < TWO32 && |e.data| < TWO32
  }

  predicate SizesFit(a: Archive) {
    && FIRST_INODE + |a.keys| < TWO32
    && forall i :: 0 <= i < |a.keys| ==> EntryFits(a.keys[i], Lookup(a.entries, a.keys[i]))
  }

  predicate GoodNames(keys: seq<Name>) {
    forall i :: 0 <= i < |keys| ==> GoodName(keys[i])
  }

  // ---- One record ------------------------------------------------------------------------

  lemma HeaderFieldsFit(inode: nat, e: Entry, nameSize: nat)
    requires inode < TWO32 && nameSize < TWO32 && |e.data| < TWO32
    ensures var ns := HeaderFields(inode, e, nameSize);
            |ns| == 13 && forall j :: 0 <= j < |ns| ==> ns[j] < TWO32
  {
  }

  lemma HeaderLength(inode: nat, e: Entry, nameSize: nat)
    requires inode < TWO32 && nameSize < TWO32 && |e.data| < TWO32
    ensures |Header(inode, e, nameSize)| == HEADER_SIZE && Header(inode, e, nameSize)[..6] == MAGIC
  {
    HeaderFieldsFit(inode, e, nameSize);
    HexAllAt(HeaderFields(inode, e, nameSize), 0);
  }

  lemma SliceOfSlice(s: Bytes, lo: nat, hi: nat, i: nat, j: nat)
    requires lo <= hi <= |s| && i <= j <= hi - lo
    ensures s[lo..hi][i..j] == s[lo + i..lo + j]
  {
    assert forall k :: 0 <= k < j - i ==> s[lo..hi][i..j][k] == s[lo + i + k];
  }

  lemma FieldReads(data: Bytes, pos: nat, i: nat, inode: nat, e: Entry, nameSize: nat)
    requires inode < TWO32 && nameSize < TWO32 && |e.data| < TWO32 && i < 13
    requires pos + HEADER_SIZE <= |data| && data[pos..pos + HEADER_SIZE] == Header(inode, e, nameSize)
    ensures X8u(FieldAt(data, pos, i)) == Some(HeaderFields(inode, e, nameSize)[i])
    ensures NumberAt(data, pos, i) == HeaderFields(inode, e, nameSize)[i]
  {
    hide HexAll, HeaderFields, X8u;
    var ns := HeaderFields(inode, e, nameSize);
    HeaderFieldsFit(inode, e, nameSize);
    HexAllAt(ns, i);
    HexRoundTrip(ns[i]);
    var h := data[pos..pos + HEADER_SIZE];
    SliceOfSlice(data, pos, pos + HEADER_SIZE, 6 + 8 * i, 14 + 8 * i);
    assert h[6 + 8 * i..14 + 8 * i] == HexAll(ns)[8 * i..8 * i + 8];
  }

  lemma TrimTerminator(name: Name)
    requires name == [] || name[|name| - 1] != 0
    ensures TrimNul(name + [0]) == name
  {
    var s := name + [0];
    assert s[..|s| - 1] == name;
    assert TrimNul(s) == TrimNul(name);
  }

  predicate SliceIs(data: Bytes, pos: nat, part: Bytes) {
    pos + |part| <= |data| && data[pos..pos + |part|] == part
  }

  lemma SliceSplit(data: Bytes, pos: nat, a: Bytes, b: Bytes)
    requires SliceIs(data, pos, a + b)
    ensures SliceIs(data, pos, a) && SliceIs(data, pos + |a|, b)
  {
    assert data[pos..pos + |a|] == data[pos..pos + |a + b|][..|a|];
    assert data[pos + |a|..pos + |a + b|] == data[pos..pos + |a + b|][|a|..];
  }

  lemma PaddingLength(x: nat)
    ensures x + |Padding(x)| == Align4(x)
  {
  }

  lemma RecordParts(data: Bytes, pos: nat, name: Name, e: Entry, inode: nat)
    requires pos % 4 == 0 && inode < TWO32 && EntryFits(name, e)
    requires SliceIs(data, pos, Record(name, e, inode))
    ensures SliceIs(data, pos, Header(inode, e, |name| + 1))
    ensures SliceIs(data, pos + HEADER_SIZE, name + [0])
    ensures var next := Align4(pos + HEADER_SIZE + |name| + 1);
            && SliceIs(data, next, e.data)
            && pos + |Record(name, e, inode)| == Align4(next + |e.data|)
  {
    hide HexAll, Header, Align4, Padding, SliceIs;
    HeaderLength(inode, e, |name| + 1);
    var front := NamePart(name, e, inode);
    PaddingLength(|front|);
    PaddingLength(|e.data|);
    AlignShifts(pos, |front|);
    AlignShifts(pos + Align4(|front|), |e.data|);
    SliceSplit(data, pos, front + Padding(|front|) + e.data, Padding(|e.data|));
    SliceSplit(data, pos, front + Padding(|front|), e.data);
    SliceSplit(data, pos, front, Padding(|front|));
    assert front == Header(inode, e, |name| + 1) + (name + [0]);
    SliceSplit(data, pos, Header(inode, e, |name| + 1), name + [0]);
  }

  lemma HeadReads(data: Bytes, pos: nat, name: Name, e: Entry, inode: nat)
    requires pos % 4 == 0 && inode < TWO32 && EntryFits(name, e) && (name == [] || name[|name| - 1] != 0)
    requires SliceIs(data, pos, Record(name, e, inode))
    ensures pos < |data|
    ensures ReadHead(data, pos) == Head(name, Align4(pos + HEADER_SIZE + |name| + 1))
  {
    hide Record, Header, X8u, Align4, TrimNul, FieldAt;
    RecordParts(data, pos, name, e, inode);
    HeaderLength(inode, e, |name| + 1);
    assert data[pos..pos + 6] == data[pos..pos + HEADER_SIZE][..6];
    FieldReads(data, pos, 11, inode, e, |name| + 1);
    TrimTerminator(name);
    var start := pos + HEADER_SIZE;
    assert data[start..start + (|name| + 1)] == name + [0];
  }

  lemma EntryReads(data: Bytes, pos: nat, name: Name, e: Entry, inode: nat)
    requires pos % 4 == 0 && inode < TWO32 && EntryFits(name, e)
    requires SliceIs(data, pos, Record(name, e, inode))
    ensures pos + HEADER_SIZE <= |data|
    ensures ReadEntry(data, pos, Align4(pos + HEADER_SIZE + |name| + 1)) == Some(e)
  {
    hide Record, Header, NumberAt, Align4;
    RecordParts(data, pos, name, e, inode);
    HeaderLength(inode, e, |name| + 1);
    FieldReads(data, pos, 1, inode, e, |name| + 1);
    FieldReads(data, pos, 2, inode, e, |name| + 1);
    FieldReads(data, pos, 3, inode, e, |name| + 1);
    FieldReads(data, pos, 6, inode, e, |name| + 1);
    FieldReads(data, pos, 9, inode, e, |name| + 1);
    FieldReads(data, pos, 10, inode, e, |name| + 1);
  }

  /** The loader passes exactly the record the printer wrote. */
  lemma LoadRecord(data: Bytes, pos: nat, name: Name, e: Entry, inode: nat, a: Archive)
    requires pos % 4 == 0 && inode < TWO32 && EntryFits(name, e) && GoodName(name)
    requires SliceIs(data, pos, Record(name, e, inode))
    ensures LoadFrom(data, pos, a) == LoadFrom(data, pos + |Record(name, e, inode)|, Add(a, name, e))
    ensures (pos + |Record(name, e, inode)|) % 4 == 0
  {
    hide Record, Align4, ReadHead, ReadEntry;
    HeadReads(data, pos, name, e, inode);
    EntryReads(data, pos, name, e, inode);
    RecordParts(data, pos, name, e, inode);
  }

  function AddAll(a: Archive, entries: map<Name, Entry>, keys: seq<Name>): Archive
    decreases keys
  {
    if keys == [] then a
    else AddAll(Add(a, keys[0], Lookup(entries, keys[0])), entries, keys[1..])
  }

  predicate RecordsFit(entries: map<Name, Entry>, keys: seq<Name>, inode: nat) {
    && inode + |keys| < TWO32
    && forall i :: 0 <= i < |keys| ==> EntryFits(keys[i], Lookup(entries, keys[i]))
  }

  lemma {:induction false} LoadRecords(data: Bytes, pos: nat, entries: map<Name, Entry>, keys: seq<Name>, inode: nat,
                                       a: Archive)
    requires pos % 4 == 0 && RecordsFit(entries, keys, inode) && GoodNames(keys)
    requires SliceIs(data, pos, Records(entries, keys, inode))
    ensures LoadFrom(data, pos, a) ==
            LoadFrom(data, pos + |Records(entries, keys, inode)|, AddAll(a, entries, keys))
    ensures (pos + |Records(entries, keys, inode)|) % 4 == 0
    decreases keys
  {
    hide Record, LoadFrom, GoodName, EntryFits, SliceIs, Lookup;
    if keys != [] {
      var e := Lookup(entries, keys[0]);
      var r := Record(keys[0], e, inode);
      assert EntryFits(keys[0], e) && GoodName(keys[0]);
      SliceSplit(data, pos, r, Records(entries, keys[1..], inode + 1));
      LoadRecord(data, pos, keys[0], e, inode, a);
      assert RecordsFit(entries, keys[1..], inode + 1);
      LoadRecords(data, pos + |r|, entries, keys[1..], inode + 1, Add(a, keys[0], e));
    }
  }

  /** Looking for the next archive behind a trailer. */
  function Resync(data: Bytes, next: nat, a: Archive): Loaded {
    match IndexOf(data, next, MAGIC)
    case None => Loaded(a, Done)
    case Some(i) => LoadFrom(data, i, a)
  }

  /** The trailer sends the loader to the next magic number, or ends it. */
  lemma LoadTrailer(data: Bytes, pos: nat, inode: nat, a: Archive)
    requires pos % 4 == 0 && inode < TWO32
    requires SliceIs(data, pos, Record(TRAILER, TRAILER_ENTRY, inode))
    ensures var next := pos + |Record(TRAILER, TRAILER_ENTRY, inode)|;
            && next % 4 == 0 && next <= |data|
            && LoadFrom(data, pos, a) == Resync(data, next, a)
  {
    hide Record, Align4, ReadHead, ReadEntry;
    HeadReads(data, pos, TRAILER, TRAILER_ENTRY, inode);
    RecordParts(data, pos, TRAILER, TRAILER_ENTRY, inode);
    AlreadyAligned(Align4(pos + HEADER_SIZE + |TRAILER| + 1));
  }

  lemma AlreadyAligned(x: nat)
    requires x % 4 == 0
    ensures Align4(x) == x
  {
  }

  // ---- What AddAll adds --------------------------------------------------------------------

  function Stored(entries: map<Name, Entry>, keys: seq<Name>): map<Name, Entry> {
    map k | k in keys :: Lookup(entries, k)
  }

  /** An archive after another has been loaded into it. */
  function Overlay(a: Archive, b: Archive): Archive {
    Archive(a.entries + Stored(b.entries, b.keys), a.keys + b.keys)
  }

  lemma StoredCons(m: map<Name, Entry>, entries: map<Name, Entry>, keys: seq<Name>)
    requires keys != []
    ensures m[keys[0] := Lookup(entries, keys[0])] + Stored(entries, keys[1..]) == m + Stored(entries, keys)
  {
    hide Lookup;
    var l := m[keys[0] := Lookup(entries, keys[0])] + Stored(entries, keys[1..]);
    var r := m + Stored(entries, keys);
    assert keys == [keys[0]] + keys[1..];
    assert forall k :: k in keys <==> k == keys[0] || k in keys[1..];
    assert l.Keys == r.Keys;
    forall k | k in l ensures l[k] == r[k] {
      if k in keys[1..] { assert k in keys; }
    }
  }

  lemma {:induction false} AddAllOverlays(a: Archive, entries: map<Name, Entry>, keys: seq<Name>)
    ensures AddAll(a, entries, keys) == Overlay(a, Archive(entries, keys))
    decreases keys
  {
    hide Lookup;
    if keys == [] {
      assert a.keys + [] == a.keys;
      assert Stored(entries, keys) == map[];
    } else {
      hide Stored;
      AddAllOverlays(Add(a, keys[0], Lookup(entries, keys[0])), entries, keys[1..]);
      assert a.keys + [keys[0]] + keys[1..] == a.keys + keys;
      StoredCons(a.entries, entries, keys);
    }
  }

  // ---- Chains of archives --------------------------------------------------------------------

  /** An archive and the bytes behind it. */
  datatype Segment = Segment(archive: Archive, junk: Bytes)

  function Image(segments: seq<Segment>): Bytes {
    if segments == [] then [] else DumpBytes(segments[0].archive) + segments[0].junk + Image(segments[1..])
  }

  function OverlayAll(a: Archive, segments: seq<Segment>): Archive
    decreases segments
  {
    if segments == [] then a else OverlayAll(Overlay(a, segments[0].archive), segments[1..])
  }

  predicate NoMagic(junk: Bytes) {
    forall i :: 0 <= i < |junk| ==> !OccursAt(junk, i, MAGIC)
  }

  /** Between two archives only bytes that keep the alignment and hold no magic number. */
  predicate SegmentOk(s: Segment, last: bool) {
    && SizesFit(s.archive) && GoodNames(s.archive.keys)
    && NoMagic(s.junk)
    && (last || |s.junk| % 4 == 0)
  }

  predicate SegmentsOk(segments: seq<Segment>) {
    segments != [] ==> SegmentOk(segments[0], |segments| == 1) && SegmentsOk(segments[1..])
  }

  /** Nowhere in `junk` followed by `after` does a magic number begin, before the one in `after`:
      its only '1' is its last byte, so it cannot straddle the boundary. */
  lemma MagicDoesNotStraddle(data: Bytes, pos: nat, junk: Bytes, after: Bytes)
    requires pos <= |data| && data[pos..] == junk + after
    requires NoMagic(junk)
    requires after == [] || (|after| >= 6 && after[..6] == MAGIC)
    ensures IndexOf(data, pos, MAGIC) == if after == [] then None else Some(pos + |junk|)
  {
    hide IndexOf;
    var end := pos + |junk|;
    forall i | pos <= i < end ensures !OccursAt(data, i, MAGIC) {
      if i + 6 <= end {
        assert junk[i - pos..i - pos + 6] == data[pos..][i - pos..i - pos + 6] == data[i..i + 6];
        assert !OccursAt(junk, i - pos, MAGIC);
      } else if i + 6 <= |data| {
        var k := i + 5 - end;
        assert data[i + 5] == (junk + after)[i + 5 - pos] == after[k] == after[..6][k];
        assert MAGIC[k] != MAGIC[5];
        assert data[i..i + 6][5] == data[i + 5];
      }
    }
    if after == [] {
      assert |data| == end;
    } else {
      assert data[end..end + 6] == after[..6];
      assert OccursAt(data, end, MAGIC);
    }
  }

  lemma DumpStartsWithMagic(a: Archive)
    requires SizesFit(a)
    ensures |DumpBytes(a)| >= 6 && DumpBytes(a)[..6] == MAGIC
  {
    var name := if a.keys == [] then TRAILER else a.keys[0];
    var e := if a.keys == [] then TRAILER_ENTRY else Lookup(a.entries, a.keys[0]);
    assert EntryFits(name, e);
    HeaderLength(FIRST_INODE, e, |name| + 1);
    assert Record(name, e, FIRST_INODE)[..6] == Header(FIRST_INODE, e, |name| + 1)[..6];
    assert DumpBytes(a)[..6] == Record(name, e, FIRST_INODE)[..6];
  }

  lemma SliceOfRest(data: Bytes, pos: nat, a: Bytes, b: Bytes)
    requires pos <= |data| && data[pos..] == a + b
    ensures SliceIs(data, pos, a) && data[pos + |a|..] == b
  {
    assert data[pos..pos + |a|] == data[pos..][..|a|];
    assert data[pos + |a|..] == data[pos..][|a|..];
  }

  /** One dumped archive, whatever follows. */
  lemma LoadDump(data: Bytes, pos: nat, b: Archive, rest: Bytes, a: Archive)
    requires pos % 4 == 0 && pos <= |data| && data[pos..] == DumpBytes(b) + rest
    requires SizesFit(b) && GoodNames(b.keys)
    ensures var next := pos + |DumpBytes(b)|;
            && next % 4 == 0 && next <= |data| && data[next..] == rest
            && LoadFrom(data, pos, a) == Resync(data, next, Overlay(a, b))
  {
    hide LoadFrom, Record, Records, SliceIs, Resync, GoodNames, EntryFits, Lookup, Overlay;
    var records := Records(b.entries, b.keys, FIRST_INODE);
    var inode := FIRST_INODE + |b.keys|;
    SliceOfRest(data, pos, DumpBytes(b), rest);
    assert SliceIs(data, pos, records + Record(TRAILER, TRAILER_ENTRY, inode));
    SliceSplit(data, pos, records, Record(TRAILER, TRAILER_ENTRY, inode));
    assert RecordsFit(b.entries, b.keys, FIRST_INODE);
    LoadRecords(data, pos, b.entries, b.keys, FIRST_INODE, a);
    AddAllOverlays(a, b.entries, b.keys);
    assert Archive(b.entries, b.keys) == b;
    LoadTrailer(data, pos + |records|, inode, Overlay(a, b));
  }

  lemma LoadAtEnd(data: Bytes, pos: nat, a: Archive)
    requires pos >= |data|
    ensures LoadFrom(data, pos, a) == Loaded(a, Done)
  {
  }

  lemma {:induction false} LoadImage(data: Bytes, pos: nat, segments: seq<Segment>, a: Archive)
    requires pos % 4 == 0 && pos <= |data| && data[pos..] == Image(segments)
    requires SegmentsOk(segments)
    ensures LoadFrom(data, pos, a) == Loaded(OverlayAll(a, segments), Done)
    decreases segments
  {
    hide DumpBytes, IndexOf, SizesFit, GoodNames, NoMagic, LoadFrom, Overlay;
    if segments == [] {
      LoadAtEnd(data, pos, a);
    } else {
      var s, more := segments[0], segments[1..];
      var rest := s.junk + Image(more);
      assert Image(segments) == DumpBytes(s.archive) + rest;
      LoadDump(data, pos, s.archive, rest, a);
      var next := pos + |DumpBytes(s.archive)|;
      if more == [] {
        MagicDoesNotStraddle(data, next, s.junk, Image(more));
      } else {
        DumpStartsWithMagic(more[0].archive);
        assert Image(more)[..6] == DumpBytes(more[0].archive)[..6];
        MagicDoesNotStraddle(data, next, s.junk, Image(more));
        SliceOfRest(data, next, s.junk, Image(more));
        LoadImage(data, next + |s.junk|, more, Overlay(a, s.archive));
      }
    }
  }

  /** Any number of dumped archives, one behind the other with other bytes in between, load as one:
      the keys are chained and later entries override earlier ones. */
  lemma ConcatenationLoads(segments: seq<Segment>, a: Archive)
    requires SegmentsOk(segments)
    ensures Load(a, Image(segments)) == Loaded(OverlayAll(a, segments), Done)
  {
    assert Image(segments)[0..] == Image(segments);
    LoadImage(Image(segments), 0, segments, a);
  }

  // ---- The round trip, and exactly when it holds --------------------------------------------

  /** What a 32-bit number can count. */
  predicate Countable(a: Archive) {
    && (forall i :: 0 <= i < |a.keys| ==> |a.keys[i]| < TWO32)
    && (forall k :: k in a.entries ==> |a.entries[k].data| < TWO32)
  }

  /** Whatever the input, the loader only ever stores good names and countable sizes. */
  lemma {:induction false} LoadedIsStorable(data: Bytes, pos: nat, a: Archive)
    requires GoodNames(a.keys) && Countable(a)
    ensures GoodNames(LoadFrom(data, pos, a).archive.keys) && Countable(LoadFrom(data, pos, a).archive)
    decreases |data| - pos
  {
    hide IndexOf, ReadEntry, TrimNul, Countable, ReadHead;
    if pos < |data| && ReadHead(data, pos).Head? {
      var Head(name, next) := ReadHead(data, pos);
      if name == DOT || name == DOT_DOT {
        LoadedIsStorable(data, next, a);
      } else if name == TRAILER {
        if next <= |data| && IndexOf(data, next, MAGIC).Some? {
          LoadedIsStorable(data, IndexOf(data, next, MAGIC).value, a);
        }
      } else if ReadEntry(data, pos, next).Some? {
        var e := ReadEntry(data, pos, next).value;
        HeadIsStorable(data, pos);
        EntryIsCountable(data, pos, next);
        AddIsStorable(a, name, e);
        LoadedIsStorable(data, Align4(next + |e.data|), Add(a, name, e));
      }
    }
  }

  lemma HeadIsStorable(data: Bytes, pos: nat)
    requires ReadHead(data, pos).Head?
    ensures var name := ReadHead(data, pos).name;
            |name| < TWO32 && (name == [] || name[|name| - 1] != 0)
  {
    hide X8u, FieldAt, TrimNul;
  }

  lemma EntryIsCountable(data: Bytes, pos: nat, start: nat)
    requires pos + HEADER_SIZE <= |data|
    ensures ReadEntry(data, pos, start).Some? ==> |ReadEntry(data, pos, start).value.data| < TWO32
  {
    hide NumberAt;
  }

  lemma AddIsStorable(a: Archive, name: Name, e: Entry)
    requires GoodNames(a.keys) && Countable(a) && GoodName(name) && |name| < TWO32 && |e.data| < TWO32
    ensures GoodNames(Add(a, name, e).keys) && Countable(Add(a, name, e))
  {
    hide GoodName;
  }

  lemma DumpLoads(a: Archive)
    requires SizesFit(a) && GoodNames(a.keys)
    ensures Load(EMPTY, DumpBytes(a)) == Loaded(Overlay(EMPTY, a), Done)
  {
    hide DumpBytes, SizesFit, GoodNames, Overlay;
    var s := [Segment(a, [])];
    assert s[1..] == [];
    assert Image(s) == DumpBytes(a) + [] + Image(s[1..]);
    assert Image(s) == DumpBytes(a);
    ConcatenationLoads(s, EMPTY);
    assert OverlayAll(EMPTY, s) == OverlayAll(Overlay(EMPTY, a), s[1..]);
  }

  /** The inode fits its field, and no name is of the one length that a loader can count and Dump, which
      prints a terminator with it, cannot. */
  predicate InodesFit(a: Archive) {
    FIRST_INODE + |a.keys| < TWO32 && forall i :: 0 <= i < |a.keys| ==> |a.keys[i]| + 1 != TWO32
  }

  /** Dump followed by loading into an empty Cpio restores the object exactly when every name is a
      good one, the sizes fit their fields, and the list of keys covers the map and nothing else. */
  lemma RoundTripIff(a: Archive)
    requires InodesFit(a)
    ensures Load(EMPTY, DumpBytes(a)) == Loaded(a, Done) <==>
            SizesFit(a) && GoodNames(a.keys) && a.entries.Keys == (set k | k in a.keys)
  {
    hide DumpBytes, LoadFrom, GoodName;
    LoadedIsStorable(DumpBytes(a), 0, EMPTY);
    if SizesFit(a) && GoodNames(a.keys) {
      DumpLoads(a);
      assert [] + a.keys == a.keys;
      assert Overlay(EMPTY, a).entries.Keys == set k | k in a.keys;
      if a.entries.Keys == (set k | k in a.keys) {
        assert Overlay(EMPTY, a).entries == a.entries;
      }
    }
  }
}
