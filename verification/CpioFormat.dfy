/** The "newc" archive format: what Dump prints and what LoadFromData makes of any byte string. */
module CpioFormat {
  import opened Words
  import opened Names

  datatype Entry = Entry(
    mode: uint32, uid: uint32, gid: uint32, rdevMajor: uint32, rdevMinor: uint32, data: Bytes)

  /** The state of a Cpio object. */
  datatype Archive = Archive(entries: map<Name, Entry>, keys: seq<Name>)

  const EMPTY := Archive(map[], [])
  const NO_ENTRY := Entry(0, 0, 0, 0, 0, [])

  const MAGIC: Bytes := [48, 55, 48, 55, 48, 49]                            // 070701
  const DOT: Name := [46]                                                   // .
  const DOT_DOT: Name := [46, 46]                                           // ..
  const TRAILER: Name := [84, 82, 65, 73, 76, 69, 82, 33, 33, 33]           // TRAILER!!!
  const TRAILER_ENTRY := Entry(493, 0, 0, 0, 0, [])                         // mode 0755
  const FIRST_INODE: nat := 300000
  const HEADER_SIZE: nat := 110

  /** Go's map lookup: the zero entry for a missing key. */
  function Lookup(entries: map<Name, Entry>, name: Name): Entry {
    if name in entries then entries[name] else NO_ENTRY
  }

  function Add(a: Archive, name: Name, e: Entry): Archive {
    Archive(a.entries[name := e], a.keys + [name])
  }

  // ---- Hexadecimal fields -------------------------------------------------------------

  function HexDigit(d: nat): byte
    requires d < 16
  {
    if d < 10 then 48 + d else 87 + d
  }

  function HexValue(c: byte): (r: Option<nat>)
    ensures r.Some? ==> r.value < 16
  {
    if 48 <= c <= 57 then Some(c - 48)
    else if 97 <= c <= 102 then Some(c - 87)
    else if 65 <= c <= 70 then Some(c - 55)
    else None
  }

  /** The `width` low hexadecimal digits of n. */
  function Digits(n: nat, width: nat): (s: Bytes)
    ensures |s| == width
  {
    if width == 0 then [] else Digits(n / 16, width - 1) + [HexDigit(n % 16)]
  }

  function HexWidth(n: nat): (w: nat)
    ensures w > 0
  {
    if n < 16 then 1 else 1 + HexWidth(n / 16)
  }

  /** fmt.Sprintf("%08x", n): at least eight digits, more when they are needed. */
  function Hex08(n: nat): Bytes {
    Digits(n, if HexWidth(n) > 8 then HexWidth(n) else 8)
  }

  function Pow16(k: nat): (p: nat)
    ensures p > 0
  {
    if k == 0 then 1 else 16 * Pow16(k - 1)
  }

  /** strconv.ParseUint(s, 16, 32) on a string of up to eight characters. */
  function ParseHex(s: Bytes): (r: Option<nat>)
    ensures r.Some? ==> r.value < Pow16(|s|)
  {
    if s == [] then Some(0)
    else match (ParseHex(s[..|s| - 1]), HexValue(s[|s| - 1]))
      case (Some(high), Some(low)) => Some(16 * high + low)
      case _ => None
  }

  lemma Pow16Eight()
    ensures Pow16(8) == TWO32
  {
    assert Pow16(4) == 0x1_0000;
    assert Pow16(8) == 16 * (16 * (16 * (16 * Pow16(4))));
  }

  function X8u(x: Bytes): (r: Option<uint32>) {
    if |x| != 8 then None
    else
      Pow16Eight();
      match ParseHex(x)
      case Some(v) => Some(v)
      case None => None
  }

  lemma {:induction false} ParseDigits(n: nat, width: nat)
    requires n < Pow16(width)
    ensures ParseHex(Digits(n, width)) == Some(n)
  {
    if width > 0 {
      ParseDigits(n / 16, width - 1);
      assert Digits(n, width)[..width - 1] == Digits(n / 16, width - 1);
    }
  }

  lemma {:induction false} HexWidthBound(n: nat, k: nat)
    requires n < Pow16(k) && k > 0
    ensures HexWidth(n) <= k
  {
    if n >= 16 {
      assert Pow16(1) == 16;
      HexWidthBound(n / 16, k - 1);
    }
  }

  /** What is printed in a header field is what is read from it. */
  lemma HexRoundTrip(n: nat)
    requires n < TWO32
    ensures |Hex08(n)| == 8 && X8u(Hex08(n)) == Some(n)
  {
    hide ParseHex, Digits, HexWidth, Pow16;
    Pow16Eight();
    HexWidthBound(n, 8);
    ParseDigits(n, 8);
  }

  function HexAll(ns: seq<nat>): Bytes {
    if ns == [] then [] else Hex08(ns[0]) + HexAll(ns[1..])
  }

  lemma {:induction false} HexAllAt(ns: seq<nat>, i: nat)
    requires i < |ns| && forall j :: 0 <= j < |ns| ==> ns[j] < TWO32
    ensures |HexAll(ns)| == 8 * |ns|
    ensures HexAll(ns)[8 * i..8 * i + 8] == Hex08(ns[i])
  {
    hide Hex08;
    HexRoundTrip(ns[0]);
    if |ns| == 1 {
      assert HexAll(ns[1..]) == [];
    } else {
      HexAllAt(ns[1..], if i == 0 then 0 else i - 1);
      if i > 0 {
        assert HexAll(ns)[8 * i..8 * i + 8] == HexAll(ns[1..])[8 * (i - 1)..8 * (i - 1) + 8];
      }
    }
  }

  // ---- Printing -----------------------------------------------------------------------

  function Align4(x: nat): (y: nat)
    ensures x <= y < x + 4 && y % 4 == 0
  {
    (x + 3) / 4 * 4
  }

  lemma AlignShifts(base: nat, x: nat)
    requires base % 4 == 0
    ensures Align4(base + x) == base + Align4(x)
  {
  }

  function Padding(x: nat): Bytes {
    Zeros(Align4(x) - x)
  }

  function HeaderFields(inode: nat, e: Entry, nameSize: nat): seq<nat> {
    [inode, e.mode, e.uid, e.gid, 1, 0, |e.data|, 0, 0, e.rdevMajor, e.rdevMinor, nameSize, 0]
  }

  function Header(inode: nat, e: Entry, nameSize: nat): Bytes {
    MAGIC + HexAll(HeaderFields(inode, e, nameSize))
  }

  function NamePart(name: Name, e: Entry, inode: nat): Bytes {
    Header(inode, e, |name| + 1) + name + [0]
  }

  /** One member of an archive, starting at an aligned position. */
  function Record(name: Name, e: Entry, inode: nat): Bytes {
    var front := NamePart(name, e, inode);
    front + Padding(|front|) + e.data + Padding(|e.data|)
  }

  function Records(entries: map<Name, Entry>, keys: seq<Name>, inode: nat): Bytes {
    if keys == [] then [] else
      Record(keys[0], Lookup(entries, keys[0]), inode) + Records(entries, keys[1..], inode + 1)
  }

  function DumpBytes(a: Archive): Bytes {
    Records(a.entries, a.keys, FIRST_INODE) + Record(TRAILER, TRAILER_ENTRY, FIRST_INODE + |a.keys|)
  }

  // ---- Loading ------------------------------------------------------------------------

  /** A slice expression out of range ends the process: Panicked. */
  datatype Outcome = Done | InvalidMagic | BadHeader | Panicked

  datatype Loaded = Loaded(archive: Archive, outcome: Outcome)

  /** strings.TrimRight(s, "\x00") */
  function TrimNul(s: Bytes): (t: Bytes)
    ensures t <= s && (t == [] || t[|t| - 1] != 0)
  {
    if s != [] && s[|s| - 1] == 0 then TrimNul(s[..|s| - 1]) else s
  }

  predicate OccursAt(data: Bytes, i: int, pattern: Bytes) {
    0 <= i && i + |pattern| <= |data| && data[i..i + |pattern|] == pattern
  }

  /** bytes.Index(data[pos:], pattern), as an index into `data`. */
  function IndexOf(data: Bytes, pos: nat, pattern: Bytes): (r: Option<nat>)
    ensures r.Some? ==> pos <= r.value && OccursAt(data, r.value, pattern)
    ensures r.Some? ==> forall i :: pos <= i < r.value ==> !OccursAt(data, i, pattern)
    ensures r.None? ==> forall i :: pos <= i ==> !OccursAt(data, i, pattern)
    decreases |data| - pos
  {
    if pos + |pattern| > |data| then None
    else if data[pos..pos + |pattern|] == pattern then Some(pos)
    else IndexOf(data, pos + 1, pattern)
  }

  /** The i-th eight-character field of the header at `pos`, counting from the inode. */
  function FieldAt(data: Bytes, pos: nat, i: nat): Bytes
    requires pos + HEADER_SIZE <= |data| && i < 13
  {
    data[pos + 6 + 8 * i..pos + 14 + 8 * i]
  }

  function NumberAt(data: Bytes, pos: nat, i: nat): uint32
    requires pos + HEADER_SIZE <= |data| && i < 13
  {
    match X8u(FieldAt(data, pos, i))
    case Some(v) => v
    case None => 0
  }

  /** The name after a header, and the aligned position behind it. */
  datatype Head = Head(name: Name, next: nat) | Stop(outcome: Outcome)

  function ReadHead(data: Bytes, pos: nat): (r: Head)
    ensures r.Head? ==> pos + HEADER_SIZE <= |data| && r.next > pos
  {
    if pos + HEADER_SIZE > |data| then Stop(Panicked)
    else if data[pos..pos + 6] != MAGIC then Stop(InvalidMagic)
    else match X8u(FieldAt(data, pos, 11))
      case None => Stop(BadHeader)
      case Some(nameSize) =>
        var start := pos + HEADER_SIZE;
        if start + nameSize > |data| then Stop(Panicked)
        else Head(TrimNul(data[start..start + nameSize]), Align4(start + nameSize))
  }

  /** The entry whose header is at `pos` and whose data start at `start`; an unreadable number
      counts as zero. */
  function ReadEntry(data: Bytes, pos: nat, start: nat): Option<Entry>
    requires pos + HEADER_SIZE <= |data|
  {
    var size := NumberAt(data, pos, 6);
    if start + size > |data| then None
    else Some(Entry(NumberAt(data, pos, 1), NumberAt(data, pos, 2), NumberAt(data, pos, 3),
                    NumberAt(data, pos, 9), NumberAt(data, pos, 10), data[start..start + size]))
  }

  /** The loop of LoadFromData from `pos`, into the archive loaded so far. */
  function LoadFrom(data: Bytes, pos: nat, a: Archive): (r: Loaded)
    decreases |data| - pos
  {
    if pos >= |data| then Loaded(a, Done)
    else match ReadHead(data, pos)
      case Stop(outcome) => Loaded(a, outcome)
      case Head(name, next) =>
        if name == DOT || name == DOT_DOT then LoadFrom(data, next, a)
        else if name == TRAILER then
          if next > |data| then Loaded(a, Panicked)
          else match IndexOf(data, next, MAGIC)
            case None => Loaded(a, Done)
            case Some(i) => LoadFrom(data, i, a)
        else match ReadEntry(data, pos, next)
          case None => Loaded(a, Panicked)
          case Some(e) => LoadFrom(data, Align4(next + |e.data|), Add(a, name, e))
  }

  function Load(a: Archive, data: Bytes): Loaded {
    LoadFrom(data, 0, a)
  }
}
