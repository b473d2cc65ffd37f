/** Records of the wire format, and the skipping of fields nobody knows. */
module Wire {
  import opened Words
  import opened Varint

  // ---- skipUpdateMetadata -------------------------------------------------------

  /** How far the index moves; it may move beyond the end of the bytes. */
  datatype Span = Span(len: nat) | NoSpan(error: Error)

  /** Where the index goes after the tag `wire`, whose bytes are followed by `s`. */
  function Jump(wire: uint64, s: Bytes, depth: nat): (r: Span) {
    match wire % 8
    case 0 =>
      (match ReadVarint(s)
       case Got(_, n) => Span(n)
       case Bad(e) => NoSpan(e))
    case 1 => Span(8)
    case 2 =>
      (match ReadVarint(s)
       case Got(u, n) => if ToInt64(u) < 0 then NoSpan(InvalidLength) else Span(n + u)
       case Bad(e) => NoSpan(e))
    case 3 => Span(0)
    case 4 => if depth == 0 then NoSpan(UnexpectedEndOfGroup) else Span(0)
    case 5 => Span(4)
    case _ => NoSpan(IllegalWireType)
  }

  function DepthAfter(wire: uint64, depth: nat): nat {
    if wire % 8 == 3 then depth + 1
    else if wire % 8 == 4 && depth > 0 then depth - 1
    else depth
  }

  /** The same result, counted from `n` bytes earlier. */
  function Later(n: nat, r: Span): Span {
    match r
    case Span(m) => Span(n + m)
    case NoSpan(e) => NoSpan(e)
  }

  /** skipUpdateMetadata from a point `at` bytes into its slice, inside `depth` groups:
      the bytes still to be consumed. The result can exceed |s|; the caller checks that. */
  function Skip(s: Bytes, depth: nat, at: nat): (r: Span)
    ensures r.Span? ==> at + r.len < TWO63 && r.len > 0
    decreases |s|
  {
    if s == [] then NoSpan(UnexpectedEOF)
    else match ReadVarint(s)
      case Bad(e) => NoSpan(e)
      case Got(wire, n) =>
        match Jump(wire, s[n..], depth)
        case NoSpan(e) => NoSpan(e)
        case Span(jump) => SkipOn(s, DepthAfter(wire, depth), at, n + jump)
  }

  /** The end of one turn of the loop: `len` bytes were passed, and `depth` is up to date. */
  function SkipOn(s: Bytes, depth: nat, at: nat, len: nat): (r: Span)
    requires len > 0
    ensures r.Span? ==> at + r.len < TWO63 && r.len > 0
    decreases |s|, 0
  {
    if at + len >= TWO63 then NoSpan(InvalidLength)
    else if depth == 0 then Span(len)
    else if len > |s| then NoSpan(UnexpectedEOF)
    else if s == [] then NoSpan(UnexpectedEOF)
    else Later(len, Skip(s[len..], depth, at + len))
  }

  /** The switch on the wire type: the index and the depth after the tag's payload. */
  method JumpOver(dAtA: Bytes, start: nat, wire: uint64, level: nat)
    returns (err: Option<Error>, depth: nat, iNdEx: int64)
    requires start <= |dAtA| < TWO63
    ensures match Jump(wire, dAtA[start..], level)
            case NoSpan(e) => err == Some(e)
            case Span(jump) => err == None && depth == DepthAfter(wire, level) &&
                               start + jump < TWO64 && iNdEx == ToInt64(start + jump)
  {
    hide ReadVarint;
    err, depth, iNdEx := None, level, start;
    match wire % 8 {
      case 0 =>
        var v := DecodeVarint(dAtA, iNdEx);
        if v.Bad? { err := Some(v.error); return; }
        iNdEx := AddInt64(iNdEx, v.len);
      case 1 =>
        iNdEx := AddInt64(iNdEx, 8);
      case 2 =>
        var v := DecodeVarint(dAtA, iNdEx);
        if v.Bad? { err := Some(v.error); return; }
        iNdEx := AddInt64(iNdEx, v.len);
        var length := ToInt64(v.value);
        if length < 0 { err := Some(InvalidLength); return; }
        iNdEx := AddInt64(iNdEx, length);
      case 3 =>
        depth := depth + 1;
      case 4 =>
        if depth == 0 { err := Some(UnexpectedEndOfGroup); return; }
        depth := depth - 1;
      case 5 =>
        iNdEx := AddInt64(iNdEx, 4);
      case _ =>
        err := Some(IllegalWireType);
    }
  }

  /** The imperative original, with its index wrapping like a Go int. */
  method SkipUpdateMetadata(dAtA: Bytes) returns (r: Span)
    requires |dAtA| < TWO63
    ensures r == Skip(dAtA, 0, 0)
  {
    hide ReadVarint, Jump;
    var iNdEx: int64 := 0;
    var depth: nat := 0;
    assert dAtA[0..] == dAtA;
    while iNdEx < |dAtA|
      invariant 0 <= iNdEx
      invariant iNdEx > |dAtA| ==> Skip(dAtA, 0, 0) == NoSpan(UnexpectedEOF)
      invariant iNdEx <= |dAtA| ==> Skip(dAtA, 0, 0) == Later(iNdEx, Skip(dAtA[iNdEx..], depth, iNdEx))
      decreases |dAtA| - iNdEx
    {
      ghost var s, at := dAtA[iNdEx..], iNdEx;
      var tag := DecodeVarint(dAtA, iNdEx);
      if tag.Bad? { return NoSpan(tag.error); }
      var err;
      assert s[tag.len..] == dAtA[iNdEx + tag.len..];
      err, depth, iNdEx := JumpOver(dAtA, iNdEx + tag.len, tag.value, depth);
      if err.Some? { return NoSpan(err.value); }
      if iNdEx < 0 { return NoSpan(InvalidLength); }
      if depth == 0 { return Span(iNdEx); }
      assert iNdEx <= |dAtA| ==> s[iNdEx - at..] == dAtA[iNdEx..];
    }
    return NoSpan(UnexpectedEOF);
  }

  // ---- Records --------------------------------------------------------------------

  /** A record as the Encoding guide describes it, with its varints spelled out byte by byte
      (they need not be canonical). A group holds records of any kind, nested to any depth. */
  datatype Record =
    | VarintRecord(tag: Bytes, payload: Bytes)
    | Fixed64Record(tag: Bytes, payload: Bytes)
    | Delimited(tag: Bytes, length: Bytes, payload: Bytes)
    | Group(tag: Bytes, items: seq<Record>, endTag: Bytes)
    | Fixed32Record(tag: Bytes, payload: Bytes)

  function WireType(tag: Bytes): nat {
    match ReadVarint(tag)
    case Got(u, _) => u % 8
    case Bad(_) => 8
  }

  predicate IsTag(tag: Bytes, wireType: nat) {
    IsVarint(tag) && WireType(tag) == wireType
  }

  predicate WellFormed(r: Record) {
    match r
    case VarintRecord(tag, payload) => IsTag(tag, 0) && IsVarint(payload)
    case Fixed64Record(tag, payload) => IsTag(tag, 1) && |payload| == 8
    case Delimited(tag, length, payload) =>
      IsTag(tag, 2) && IsVarint(length) && ReadVarint(length) == Got(|payload|, |length|)
    case Group(tag, items, endTag) => IsTag(tag, 3) && AllWellFormed(items) && IsTag(endTag, 4)
    case Fixed32Record(tag, payload) => IsTag(tag, 5) && |payload| == 4
  }

  predicate AllWellFormed(rs: seq<Record>) {
    rs == [] || (WellFormed(rs[0]) && AllWellFormed(rs[1..]))
  }

  function Encoding(r: Record): (s: Bytes) {
    match r
    case VarintRecord(tag, payload) => tag + payload
    case Fixed64Record(tag, payload) => tag + payload
    case Delimited(tag, length, payload) => tag + length + payload
    case Group(tag, items, endTag) => tag + Encodings(items) + endTag
    case Fixed32Record(tag, payload) => tag + payload
  }

  function Encodings(rs: seq<Record>): Bytes {
    if rs == [] then [] else Encoding(rs[0]) + Encodings(rs[1..])
  }

  /** One step of Skip: a tag and what it jumps over. */
  lemma SkipStep(tag: Bytes, body: Bytes, rest: Bytes, depth: nat, at: nat)
    requires IsVarint(tag) && ReadVarint(tag).Got?
    requires Jump(ReadVarint(tag).value, body + rest, depth) == Span(|body|)
    requires at + |tag| + |body| < TWO63
    ensures var d := DepthAfter(ReadVarint(tag).value, depth);
            Skip(tag + body + rest, depth, at) ==
            if d == 0 then Span(|tag + body|) else Later(|tag + body|, Skip(rest, d, at + |tag + body|))
  {
    hide IsVarint, ReadVarint, Jump;
    var s := tag + body + rest;
    assert s == tag + (body + rest);
    ReadVarintBytes(tag, body + rest);
    assert s[|tag|..] == body + rest;
    assert s[|tag| + |body|..] == rest;
  }

  /** Consuming exactly `n` bytes, then going on at the same depth (or stopping, outside groups). */
  ghost function After(n: nat, rest: Bytes, depth: nat, at: nat): Span {
    if depth == 0 then Span(n) else Later(n, Skip(rest, depth, at + n))
  }

  /** A tag of the given type reads as that type. */
  lemma TagReads(tag: Bytes, wireType: nat)
    requires IsTag(tag, wireType)
    ensures ReadVarint(tag).Got? && ReadVarint(tag).len == |tag| && ReadVarint(tag).value % 8 == wireType
  {
    ReadVarintBytes(tag, []);
    assert tag + [] == tag;
  }

  lemma SkipLeaf(r: Record, rest: Bytes, depth: nat, at: nat)
    requires WellFormed(r) && !r.Group? && at + |Encoding(r)| < TWO63
    ensures Skip(Encoding(r) + rest, depth, at) == After(|Encoding(r)|, rest, depth, at)
  {
    hide IsVarint, ReadVarint, Skip;
    match r
    case VarintRecord(tag, payload) =>
      TagReads(tag, 0);
      ReadVarintBytes(payload, rest);
      SkipStep(tag, payload, rest, depth, at);
    case Fixed64Record(tag, payload) =>
      TagReads(tag, 1);
      SkipStep(tag, payload, rest, depth, at);
    case Fixed32Record(tag, payload) =>
      TagReads(tag, 5);
      SkipStep(tag, payload, rest, depth, at);
    case Delimited(tag, length, payload) =>
      TagReads(tag, 2);
      ReadVarintBytes(length, payload + rest);
      assert length + payload + rest == length + (payload + rest);
      assert tag + length + payload + rest == tag + (length + payload) + rest;
      SkipStep(tag, length + payload, rest, depth, at);
  }

  /** Skipping any well-formed record, with anything after it, consumes exactly that record. */
  lemma {:induction false} SkipRecord(r: Record, rest: Bytes, depth: nat, at: nat)
    requires WellFormed(r) && at + |Encoding(r)| < TWO63
    ensures Skip(Encoding(r) + rest, depth, at) == After(|Encoding(r)|, rest, depth, at)
    decreases r, 1
  {
    hide IsVarint, ReadVarint, Skip;
    match r
    case Group(tag, items, endTag) =>
      var inner := Encodings(items) + (endTag + rest);
      assert Encoding(r) + rest == tag + [] + inner;
      assert [] + inner == inner;
      TagReads(tag, 3);
      SkipStep(tag, [], inner, depth, at);
      SkipRecords(items, endTag + rest, depth + 1, at + |tag|);
      assert endTag + [] + rest == endTag + rest;
      assert [] + rest == rest;
      TagReads(endTag, 4);
      SkipStep(endTag, [], rest, depth + 1, at + |tag| + |Encodings(items)|);
    case _ =>
      SkipLeaf(r, rest, depth, at);
  }

  lemma {:induction false} SkipRecords(rs: seq<Record>, rest: Bytes, depth: nat, at: nat)
    requires AllWellFormed(rs) && depth > 0 && at + |Encodings(rs)| < TWO63
    ensures Skip(Encodings(rs) + rest, depth, at) == After(|Encodings(rs)|, rest, depth, at)
    decreases rs, 0
  {
    hide IsVarint, ReadVarint, Skip;
    if rs == [] {
      assert Encodings(rs) + rest == rest;
    } else {
      var more := Encodings(rs[1..]) + rest;
      assert Encodings(rs) + rest == Encoding(rs[0]) + more;
      SkipRecord(rs[0], more, depth, at);
      SkipRecords(rs[1..], rest, depth, at + |Encoding(rs[0])|);
    }
  }

  // ---- Only well-formed records are skipped -----------------------------------------

  /** The tag that was read has the type its low three bits say. */
  lemma ReadTagBytes(s: Bytes)
    requires ReadVarint(s).Got?
    ensures IsTag(s[..ReadVarint(s).len], ReadVarint(s).value % 8)
  {
    var n := ReadVarint(s).len;
    ReadShape(s);
    ReadVarintBytes(s[..n], s[n..]);
    assert s[..n] + s[n..] == s;
  }

  lemma LeafBefore(s: Bytes, depth: nat) returns (r: Record)
    requires ReadVarint(s).Got? && ReadVarint(s).value % 8 in {0, 1, 2, 5}
    requires Jump(ReadVarint(s).value, s[ReadVarint(s).len..], depth).Span?
    requires ReadVarint(s).len + Jump(ReadVarint(s).value, s[ReadVarint(s).len..], depth).len <= |s|
    ensures WellFormed(r) && !r.Group? && r.tag == s[..ReadVarint(s).len]
    ensures Encoding(r) ==
            s[..ReadVarint(s).len + Jump(ReadVarint(s).value, s[ReadVarint(s).len..], depth).len]
  {
    hide IsVarint, ReadVarint;
    var n := ReadVarint(s).len;
    var t := s[n..];
    var m := Jump(ReadVarint(s).value, t, depth).len;
    assert s[n..n + m] == t[..m];
    ReadTagBytes(s);
    match ReadVarint(s).value % 8
    case 0 =>
      ReadShape(t);
      r := VarintRecord(s[..n], t[..m]);
    case 1 =>
      r := Fixed64Record(s[..n], t[..m]);
    case 2 =>
      var k := ReadVarint(t).len;
      ReadShape(t);
      ReadVarintBytes(t[..k], t[k..]);
      assert t[..k] + t[k..] == t;
      assert t[..m] == t[..k] + t[k..m];
      r := Delimited(s[..n], t[..k], t[k..m]);
      assert Encoding(r) == s[..n] + t[..m];
    case 5 =>
      r := Fixed32Record(s[..n], t[..m]);
  }

  /** What is still open, innermost group first: its remaining items and its end tag. */
  datatype Levels = Closed | Open(items: seq<Record>, endTag: Bytes, outer: Levels)

  function Depth(ls: Levels): nat {
    match ls
    case Closed => 0
    case Open(_, _, outer) => 1 + Depth(outer)
  }

  predicate LevelsOk(ls: Levels) {
    match ls
    case Closed => true
    case Open(items, endTag, outer) => AllWellFormed(items) && IsTag(endTag, 4) && LevelsOk(outer)
  }

  function LevelsEncoding(ls: Levels): Bytes {
    match ls
    case Closed => []
    case Open(items, endTag, outer) => Encodings(items) + endTag + LevelsEncoding(outer)
  }

  lemma PrependRecord(r: Record, items: seq<Record>)
    requires WellFormed(r) && AllWellFormed(items)
    ensures AllWellFormed([r] + items) && Encodings([r] + items) == Encoding(r) + Encodings(items)
  {
    assert ([r] + items)[1..] == items;
  }

  /** One more record in front of what the innermost level still holds. */
  function Prepend(r: Record, ls: Levels): Levels
    requires ls.Open?
  {
    ls.(items := [r] + ls.items)
  }

  lemma PrependToLevels(r: Record, ls: Levels)
    requires WellFormed(r) && ls.Open? && LevelsOk(ls)
    ensures LevelsOk(Prepend(r, ls)) && Depth(Prepend(r, ls)) == Depth(ls)
    ensures LevelsEncoding(Prepend(r, ls)) == Encoding(r) + LevelsEncoding(ls)
  {
    hide WellFormed, Encoding;
    PrependRecord(r, ls.items);
  }

  /** Going into a group and coming out of it again. */
  lemma GroupLevels(tag: Bytes, inner: Levels)
    requires IsTag(tag, 3) && inner.Open? && inner.outer.Open? && LevelsOk(inner)
    ensures var ls := Prepend(Group(tag, inner.items, inner.endTag), inner.outer);
            LevelsOk(ls) && Depth(ls) + 1 == Depth(inner) && LevelsEncoding(ls) == tag + LevelsEncoding(inner)
  {
    hide IsTag;
    PrependToLevels(Group(tag, inner.items, inner.endTag), inner.outer);
  }

  lemma SkipUnfolds(s: Bytes, depth: nat, at: nat)
    requires Skip(s, depth, at).Span?
    ensures s != [] && ReadVarint(s).Got?
    ensures var Got(wire, n) := ReadVarint(s);
            var jump := Jump(wire, s[n..], depth);
            var d := DepthAfter(wire, depth);
            && jump.Span? && wire % 8 in {0, 1, 2, 3, 4, 5}
            && (wire % 8 in {3, 4} ==> jump.len == 0)
            && (wire % 8 == 4 ==> depth > 0)
            && (d == 0 ==> Skip(s, depth, at).len == n + jump.len)
            && (d > 0 ==> n + jump.len <= |s| && Skip(s[n + jump.len..], d, at + n + jump.len).Span?)
            && (d > 0 ==>
                  Skip(s, depth, at).len == n + jump.len + Skip(s[n + jump.len..], d, at + n + jump.len).len)
  {
    hide ReadVarint;
  }

  lemma SplitAt(s: Bytes, m: nat, n: nat)
    requires m <= n <= |s|
    ensures s[..n] == s[..m] + s[m..][..n - m]
  {
  }

  /** From inside `depth` groups, a successful skip has consumed exactly the rest of each of them. */
  lemma {:induction false} SkippedLevels(s: Bytes, depth: nat, at: nat) returns (ls: Levels)
    requires depth > 0 && Skip(s, depth, at).Span?
    ensures Depth(ls) == depth && LevelsOk(ls) && Skip(s, depth, at).len <= |s|
    ensures LevelsEncoding(ls) == s[..Skip(s, depth, at).len]
    decreases |s|
  {
    hide ReadVarint, Jump, Skip, IsTag;
    SkipUnfolds(s, depth, at);
    ReadTagBytes(s);
    var Got(wire, n) := ReadVarint(s);
    var tag := s[..n];
    var len := n + Jump(wire, s[n..], depth).len;
    if wire % 8 == 4 && depth == 1 {
      ls := Open([], tag, Closed);
      assert LevelsEncoding(ls) == tag;
    } else {
      var rest := SkippedLevels(s[len..], DepthAfter(wire, depth), at + len);
      SplitAt(s, len, Skip(s, depth, at).len);
      if wire % 8 == 4 {
        ls := Open([], tag, rest);
        assert LevelsEncoding(ls) == tag + LevelsEncoding(rest);
      } else if wire % 8 == 3 {
        GroupLevels(tag, rest);
        ls := Prepend(Group(tag, rest.items, rest.endTag), rest.outer);
      } else {
        var leaf := LeafBefore(s, depth);
        PrependToLevels(leaf, rest);
        ls := Prepend(leaf, rest);
      }
    }
  }

  /** The converse of SkipRecord: whatever is skipped within the slice is one well-formed record. */
  lemma SkippedIsRecord(s: Bytes, at: nat) returns (r: Record)
    requires Skip(s, 0, at).Span? && Skip(s, 0, at).len <= |s|
    ensures WellFormed(r) && Encoding(r) == s[..Skip(s, 0, at).len]
    ensures ReadVarint(s).Got? && r.tag == s[..ReadVarint(s).len]
  {
    hide ReadVarint, Jump, Skip, IsTag;
    SkipUnfolds(s, 0, at);
    var Got(wire, n) := ReadVarint(s);
    if wire % 8 == 3 {
      ReadTagBytes(s);
      var ls := SkippedLevels(s[n..], 1, at + n);
      r := Group(s[..n], ls.items, ls.endTag);
      SplitAt(s, n, Skip(s, 0, at).len);
      assert ls.outer == Closed;
      assert LevelsEncoding(ls) == Encodings(ls.items) + ls.endTag;
      assert Encoding(r) == s[..n] + LevelsEncoding(ls);
    } else {
      r := LeafBefore(s, 0);
    }
  }

  /** Skipping succeeds within a slice exactly when the slice begins with a well-formed record,
      and then it consumes that record. */
  lemma SkipIffRecord(s: Bytes, n: nat)
    requires n <= |s| < TWO63
    ensures Skip(s, 0, 0) == Span(n) <==> exists r :: WellFormed(r) && Encoding(r) == s[..n]
  {
    hide WellFormed, Encoding, Skip;
    if Skip(s, 0, 0) == Span(n) {
      var r := SkippedIsRecord(s, 0);
    }
    if r :| WellFormed(r) && Encoding(r) == s[..n] {
      assert s == s[..n] + s[n..];
      SkipRecord(r, s[n..], 0, 0);
    }
  }
}
