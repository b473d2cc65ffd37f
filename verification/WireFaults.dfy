/** Which error a skip reports: that of the first fault it meets, inside whatever groups are open there. */
module WireFaults {
  import opened Words
  import opened Varint
  import opened Wire

  /** A group that has been opened, and the whole records in it so far. */
  datatype OpenGroup = OpenGroup(tag: Bytes, items: seq<Record>)

  function OpenEncoding(gs: seq<OpenGroup>): Bytes {
    if gs == [] then [] else gs[0].tag + Encodings(gs[0].items) + OpenEncoding(gs[1..])
  }

  predicate AllOpen(gs: seq<OpenGroup>) {
    forall i :: 0 <= i < |gs| ==> IsTag(gs[i].tag, 3) && AllWellFormed(gs[i].items)
  }

  lemma {:induction false} SkipEnters(gs: seq<OpenGroup>, rest: Bytes, depth: nat, at: nat)
    requires AllOpen(gs) && at + |OpenEncoding(gs)| < TWO63
    ensures gs != [] ==> Skip(OpenEncoding(gs) + rest, depth, at) ==
                         Later(|OpenEncoding(gs)|, Skip(rest, depth + |gs|, at + |OpenEncoding(gs)|))
    decreases gs
  {
    hide IsTag, Skip, Encodings, AllWellFormed, ReadVarint, Jump;
    if gs != [] {
      var tag, items, more := gs[0].tag, Encodings(gs[0].items), OpenEncoding(gs[1..]) + rest;
      assert OpenEncoding(gs) + rest == tag + [] + (items + more);
      assert [] + (items + more) == items + more;
      TagReads(tag, 3);
      GroupTag(tag, items + more, depth);
      SkipStep(tag, [], items + more, depth, at);
      SkipRecords(gs[0].items, more, depth + 1, at + |tag|);
      if gs[1..] != [] {
        SkipEnters(gs[1..], rest, depth + 1, at + |tag| + |items|);
      } else {
        assert more == rest by { assert OpenEncoding(gs[1..]) == []; }
      }
    }
  }

  lemma GroupTag(tag: Bytes, rest: Bytes, depth: nat)
    requires IsTag(tag, 3)
    ensures IsVarint(tag) && ReadVarint(tag).Got?
    ensures Jump(ReadVarint(tag).value, [] + rest, depth) == Span(0)
    ensures DepthAfter(ReadVarint(tag).value, depth) == depth + 1
  {
    hide ReadVarint;
    TagReads(tag, 3);
  }

  /** The fault, if any, in the record that begins `s`, with `depth` groups open `at` bytes from the start. */
  lemma SkipFaults(tag: Bytes, body: Bytes, depth: nat, at: nat)
    requires IsVarint(tag)
    ensures var r, kind, v := Skip(tag + body, depth, at), GroupSum(tag) % TWO64 % 8, ReadVarint(body);
            && (kind == 6 || kind == 7 ==> r == NoSpan(IllegalWireType))
            && (kind == 4 && depth == 0 ==> r == NoSpan(UnexpectedEndOfGroup))
            && (kind in {0, 2} && v.Bad? ==> r == NoSpan(v.error))
            && (kind == 2 && v.Got? && v.value >= TWO63 ==> r == NoSpan(InvalidLength))
            && (kind == 2 && v.Got? && v.value < TWO63 && at + |tag| + v.len + v.value >= TWO63 ==>
                  r == NoSpan(InvalidLength))
            && (kind == 2 && v.Got? && |body| < v.len + v.value && at + |tag| + v.len + v.value < TWO63 && depth > 0 ==>
                  r == NoSpan(UnexpectedEOF))
            && (kind == 1 && |body| < 8 && at + |tag| + 8 < TWO63 && depth > 0 ==> r == NoSpan(UnexpectedEOF))
            && (kind == 5 && |body| < 4 && at + |tag| + 4 < TWO63 && depth > 0 ==> r == NoSpan(UnexpectedEOF))
  {
    hide IsVarint, ReadVarint, GroupSum;
    ReadVarintValue(tag, body);
    assert (tag + body)[|tag|..] == body;
  }

  /** Where a tag should begin: nothing, or no varint. */
  lemma SkipNoTag(s: Bytes, depth: nat, at: nat)
    ensures s == [] ==> Skip(s, depth, at) == NoSpan(UnexpectedEOF)
    ensures s != [] && ReadVarint(s).Bad? ==> Skip(s, depth, at) == NoSpan(ReadVarint(s).error)
  {
    hide ReadVarint;
  }

  /** The error of a skip is the error of the first fault. */
  lemma SkipReportsFirstFault(gs: seq<OpenGroup>, rest: Bytes, e: Error)
    requires AllOpen(gs) && |OpenEncoding(gs)| < TWO63
    requires Skip(rest, |gs|, |OpenEncoding(gs)|) == NoSpan(e)
    ensures Skip(OpenEncoding(gs) + rest, 0, 0) == NoSpan(e)
  {
    hide Skip;
    if gs == [] {
      assert OpenEncoding(gs) + rest == rest;
    } else {
      SkipEnters(gs, rest, 0, 0);
    }
  }
}
