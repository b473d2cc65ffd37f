/** What a list of records means: one field after the other is replaced, appended or merged. */
module MessageMeaning {
  import opened Words
  import opened Varint
  import opened Wire
  import opened Messages
  import opened MessageLaws
  import opened MessageGrammar
  import opened MessageRoundTrip

  // ---- The meaning of one record ------------------------------------------------------------

  /** The number a varint record holds. */
  function Number(r: Record): uint64
    requires r.VarintRecord?
  {
    GroupSum(r.payload) % TWO64
  }

  function ExtentAfter(e: Extent, r: Record): Extent {
    if FieldNumber(r) == 1 && r.VarintRecord? then Extent(Number(r), e.numBlocks)
    else if FieldNumber(r) == 2 && r.VarintRecord? then Extent(e.startBlock, Number(r))
    else e
  }

  function ExtentAfterAll(e: Extent, rs: seq<Record>): Extent
    decreases rs
  {
    if rs == [] then e else ExtentAfterAll(ExtentAfter(e, rs[0]), rs[1..])
  }

  /** An extent that has been read into: whichever way the payload is taken apart, the result is the same
      (see PayloadMeans). */
  ghost function ReadInto(e: Extent, payload: Bytes): Extent
    requires IsExtent(payload)
  {
    var rs :| (forall r :: r in rs ==> InExtent(r)) && Encodings(rs) == payload;
    ExtentAfterAll(e, rs)
  }

  /** A message after one more record. */
  ghost function MessageAfter(m: Message, r: Record): Message
    requires Acceptable(m, r)
  {
    if !Known(m, FieldNumber(r)) then m
    else match m
      case AnExtent(e) => AnExtent(ExtentAfter(e, r))
      case AnOperation(o, has) => OperationAfter(o, has, r)
      case AMerge(c) => AMerge(MergeAfter(c, r))
  }

  ghost function OperationAfter(o: InstallOperation, has: bool, r: Record): Message
    requires Acceptable(AnOperation(o, has), r) && 1 <= FieldNumber(r) <= 9
  {
    match FieldNumber(r)
    case 1 => AnOperation(o.(kind := ToInt32(Number(r))), true)
    case 2 => AnOperation(o.(dataOffset := Number(r)), has)
    case 3 => AnOperation(o.(dataLength := Number(r)), has)
    case 4 => AnOperation(o.(srcExtents := o.srcExtents + [ReadInto(Extent(0, 0), r.payload)]), has)
    case 5 => AnOperation(o.(srcLength := Number(r)), has)
    case 6 => AnOperation(o.(dstExtents := o.dstExtents + [ReadInto(Extent(0, 0), r.payload)]), has)
    case 7 => AnOperation(o.(dstLength := Number(r)), has)
    case 8 => AnOperation(o.(dataSha256Hash := Some(r.payload)), has)
    case _ => AnOperation(o.(srcSha256Hash := Some(r.payload)), has)
  }

  ghost function MergeAfter(c: CowMergeOperation, r: Record): CowMergeOperation
    requires Acceptable(AMerge(c), r) && 1 <= FieldNumber(r) <= 4
  {
    match FieldNumber(r)
    case 1 => c.(kind := ToInt32(Number(r)))
    case 2 => c.(srcExtent := Some(ReadInto(if c.srcExtent.Some? then c.srcExtent.value else Extent(0, 0), r.payload)))
    case 3 => c.(dstExtent := Some(ReadInto(if c.dstExtent.Some? then c.dstExtent.value else Extent(0, 0), r.payload)))
    case _ => c.(srcOffset := ToUint32(Number(r)))
  }

  // ---- Extents -----------------------------------------------------------------------------------

  lemma ExtentSets(e: Extent, tag: Tag, v: Bytes, rest: Bytes, at: nat)
    requires 1 <= tag.field <= 2 && tag.wireType == 0 && IsVarint(v)
    ensures SetField(AnExtent(e), tag, v + rest, at) ==
            Got(AnExtent(if tag.field == 1 then Extent(GroupSum(v) % TWO64, e.numBlocks)
                         else Extent(e.startBlock, GroupSum(v) % TWO64)), |v|)
  {
    hide ReadVarint, IsVarint, GroupSum;
    ReadVarintValue(v, rest);
  }

  lemma ExtentStep(e: Extent, r: Record, rest: Bytes, at: nat)
    requires InExtent(r) && at + |Encoding(r)| + |rest| < TWO63
    ensures Step(AnExtent(e), Encoding(r) + rest, at) == Got(AnExtent(ExtentAfter(e, r)), |Encoding(r)|)
  {
    hide ReadVarint, IsVarint, SetField, IsTag, Skip, GroupSum;
    if FieldNumber(r) > 2 {
      StepOverUnknown(AnExtent(e), r, rest, at);
    } else {
      RecordStartsWithTag(r, rest);
      TagReads(r.tag, 0);
      assert Encoding(r) + rest == r.tag + (r.payload + rest);
      assert (Encoding(r) + rest)[|r.tag|..] == r.payload + rest;
      ExtentSets(e, Tag(FieldNumber(r), 0), r.payload, rest, at + |r.tag|);
    }
  }

  lemma {:induction false} ExtentMeans(e: Extent, rs: seq<Record>, at: nat)
    requires (forall r :: r in rs ==> InExtent(r)) && at + |Encodings(rs)| < TWO63
    ensures Run(AnExtent(e), Encodings(rs), at) == Ok(AnExtent(ExtentAfterAll(e, rs)))
    decreases rs
  {
    hide Step, Encoding, InExtent, ExtentAfter;
    if rs != [] {
      var b, more := Encoding(rs[0]), Encodings(rs[1..]);
      ExtentStep(e, rs[0], more, at);
      assert (b + more)[|b|..] == more;
      ExtentMeans(ExtentAfter(e, rs[0]), rs[1..], at + |b|);
    }
  }

  /** A payload means the same whichever way it is taken apart. */
  lemma PayloadMeans(e: Extent, payload: Bytes)
    requires IsExtent(payload) && |payload| < TWO63
    ensures Run(AnExtent(e), payload, 0) == Ok(AnExtent(ReadInto(e, payload)))
    ensures forall rs :: (forall r :: r in rs ==> InExtent(r)) && Encodings(rs) == payload ==>
              ExtentAfterAll(e, rs) == ReadInto(e, payload)
  {
    hide Run, Encodings, InExtent, ExtentAfterAll;
    forall rs | (forall r :: r in rs ==> InExtent(r)) && Encodings(rs) == payload
      ensures Run(AnExtent(e), payload, 0) == Ok(AnExtent(ExtentAfterAll(e, rs)))
    {
      ExtentMeans(e, rs, 0);
    }
  }

  // ---- Any message ----------------------------------------------------------------------------------

  lemma ScalarSets(m: Message, r: Record, tag: Tag, rest: Bytes, at: nat)
    requires Acceptable(m, r) && Known(m, FieldNumber(r)) && r.VarintRecord?
    requires tag == Tag(FieldNumber(r), 0)
    ensures SetField(m, tag, r.payload + rest, at) == Got(MessageAfter(m, r), |r.payload|)
  {
    hide ReadVarint, IsVarint, GroupSum, IsTag, FieldNumber, Run, IsExtent;
    ReadVarintValue(r.payload, rest);
  }

  lemma DelimitedSets(m: Message, r: Record, tag: Tag, rest: Bytes, at: nat)
    requires Acceptable(m, r) && Known(m, FieldNumber(r)) && r.Delimited?
    requires tag == Tag(FieldNumber(r), 2) && at + |r.length| + |r.payload| + |rest| < TWO63
    ensures SetField(m, tag, r.length + r.payload + rest, at) == Got(MessageAfter(m, r), |r.length| + |r.payload|)
  {
    hide ReadVarint, IsVarint, IsTag, FieldNumber, Run, IsExtent, ReadPayload, ReadInto;
    PayloadOfRecord(tag, r.length, r.payload, rest, at);
    if FieldShape(m, FieldNumber(r)).ExtentShape? {
      PayloadMeans(NO_EXTENT, r.payload);
      if m.AMerge? {
        PayloadMeans(OrEmpty(m.merge.srcExtent), r.payload);
        PayloadMeans(OrEmpty(m.merge.dstExtent), r.payload);
      }
    }
  }

  lemma StepMeans(m: Message, r: Record, rest: Bytes, at: nat)
    requires Acceptable(m, r) && at + |Encoding(r)| + |rest| < TWO63
    ensures Step(m, Encoding(r) + rest, at) == Got(MessageAfter(m, r), |Encoding(r)|)
  {
    hide ReadVarint, IsVarint, IsTag, SetField, Run, Skip, IsExtent, OperationAfter, MergeAfter;
    if !Known(m, FieldNumber(r)) {
      StepOverUnknown(m, r, rest, at);
    } else {
      RecordStartsWithTag(r, rest);
      if r.VarintRecord? {
        TagReads(r.tag, 0);
        assert Encoding(r) + rest == r.tag + (r.payload + rest);
        assert (Encoding(r) + rest)[|r.tag|..] == r.payload + rest;
        ScalarSets(m, r, Tag(FieldNumber(r), 0), rest, at + |r.tag|);
      } else {
        TagReads(r.tag, 2);
        assert Encoding(r) + rest == r.tag + (r.length + r.payload + rest);
        assert (Encoding(r) + rest)[|r.tag|..] == r.length + r.payload + rest;
        DelimitedSets(m, r, Tag(FieldNumber(r), 2), rest, at + |r.tag|);
      }
    }
  }

  lemma AcceptableByKind(m: Message, m': Message, r: Record)
    requires SameKind(m, m')
    ensures Acceptable(m, r) <==> Acceptable(m', r)
  {
    hide WellFormed, FieldNumber, IsExtent;
  }

  lemma AfterKeepsKind(m: Message, r: Record)
    requires Acceptable(m, r)
    ensures SameKind(MessageAfter(m, r), m)
  {
    hide Acceptable, FieldNumber;
  }

  ghost function MessageAfterAll(m: Message, rs: seq<Record>): Message
    requires forall r :: r in rs ==> Acceptable(m, r)
    decreases rs
  {
    if rs == [] then m
    else
      assert rs[0] in rs;
      var m' := MessageAfter(m, rs[0]);
      assert forall r :: r in rs[1..] ==> Acceptable(m', r) by {
        AfterKeepsKind(m, rs[0]);
        forall r | r in rs[1..] ensures Acceptable(m', r) { AcceptableByKind(m, m', r); }
      }
      MessageAfterAll(m', rs[1..])
  }

  /** Reading a list of records is letting them act one after the other, each on its own field and on no
      other. (RunAcceptsIff: nothing but such lists is read.) */
  lemma {:induction false} RunMeans(m: Message, rs: seq<Record>, at: nat)
    requires (forall r :: r in rs ==> Acceptable(m, r)) && at + |Encodings(rs)| < TWO63
    ensures Run(m, Encodings(rs), at) == Ok(MessageAfterAll(m, rs))
    decreases rs
  {
    hide Step, Encoding, Acceptable, MessageAfter;
    if rs != [] {
      assert rs[0] in rs;
      var b, more := Encoding(rs[0]), Encodings(rs[1..]);
      var m' := MessageAfter(m, rs[0]);
      StepMeans(m, rs[0], more, at);
      assert (b + more)[|b|..] == more;
      AfterKeepsKind(m, rs[0]);
      forall r | r in rs[1..] ensures Acceptable(m', r) { AcceptableByKind(m, m', r); }
      RunMeans(m', rs[1..], at + |b|);
    }
  }

  // ---- Single fields, as they are written ------------------------------------------------------------

  /** One field of an extent replaces that field and leaves the other alone. */
  lemma ExtentFieldReads(e: Extent, field: nat, v: uint64)
    requires field in {1, 2}
    ensures Run(AnExtent(e), VarintField(8 * field, v), 0) ==
            Ok(AnExtent(if field == 1 then Extent(v, e.numBlocks) else Extent(e.startBlock, v)))
  {
    hide ReadVarint, VarintBytes, Run;
    var tag: byte := 8 * field;
    var payload := VarintBytes(v);
    VarintRoundTrip(v, []);
    assert payload + [] == payload;
    ReadShape(payload);
    SovIsLength(v);
    assert payload[..|payload|] == payload;
    ReadVarintValue(payload, []);
    var r := VarintRecord([tag], payload);
    OneByteRecord(tag);
    assert InExtent(r);
    assert Encodings([r]) == Encoding(r) + Encodings([]);
    assert Encodings([r]) == VarintField(tag, v);
    assert [r][1..] == [];
    ExtentMeans(e, [r], 0);
    assert ExtentAfterAll(e, [r]) == ExtentAfterAll(ExtentAfter(e, r), []);
  }

  /** A piece of a submessage that brings one field leaves the other as it was in the submessage that is there
      already; if there is none, the other is zero. */
  lemma PieceReads(c: CowMergeOperation, field: nat, sub: nat, v: uint64)
    requires field in {2, 3} && sub in {1, 2}
    ensures var was := if field == 2 then c.srcExtent else c.dstExtent;
            var e := if was.Some? then was.value else Extent(0, 0);
            var e' := if sub == 1 then Extent(v, e.numBlocks) else Extent(e.startBlock, v);
            Run(AMerge(c), BytesField(8 * field + 2, VarintField(8 * sub, v)), 0) ==
            Ok(AMerge(if field == 2 then c.(srcExtent := Some(e')) else c.(dstExtent := Some(e'))))
  {
    hide Run, VarintBytes;
    var p := VarintField(8 * sub, v);
    SovIsLength(v);
    SovIsLength(|p|);
    SubmessageField(c, field, p);
    ExtentFieldReads(OrEmpty(if field == 2 then c.srcExtent else c.dstExtent), sub, v);
  }

  lemma OneByteRecord(tag: byte)
    requires 8 <= tag < 0x80
    ensures ReadVarint([tag]) == Got(tag, 1) && IsTag([tag], tag % 8)
  {
  }

  // ---- What Marshal writes, as records --------------------------------------------------------------------

  function ScalarRecord(field: nat, v: uint64): Record {
    VarintRecord(VarintBytes(8 * field), VarintBytes(v))
  }

  function BytesRecord(field: nat, payload: Bytes): Record {
    Delimited(VarintBytes(8 * field + 2), VarintBytes(|payload|), payload)
  }

  function ExtentRecords(e: Extent): seq<Record> {
    [ScalarRecord(1, e.startBlock), ScalarRecord(2, e.numBlocks)]
  }

  function NestedRecords(field: nat, es: seq<Extent>): seq<Record> {
    if es == [] then [] else [BytesRecord(field, Encodings(ExtentRecords(es[0])))] + NestedRecords(field, es[1..])
  }

  function OptionalRecords(field: nat, payload: Option<Bytes>): seq<Record> {
    if payload.None? then [] else [BytesRecord(field, payload.value)]
  }

  /** The records of an operation, in the order of their numbers. */
  function OperationRecords(o: InstallOperation): seq<Record> {
    [ScalarRecord(1, ToUint64(o.kind)), ScalarRecord(2, o.dataOffset), ScalarRecord(3, o.dataLength)]
    + NestedRecords(4, o.srcExtents)
    + [ScalarRecord(5, o.srcLength)]
    + NestedRecords(6, o.dstExtents)
    + [ScalarRecord(7, o.dstLength)]
    + OptionalRecords(8, o.dataSha256Hash)
    + OptionalRecords(9, o.srcSha256Hash)
  }

  function MergeRecords(c: CowMergeOperation): seq<Record> {
    [ScalarRecord(1, ToUint64(c.kind))]
    + NestedRecords(2, if c.srcExtent.None? then [] else [c.srcExtent.value])
    + NestedRecords(3, if c.dstExtent.None? then [] else [c.dstExtent.value])
    + [ScalarRecord(4, c.srcOffset)]
  }

  lemma {:induction false} EncodingsAppend(a: seq<Record>, b: seq<Record>)
    ensures Encodings(a + b) == Encodings(a) + Encodings(b)
  {
    hide Encoding;
    if a == [] {
      assert a + b == b;
    } else {
      assert (a + b)[1..] == a[1..] + b;
      EncodingsAppend(a[1..], b);
    }
  }

  lemma EncodingsOne(r: Record)
    ensures Encodings([r]) == Encoding(r)
  {
    assert [r][1..] == [];
    assert Encodings([r]) == Encoding(r) + [];
  }

  lemma SmallTag(tag: byte)
    requires 8 <= tag < 0x80
    ensures VarintBytes(tag) == [tag]
  {
  }

  lemma ScalarWire(field: nat, v: uint64)
    requires 1 <= field <= 9
    ensures Encodings([ScalarRecord(field, v)]) == VarintField(8 * field, v)
  {
    hide VarintBytes;
    SmallTag(8 * field);
    EncodingsOne(ScalarRecord(field, v));
  }

  lemma BytesWire(field: nat, payload: Bytes)
    requires 1 <= field <= 9
    ensures Encodings([BytesRecord(field, payload)]) == BytesField(8 * field + 2, payload)
  {
    hide VarintBytes;
    SmallTag(8 * field + 2);
    EncodingsOne(BytesRecord(field, payload));
  }

  /** An extent is written as its two records. */
  lemma ExtentWire(e: Extent)
    ensures Encodings(ExtentRecords(e)) == ExtentBytes(e)
  {
    hide VarintField, ScalarRecord, Encodings;
    ScalarWire(1, e.startBlock);
    ScalarWire(2, e.numBlocks);
    EncodingsAppend([ScalarRecord(1, e.startBlock)], [ScalarRecord(2, e.numBlocks)]);
    assert ExtentRecords(e) == [ScalarRecord(1, e.startBlock)] + [ScalarRecord(2, e.numBlocks)];
  }

  lemma {:induction false} NestedWire(field: nat, es: seq<Extent>)
    requires 1 <= field <= 9
    ensures Encodings(NestedRecords(field, es)) == ExtentsField(8 * field + 2, es)
  {
    hide BytesField, BytesRecord, ExtentBytes, ExtentRecords;
    if es != [] {
      ExtentWire(es[0]);
      var p := Encodings(ExtentRecords(es[0]));
      BytesWire(field, p);
      NestedWire(field, es[1..]);
      EncodingsAppend([BytesRecord(field, p)], NestedRecords(field, es[1..]));
    }
  }

  lemma OptionalWire(field: nat, payload: Option<Bytes>)
    requires 1 <= field <= 9
    ensures Encodings(OptionalRecords(field, payload)) == OptionalBytesField(8 * field + 2, payload)
  {
    if payload.Some? { BytesWire(field, payload.value); }
  }

  /** An operation is written as its records, fields in ascending order, a nil hash left out. */
  lemma OperationWire(o: InstallOperation)
    ensures Encodings(OperationRecords(o)) == OperationBytes(o)
  {
    hide VarintField, ScalarRecord, NestedRecords, ExtentsField, OptionalRecords, OptionalBytesField, Encodings;
    var r1, r2, r3 := [ScalarRecord(1, ToUint64(o.kind))], [ScalarRecord(2, o.dataOffset)], [ScalarRecord(3, o.dataLength)];
    var r4, r5 := NestedRecords(4, o.srcExtents), [ScalarRecord(5, o.srcLength)];
    var r6, r7 := NestedRecords(6, o.dstExtents), [ScalarRecord(7, o.dstLength)];
    var r8, r9 := OptionalRecords(8, o.dataSha256Hash), OptionalRecords(9, o.srcSha256Hash);
    ScalarWire(1, ToUint64(o.kind));
    ScalarWire(2, o.dataOffset);
    ScalarWire(3, o.dataLength);
    NestedWire(4, o.srcExtents);
    ScalarWire(5, o.srcLength);
    NestedWire(6, o.dstExtents);
    ScalarWire(7, o.dstLength);
    OptionalWire(8, o.dataSha256Hash);
    OptionalWire(9, o.srcSha256Hash);
    assert OperationRecords(o) == r1 + (r2 + (r3 + (r4 + (r5 + (r6 + (r7 + (r8 + r9)))))));
    EncodingsAppend(r8, r9);
    EncodingsAppend(r7, r8 + r9);
    EncodingsAppend(r6, r7 + (r8 + r9));
    EncodingsAppend(r5, r6 + (r7 + (r8 + r9)));
    EncodingsAppend(r4, r5 + (r6 + (r7 + (r8 + r9))));
    EncodingsAppend(r3, r4 + (r5 + (r6 + (r7 + (r8 + r9)))));
    EncodingsAppend(r2, r3 + (r4 + (r5 + (r6 + (r7 + (r8 + r9))))));
    EncodingsAppend(r1, r2 + (r3 + (r4 + (r5 + (r6 + (r7 + (r8 + r9)))))));
  }

  lemma {:induction false} OneNested(field: nat, e: Option<Extent>)
    requires 1 <= field <= 9
    ensures Encodings(NestedRecords(field, if e.None? then [] else [e.value])) == OptionalExtentField(8 * field + 2, e)
  {
    hide BytesField, ExtentBytes;
    NestedWire(field, if e.None? then [] else [e.value]);
    if e.Some? {
      assert [e.value][1..] == [] && ExtentsField(8 * field + 2, []) == [];
    }
  }

  /** A merge operation is written as its records, absent extents left out. */
  lemma MergeWire(c: CowMergeOperation)
    ensures Encodings(MergeRecords(c)) == MergeBytes(c)
  {
    hide VarintField, ScalarRecord, NestedRecords, OptionalExtentField, Encodings;
    var r1, r4 := [ScalarRecord(1, ToUint64(c.kind))], [ScalarRecord(4, c.srcOffset)];
    var r2 := NestedRecords(2, if c.srcExtent.None? then [] else [c.srcExtent.value]);
    var r3 := NestedRecords(3, if c.dstExtent.None? then [] else [c.dstExtent.value]);
    ScalarWire(1, ToUint64(c.kind));
    OneNested(2, c.srcExtent);
    OneNested(3, c.dstExtent);
    ScalarWire(4, c.srcOffset);
    assert MergeRecords(c) == r1 + (r2 + (r3 + r4));
    EncodingsAppend(r3, r4);
    EncodingsAppend(r2, r3 + r4);
    EncodingsAppend(r1, r2 + (r3 + r4));
  }
}
