/** Unmarshal undoes Marshal; on a message that already holds something, it merges. */
module MessageRoundTrip {
  import opened Words
  import opened Varint
  import opened Messages
  import opened MessageLaws

  // ---- Single fields ------------------------------------------------------------------

  lemma OneByteTag(tag: byte, rest: Bytes)
    requires 8 <= tag < 0x80 && tag % 8 != 4
    ensures ReadTag([tag] + rest) == Got(Tag(tag / 8, tag % 8), 1)
    ensures ([tag] + rest)[1..] == rest
  {
  }

  lemma ScalarReads(tag: Tag, v: uint64)
    requires tag.wireType == 0
    ensures ReadScalar(tag, VarintBytes(v)) == Got(v, |VarintBytes(v)|)
  {
    VarintRoundTrip(v, []);
    SovIsLength(v);
    assert VarintBytes(v) + [] == VarintBytes(v);
  }

  lemma PayloadReads(tag: Tag, payload: Bytes, at: nat)
    requires tag.wireType == 2
    requires at + |VarintBytes(|payload|)| + |payload| < TWO63
    ensures ReadPayload(tag, VarintBytes(|payload|) + payload, at) ==
            Got(payload, |VarintBytes(|payload|)| + |payload|)
  {
    hide ReadVarint;
    VarintRoundTrip(|payload|, payload);
    SovIsLength(|payload|);
    var n := |VarintBytes(|payload|)|;
    assert (VarintBytes(|payload|) + payload)[n..n + |payload|] == payload;
  }

  lemma RunOneField(m: Message, tag: byte, body: Bytes, m': Message)
    requires 8 <= tag < 0x80 && tag % 8 != 4 && Known(m, tag / 8)
    requires SetField(m, Tag(tag / 8, tag % 8), body, 1) == Got(m', |body|)
    ensures Run(m, [tag] + body, 0) == Ok(m')
  {
    hide SetField, ReadTag, Known;
    OneByteTag(tag, body);
    assert ([tag] + body)[1 + |body|..] == [];
  }

  lemma RunBadField(m: Message, tag: byte, body: Bytes, e: Error)
    requires 8 <= tag < 0x80 && tag % 8 != 4 && Known(m, tag / 8)
    requires SetField(m, Tag(tag / 8, tag % 8), body, 1) == Bad(e)
    ensures Run(m, [tag] + body, 0) == Err(e)
  {
    hide SetField, ReadTag, Known;
    OneByteTag(tag, body);
  }

  lemma Chain(m: Message, a: Bytes, m': Message, b: Bytes, r: Result)
    requires |a + b| < TWO63
    requires Run(m, a, 0) == Ok(m') && Run(m', b, 0) == r && r.Ok?
    ensures Run(m, a + b, 0) == r
  {
    RunIsFold(m, a, b);
  }

  // ---- Extent -------------------------------------------------------------------------

  lemma ExtentSize(e: Extent)
    ensures 4 <= |ExtentBytes(e)| <= 22
  {
    SovIsLength(e.startBlock);
    SovIsLength(e.numBlocks);
  }

  /** Every field of an extent is written, so what was there before is replaced. */
  lemma ExtentRoundTrip(was: Extent, e: Extent)
    ensures Run(AnExtent(was), ExtentBytes(e), 0) == Ok(AnExtent(e))
  {
    ExtentSize(e);
    var half := Extent(e.startBlock, was.numBlocks);
    ScalarReads(Tag(1, 0), e.startBlock);
    RunOneField(AnExtent(was), 0x08, VarintBytes(e.startBlock), AnExtent(half));
    ScalarReads(Tag(2, 0), e.numBlocks);
    RunOneField(AnExtent(half), 0x10, VarintBytes(e.numBlocks), AnExtent(e));
    Chain(AnExtent(was), VarintField(0x08, e.startBlock), AnExtent(half), VarintField(0x10, e.numBlocks),
          Ok(AnExtent(e)));
  }

  lemma ExtentReads(tag: Tag, e: Extent, into: Extent)
    requires tag.wireType == 2
    ensures var body := VarintBytes(|ExtentBytes(e)|) + ExtentBytes(e);
            ReadExtent(tag, body, 1, into) == Got(e, |body|)
  {
    hide Run, ReadPayload, ExtentBytes;
    ExtentSize(e);
    SovIsLength(|ExtentBytes(e)|);
    PayloadReads(tag, ExtentBytes(e), 1);
    ExtentRoundTrip(into, e);
  }

  // ---- InstallOperation ---------------------------------------------------------------

  predicate IsScalarField(field: nat) {
    field in {1, 2, 3, 5, 7}
  }

  function SetScalar(o: InstallOperation, field: nat, v: uint64): InstallOperation {
    match field
    case 1 => o.(kind := ToInt32(v))
    case 2 => o.(dataOffset := v)
    case 3 => o.(dataLength := v)
    case 5 => o.(srcLength := v)
    case _ => o.(dstLength := v)
  }

  lemma OperationScalar(o: InstallOperation, has: bool, field: nat, v: uint64)
    requires IsScalarField(field)
    ensures Run(AnOperation(o, has), VarintField(8 * field, v), 0) ==
            Ok(AnOperation(SetScalar(o, field, v), has || field == 1))
  {
    hide ReadScalar;
    ScalarReads(Tag(field, 0), v);
    RunOneField(AnOperation(o, has), 8 * field, VarintBytes(v),
                AnOperation(SetScalar(o, field, v), has || field == 1));
  }

  function AddExtents(o: InstallOperation, field: nat, es: seq<Extent>): InstallOperation {
    if field == 4 then o.(srcExtents := o.srcExtents + es) else o.(dstExtents := o.dstExtents + es)
  }

  lemma OperationExtent(o: InstallOperation, has: bool, field: nat, e: Extent)
    requires field in {4, 6}
    ensures Run(AnOperation(o, has), BytesField(8 * field + 2, ExtentBytes(e)), 0) ==
            Ok(AnOperation(AddExtents(o, field, [e]), has))
  {
    hide ReadExtent;
    var body := VarintBytes(|ExtentBytes(e)|) + ExtentBytes(e);
    ExtentReads(Tag(field, 2), e, NO_EXTENT);
    assert BytesField(8 * field + 2, ExtentBytes(e)) == [8 * field + 2] + body;
    RunOneField(AnOperation(o, has), 8 * field + 2, body, AnOperation(AddExtents(o, field, [e]), has));
  }

  lemma {:induction false} OperationExtents(o: InstallOperation, has: bool, field: nat, es: seq<Extent>)
    requires field in {4, 6} && |ExtentsField(8 * field + 2, es)| < TWO63
    ensures Run(AnOperation(o, has), ExtentsField(8 * field + 2, es), 0) ==
            Ok(AnOperation(AddExtents(o, field, es), has))
    decreases es
  {
    hide Step, BytesField, ExtentBytes;
    if es == [] {
      assert AddExtents(o, field, es) == o by {
        assert o.srcExtents + [] == o.srcExtents && o.dstExtents + [] == o.dstExtents;
      }
    } else {
      var o' := AddExtents(o, field, [es[0]]);
      OperationExtent(o, has, field, es[0]);
      OperationExtents(o', has, field, es[1..]);
      assert AddExtents(o', field, es[1..]) == AddExtents(o, field, es) by {
        assert [es[0]] + es[1..] == es;
        assert o.srcExtents + [es[0]] + es[1..] == o.srcExtents + ([es[0]] + es[1..]);
        assert o.dstExtents + [es[0]] + es[1..] == o.dstExtents + ([es[0]] + es[1..]);
      }
      Chain(AnOperation(o, has), BytesField(8 * field + 2, ExtentBytes(es[0])), AnOperation(o', has),
            ExtentsField(8 * field + 2, es[1..]), Ok(AnOperation(AddExtents(o, field, es), has)));
    }
  }

  function Prefer<T>(later: Option<T>, earlier: Option<T>): Option<T> {
    if later.Some? then later else earlier
  }

  function SetHash(o: InstallOperation, field: nat, h: Option<Bytes>): InstallOperation {
    if field == 8 then o.(dataSha256Hash := Prefer(h, o.dataSha256Hash))
    else o.(srcSha256Hash := Prefer(h, o.srcSha256Hash))
  }

  lemma OperationHash(o: InstallOperation, has: bool, field: nat, h: Option<Bytes>)
    requires field in {8, 9} && |OptionalBytesField(8 * field + 2, h)| < TWO63
    ensures Run(AnOperation(o, has), OptionalBytesField(8 * field + 2, h), 0) ==
            Ok(AnOperation(SetHash(o, field, h), has))
  {
    hide ReadPayload;
    if h.Some? {
      var body := VarintBytes(|h.value|) + h.value;
      assert BytesField(8 * field + 2, h.value) == [8 * field + 2] + body;
      PayloadReads(Tag(field, 2), h.value, 1);
      RunOneField(AnOperation(o, has), 8 * field + 2, body, AnOperation(SetHash(o, field, h), has));
    }
  }

  /** The merge the Encoding guide prescribes ("Last One Wins"): scalars and byte strings are
      replaced, repeated fields are appended. */
  function CombineOperations(x: InstallOperation, y: InstallOperation): InstallOperation {
    InstallOperation(
      y.kind, y.dataOffset, y.dataLength, x.srcExtents + y.srcExtents, y.srcLength,
      x.dstExtents + y.dstExtents, y.dstLength,
      Prefer(y.dataSha256Hash, x.dataSha256Hash), Prefer(y.srcSha256Hash, x.srcSha256Hash))
  }

  /** Reading what Marshal wrote for `y` into a message that holds `x`. */
  lemma OperationMerges(x: InstallOperation, has: bool, y: InstallOperation)
    requires |OperationBytes(y)| < TWO63
    ensures Run(AnOperation(x, has), OperationBytes(y), 0) == Ok(AnOperation(CombineOperations(x, y), true))
  {
    hide Run, VarintField, ExtentsField, OptionalBytesField;
    Int32SurvivesSignExtension(y.kind);
    var m1 := SetScalar(x, 1, ToUint64(y.kind));
    var m2 := SetScalar(m1, 2, y.dataOffset);
    var m3 := SetScalar(m2, 3, y.dataLength);
    var m4 := AddExtents(m3, 4, y.srcExtents);
    var m5 := SetScalar(m4, 5, y.srcLength);
    var m6 := AddExtents(m5, 6, y.dstExtents);
    var m7 := SetScalar(m6, 7, y.dstLength);
    var m8 := SetHash(m7, 8, y.dataSha256Hash);
    var m9 := SetHash(m8, 9, y.srcSha256Hash);
    var r := Ok(AnOperation(m9, true));
    var b8 := OptionalBytesField(0x42, y.dataSha256Hash);
    var b9 := OptionalBytesField(0x4a, y.srcSha256Hash);
    var b7 := VarintField(0x38, y.dstLength);
    var b6 := ExtentsField(0x32, y.dstExtents);
    var b5 := VarintField(0x28, y.srcLength);
    var b4 := ExtentsField(0x22, y.srcExtents);
    var b3 := VarintField(0x18, y.dataLength);
    var b2 := VarintField(0x10, y.dataOffset);
    var b1 := VarintField(0x08, ToUint64(y.kind));
    OperationHash(m8, true, 9, y.srcSha256Hash);
    OperationHash(m7, true, 8, y.dataSha256Hash);
    Chain(AnOperation(m7, true), b8, AnOperation(m8, true), b9, r);
    OperationScalar(m6, true, 7, y.dstLength);
    Chain(AnOperation(m6, true), b7, AnOperation(m7, true), b8 + b9, r);
    OperationExtents(m5, true, 6, y.dstExtents);
    Chain(AnOperation(m5, true), b6, AnOperation(m6, true), b7 + (b8 + b9), r);
    OperationScalar(m4, true, 5, y.srcLength);
    Chain(AnOperation(m4, true), b5, AnOperation(m5, true), b6 + (b7 + (b8 + b9)), r);
    OperationExtents(m3, true, 4, y.srcExtents);
    Chain(AnOperation(m3, true), b4, AnOperation(m4, true), b5 + (b6 + (b7 + (b8 + b9))), r);
    OperationScalar(m2, true, 3, y.dataLength);
    Chain(AnOperation(m2, true), b3, AnOperation(m3, true), b4 + (b5 + (b6 + (b7 + (b8 + b9)))), r);
    OperationScalar(m1, true, 2, y.dataOffset);
    Chain(AnOperation(m1, true), b2, AnOperation(m2, true), b3 + (b4 + (b5 + (b6 + (b7 + (b8 + b9))))), r);
    OperationScalar(x, has, 1, ToUint64(y.kind));
    Chain(AnOperation(x, has), b1, AnOperation(m1, true), b2 + (b3 + (b4 + (b5 + (b6 + (b7 + (b8 + b9)))))), r);
  }

  /** Marshal then Unmarshal is the identity on every InstallOperation. */
  lemma OperationRoundTrip(o: InstallOperation)
    requires |OperationBytes(o)| < TWO63
    ensures Unmarshal(AnOperation(NO_OPERATION, false), OperationBytes(o)) == Ok(AnOperation(o, true))
  {
    OperationMerges(NO_OPERATION, false, o);
    assert [] + o.srcExtents == o.srcExtents && [] + o.dstExtents == o.dstExtents;
  }

  // ---- CowMergeOperation ----------------------------------------------------------------

  function CombineMerges(x: CowMergeOperation, y: CowMergeOperation): CowMergeOperation {
    CowMergeOperation(y.kind, Prefer(y.srcExtent, x.srcExtent), Prefer(y.dstExtent, x.dstExtent), y.srcOffset)
  }

  lemma MergeScalar(c: CowMergeOperation, field: nat, v: uint64)
    requires field in {1, 4}
    ensures Run(AMerge(c), VarintField(8 * field, v), 0) ==
            Ok(AMerge(if field == 1 then c.(kind := ToInt32(v)) else c.(srcOffset := ToUint32(v))))
  {
    hide ReadScalar;
    ScalarReads(Tag(field, 0), v);
    RunOneField(AMerge(c), 8 * field, VarintBytes(v),
                AMerge(if field == 1 then c.(kind := ToInt32(v)) else c.(srcOffset := ToUint32(v))));
  }

  lemma MergeExtent(c: CowMergeOperation, field: nat, e: Option<Extent>)
    requires field in {2, 3}
    ensures Run(AMerge(c), OptionalExtentField(8 * field + 2, e), 0) ==
            Ok(AMerge(if field == 2 then c.(srcExtent := Prefer(e, c.srcExtent))
                      else c.(dstExtent := Prefer(e, c.dstExtent))))
  {
    hide ReadExtent;
    if e.Some? {
      var into := OrEmpty(if field == 2 then c.srcExtent else c.dstExtent);
      var body := VarintBytes(|ExtentBytes(e.value)|) + ExtentBytes(e.value);
      ExtentReads(Tag(field, 2), e.value, into);
      assert BytesField(8 * field + 2, ExtentBytes(e.value)) == [8 * field + 2] + body;
      RunOneField(AMerge(c), 8 * field + 2, body,
                  AMerge(if field == 2 then c.(srcExtent := e) else c.(dstExtent := e)));
    }
  }

  lemma MergeMerges(x: CowMergeOperation, y: CowMergeOperation)
    ensures Run(AMerge(x), MergeBytes(y), 0) == Ok(AMerge(CombineMerges(x, y)))
  {
    hide Run;
    Int32SurvivesSignExtension(y.kind);
    MergeSize(y);
    var m1 := x.(kind := y.kind);
    var m2 := m1.(srcExtent := Prefer(y.srcExtent, x.srcExtent));
    var m3 := m2.(dstExtent := Prefer(y.dstExtent, x.dstExtent));
    var r := Ok(AMerge(CombineMerges(x, y)));
    var b1, b2 := VarintField(0x08, ToUint64(y.kind)), OptionalExtentField(0x12, y.srcExtent);
    var b3, b4 := OptionalExtentField(0x1a, y.dstExtent), VarintField(0x20, y.srcOffset);
    MergeScalar(m3, 4, y.srcOffset);
    MergeExtent(m2, 3, y.dstExtent);
    Chain(AMerge(m2), b3, AMerge(m3), b4, r);
    MergeExtent(m1, 2, y.srcExtent);
    Chain(AMerge(m1), b2, AMerge(m2), b3 + b4, r);
    MergeScalar(x, 1, ToUint64(y.kind));
    Chain(AMerge(x), b1, AMerge(m1), b2 + (b3 + b4), r);
  }

  lemma MergeSize(c: CowMergeOperation)
    ensures |MergeBytes(c)| <= 100
  {
    SovIsLength(ToUint64(c.kind));
    SovIsLength(c.srcOffset);
    if c.srcExtent.Some? { ExtentSize(c.srcExtent.value); SovIsLength(|ExtentBytes(c.srcExtent.value)|); }
    if c.dstExtent.Some? { ExtentSize(c.dstExtent.value); SovIsLength(|ExtentBytes(c.dstExtent.value)|); }
  }

  /** Marshal then Unmarshal is the identity on every CowMergeOperation, absent extents included. */
  lemma MergeRoundTrip(c: CowMergeOperation)
    ensures Unmarshal(AMerge(NO_MERGE), MergeBytes(c)) == Ok(AMerge(c))
  {
    MergeMerges(NO_MERGE, c);
  }

  /** A singular submessage that comes in two pieces is the submessage of the joined pieces:
      it is merged field by field, not replaced. */
  lemma SubmessagePiecesMerge(c: CowMergeOperation, field: nat, p: Bytes, q: Bytes)
    requires field in {2, 3} && |BytesField(8 * field + 2, p)| + |BytesField(8 * field + 2, q)| < TWO63
    requires Run(AMerge(c), BytesField(8 * field + 2, p), 0).Ok?
    requires |BytesField(8 * field + 2, p + q)| < TWO63
    ensures Agree(Run(AMerge(c), BytesField(8 * field + 2, p) + BytesField(8 * field + 2, q), 0),
                  Run(AMerge(c), BytesField(8 * field + 2, p + q), 0))
  {
    hide Run, BytesField;
    var tag := 8 * field + 2;
    var into := OrEmpty(if field == 2 then c.srcExtent else c.dstExtent);
    SubmessageField(c, field, p);
    SubmessageField(c, field, p + q);
    PayloadIsShorter(tag, p);
    PayloadIsShorter(tag, p + q);
    var half := Run(AnExtent(into), p, 0).message.extent;
    var c' := if field == 2 then c.(srcExtent := Some(half)) else c.(dstExtent := Some(half));
    RunIsFold(AMerge(c), BytesField(tag, p), BytesField(tag, q));
    SubmessageField(c', field, q);
    RunIsFold(AnExtent(into), p, q);
  }

  lemma PayloadIsShorter(tag: byte, p: Bytes)
    ensures |p| + 2 <= |BytesField(tag, p)|
  {
  }

  lemma SubmessageField(c: CowMergeOperation, field: nat, p: Bytes)
    requires field in {2, 3} && |BytesField(8 * field + 2, p)| < TWO63
    ensures var sub := Run(AnExtent(OrEmpty(if field == 2 then c.srcExtent else c.dstExtent)), p, 0);
            Run(AMerge(c), BytesField(8 * field + 2, p), 0) ==
            if sub.Err? then Err(sub.error)
            else if field == 2 then Ok(AMerge(c.(srcExtent := Some(sub.message.extent))))
            else Ok(AMerge(c.(dstExtent := Some(sub.message.extent))))
  {
    hide ReadPayload;
    var tag := 8 * field + 2;
    var body := VarintBytes(|p|) + p;
    assert BytesField(tag, p) == [tag] + body;
    PayloadReads(Tag(field, 2), p, 1);
    var r := SetField(AMerge(c), Tag(field, 2), body, 1);
    if r.Got? {
      RunOneField(AMerge(c), tag, body, r.value);
    } else {
      RunBadField(AMerge(c), tag, body, r.error);
    }
  }
}
