/** The generated methods themselves: Size, MarshalToSizedBuffer (back to front, into a slice of
    a buffer) and Unmarshal (an index that wraps like a Go int, fields updated in place). */
module MessageObjects {
  import opened Words
  import opened Varint
  import opened Wire
  import opened Messages

  // ---- Writing ------------------------------------------------------------------------

  lemma FilledThen(now: Bytes, mid: Bytes, before: Bytes, i: int, m: nat, end: nat, a: Bytes, tail: Bytes)
    requires Filled(now, mid, i, m, a) && Filled(mid, before, m, end, tail)
    ensures Filled(now, before, i, end, a + tail)
  {
    assert mid[..i] == before[..i];
    assert mid[m..] == tail + before[end..];
  }

  lemma FilledNothing(s: Bytes, end: nat)
    requires end <= |s|
    ensures Filled(s, s, end, end, [])
  {
  }

  method PutByte(dAtA: array<byte>, end: nat, b: byte) returns (i: nat)
    requires 1 <= end <= dAtA.Length
    modifies dAtA
    ensures i == end - 1 && Filled(dAtA[..], old(dAtA[..]), i, end, [b])
  {
    i := end - 1;
    dAtA[i] := b;
  }

  /** Bytes that end at `end`. */
  method PutBytes(dAtA: array<byte>, end: nat, payload: Bytes) returns (i: nat)
    requires |payload| <= end <= dAtA.Length
    modifies dAtA
    ensures i == end - |payload| && Filled(dAtA[..], old(dAtA[..]), i, end, payload)
  {
    i := end - |payload|;
    forall k | 0 <= k < |payload| {
      dAtA[i + k] := payload[k];
    }
    assert dAtA[..] == old(dAtA[..i]) + payload + old(dAtA[end..]);
  }

  /** A tag and a varint after it, written so that they end at `end`. */
  method PutVarintField(dAtA: array<byte>, end: nat, tag: byte, v: uint64) returns (i: nat)
    requires |VarintField(tag, v)| <= end <= dAtA.Length
    modifies dAtA
    ensures i == end - |VarintField(tag, v)| && Filled(dAtA[..], old(dAtA[..]), i, end, VarintField(tag, v))
  {
    hide VarintBytes, Sov;
    SovIsLength(v);
    ghost var before := dAtA[..];
    var m := EncodeVarint(dAtA, end, v);
    ghost var mid := dAtA[..];
    i := PutByte(dAtA, m, tag);
    FilledThen(dAtA[..], mid, before, i, m, end, [tag], VarintBytes(v));
  }

  /** The tag and the length in front of a payload that is already in place. */
  method PutHeader(dAtA: array<byte>, end: nat, tag: byte, ghost before: Bytes, ghost hi: nat, ghost payload: Bytes,
                   size: nat)
    returns (i: nat)
    requires size == |payload| < TWO63 && end + size == hi && 1 + |VarintBytes(size)| <= end <= dAtA.Length
    requires Filled(dAtA[..], before, end, hi, payload)
    modifies dAtA
    ensures i == hi - |BytesField(tag, payload)| && Filled(dAtA[..], before, i, hi, BytesField(tag, payload))
  {
    hide VarintBytes;
    ghost var mid := dAtA[..];
    i := PutVarintField(dAtA, end, tag, size);
    FilledThen(dAtA[..], mid, before, i, end, hi, VarintField(tag, size), payload);
    assert VarintField(tag, size) + payload == BytesField(tag, payload);
  }

  method PutBytesField(dAtA: array<byte>, end: nat, tag: byte, payload: Option<Bytes>) returns (i: nat)
    requires |OptionalBytesField(tag, payload)| <= end <= dAtA.Length && end < TWO63
    modifies dAtA
    ensures i == end - |OptionalBytesField(tag, payload)|
    ensures Filled(dAtA[..], old(dAtA[..]), i, end, OptionalBytesField(tag, payload))
  {
    ghost var before := dAtA[..];
    i := end;
    if payload.Some? {
      i := PutBytes(dAtA, i, payload.value);
      i := PutHeader(dAtA, i, tag, before, end, payload.value, |payload.value|);
    } else {
      FilledNothing(before, end);
    }
  }

  /** The same writers, as steps of a longer run from `hi` down: `tail` is already in place. */
  method PrependVarintField(dAtA: array<byte>, i: nat, tag: byte, v: uint64, ghost before: Bytes, ghost hi: nat,
                            ghost tail: Bytes)
    returns (i': nat)
    requires Filled(dAtA[..], before, i, hi, tail) && |VarintField(tag, v)| <= i
    modifies dAtA
    ensures i' == i - |VarintField(tag, v)| && Filled(dAtA[..], before, i', hi, VarintField(tag, v) + tail)
  {
    ghost var mid := dAtA[..];
    i' := PutVarintField(dAtA, i, tag, v);
    FilledThen(dAtA[..], mid, before, i', i, hi, VarintField(tag, v), tail);
  }

  method PrependBytesField(dAtA: array<byte>, i: nat, tag: byte, payload: Option<Bytes>, ghost before: Bytes,
                           ghost hi: nat, ghost tail: Bytes)
    returns (i': nat)
    requires Filled(dAtA[..], before, i, hi, tail) && |OptionalBytesField(tag, payload)| <= i < TWO63
    modifies dAtA
    ensures i' == i - |OptionalBytesField(tag, payload)|
    ensures Filled(dAtA[..], before, i', hi, OptionalBytesField(tag, payload) + tail)
  {
    ghost var mid := dAtA[..];
    i' := PutBytesField(dAtA, i, tag, payload);
    FilledThen(dAtA[..], mid, before, i', i, hi, OptionalBytesField(tag, payload), tail);
  }

  // ---- Reading ------------------------------------------------------------------------

  method DecodeTag(dAtA: Bytes, iNdEx: nat) returns (r: Scan<Tag>)
    requires iNdEx <= |dAtA|
    ensures r == ReadTag(dAtA[iNdEx..])
  {
    hide ReadVarint;
    var wire := DecodeVarint(dAtA, iNdEx);
    if wire.Bad? { return Bad(wire.error); }
    var fieldNum := ToInt32(wire.value / 8);
    var wireType := wire.value % 8;
    if wireType == 4 { return Bad(EndGroupForNonGroup); }
    if fieldNum <= 0 { return Bad(IllegalTag); }
    return Got(Tag(fieldNum, wireType), wire.len);
  }

  method DecodeScalar(dAtA: Bytes, iNdEx: nat, tag: Tag) returns (r: Scan<uint64>)
    requires iNdEx <= |dAtA|
    ensures r == ReadScalar(tag, dAtA[iNdEx..])
  {
    hide ReadVarint;
    if tag.wireType != 0 { return Bad(WrongWireType); }
    r := DecodeVarint(dAtA, iNdEx);
  }

  /** The length of a submessage or byte string: the payload is dAtA[start..postIndex]. The checks
      on the sign of the length and of the wrapped sum are what keeps the slice within bounds. */
  method DecodeLength(dAtA: Bytes, iNdEx: nat, tag: Tag)
    returns (err: Option<Error>, start: nat, postIndex: nat)
    requires iNdEx <= |dAtA| < TWO63
    ensures match ReadPayload(tag, dAtA[iNdEx..], iNdEx)
            case Bad(e) => err == Some(e)
            case Got(payload, n) =>
              && err == None && iNdEx <= start <= postIndex <= |dAtA|
              && postIndex == iNdEx + n && payload == dAtA[start..postIndex]
  {
    hide ReadVarint;
    err, start, postIndex := None, iNdEx, iNdEx;
    if tag.wireType != 2 { err := Some(WrongWireType); return; }
    var v := DecodeVarint(dAtA, iNdEx);
    if v.Bad? { err := Some(v.error); return; }
    start := iNdEx + v.len;
    var length := ToInt64(v.value);
    if length < 0 { err := Some(InvalidLength); return; }
    var post := AddInt64(start, length);
    if post < 0 { err := Some(InvalidLength); return; }
    if post > |dAtA| { err := Some(UnexpectedEOF); return; }
    postIndex := post;
    assert dAtA[iNdEx..][v.len..v.len + length] == dAtA[start..postIndex];
  }

  /** The default case: the index after a field nobody knows. */
  method DecodeUnknown(dAtA: Bytes, preIndex: nat, ghost m: Message) returns (err: Option<Error>, next: nat)
    requires preIndex <= |dAtA| < TWO63
    ensures match SkipField(m, dAtA[preIndex..], preIndex)
            case Bad(e) => err == Some(e)
            case Got(_, n) => err == None && next == preIndex + n
  {
    hide Skip;
    err, next := None, preIndex;
    var skippy := SkipUpdateMetadata(dAtA[preIndex..]);
    if skippy.NoSpan? { err := Some(skippy.error); return; }
    var post := AddInt64(preIndex, skippy.len);
    if skippy.len < 0 || post < 0 { err := Some(InvalidLength); return; }
    if post > |dAtA| { err := Some(UnexpectedEOF); return; }
    next := post;
  }

  /** One turn of the loop, seen from the whole slice. */
  lemma RunTurn(m: Message, dAtA: Bytes, i: nat)
    requires i < |dAtA|
    ensures match Step(m, dAtA[i..], i)
            case Bad(e) => Run(m, dAtA[i..], i) == Err(e)
            case Got(m', n) => i + n <= |dAtA| && Run(m, dAtA[i..], i) == Run(m', dAtA[i + n..], i + n)
  {
    hide Step;
    if Step(m, dAtA[i..], i).Got? {
      var n := Step(m, dAtA[i..], i).len;
      assert dAtA[i..][n..] == dAtA[i + n..];
    }
  }

  /** How a turn is made of its tag and its field. */
  lemma StepByTag(m: Message, dAtA: Bytes, i: nat)
    requires i < |dAtA|
    ensures match ReadTag(dAtA[i..])
            case Bad(e) => Step(m, dAtA[i..], i) == Bad(e)
            case Got(tag, n) =>
              Step(m, dAtA[i..], i) ==
              if !Known(m, tag.field) then SkipField(m, dAtA[i..], i)
              else match SetField(m, tag, dAtA[i + n..], i + n)
                   case Bad(e) => Bad(e)
                   case Got(m', k) => Got(m', n + k)
  {
    hide ReadTag, SetField, SkipField, Known;
    if ReadTag(dAtA[i..]).Got? {
      var n := ReadTag(dAtA[i..]).len;
      assert dAtA[i..][n..] == dAtA[i + n..];
    }
  }

  // ---- Extent ---------------------------------------------------------------------------

  class ExtentObject {
    var startBlock: uint64
    var numBlocks: uint64

    ghost function Value(): Extent
      reads this
    {
      Extent(startBlock, numBlocks)
    }

    constructor ()
      ensures Value() == NO_EXTENT
    {
      startBlock, numBlocks := 0, 0;
    }

    method Size() returns (n: nat)
      ensures n == |ExtentBytes(Value())|
    {
      SovIsLength(startBlock);
      SovIsLength(numBlocks);
      n := 1 + Sov(startBlock);
      n := n + (1 + Sov(numBlocks));
    }

    /** Into the slice dAtA[:hi]: fills its last Size() bytes and touches nothing else. */
    method MarshalToSizedBuffer(dAtA: array<byte>, hi: nat) returns (n: nat)
      requires |ExtentBytes(Value())| <= hi <= dAtA.Length
      modifies dAtA
      ensures n == |ExtentBytes(Value())|
      ensures Filled(dAtA[..], old(dAtA[..]), hi - n, hi, ExtentBytes(Value()))
    {
      hide VarintBytes;
      ghost var before := dAtA[..];
      var i := PutVarintField(dAtA, hi, 0x10, numBlocks);
      ghost var mid, m := dAtA[..], i;
      i := PutVarintField(dAtA, i, 0x08, startBlock);
      FilledThen(dAtA[..], mid, before, i, m, hi, VarintField(0x08, startBlock), VarintField(0x10, numBlocks));
      n := hi - i;
    }

    /** A buffer of exactly Size() bytes, every one of them written. */
    method Marshal() returns (dAtA: array<byte>)
      ensures fresh(dAtA) && dAtA[..] == ExtentBytes(Value())
    {
      var size := Size();
      dAtA := new byte[size];
      var n := MarshalToSizedBuffer(dAtA, size);
      assert n == size;
    }

    /** The switch, for field numbers 1 and 2. */
    method SetKnownField(dAtA: Bytes, iNdEx: nat, tag: Tag) returns (err: Option<Error>, next: nat)
      requires iNdEx <= |dAtA| < TWO63 && 1 <= tag.field <= 2
      modifies this
      ensures match SetField(AnExtent(old(Value())), tag, dAtA[iNdEx..], iNdEx)
              case Bad(e) => err == Some(e)
              case Got(m, n) => err == None && AnExtent(Value()) == m && next == iNdEx + n
    {
      hide ReadScalar;
      err, next := None, iNdEx;
      var v := DecodeScalar(dAtA, iNdEx, tag);
      if v.Bad? { err := Some(v.error); return; }
      if tag.field == 1 { startBlock := v.value; } else { numBlocks := v.value; }
      next := iNdEx + v.len;
    }

    method Unmarshal(dAtA: Bytes) returns (err: Option<Error>)
      requires |dAtA| < TWO63
      modifies this
      ensures match Messages.Unmarshal(AnExtent(old(Value())), dAtA)
              case Ok(m) => err == None && AnExtent(Value()) == m
              case Err(e) => err == Some(e)
    {
      hide Step, ReadTag, SetField, SkipField;
      ghost var goal := Run(AnExtent(Value()), dAtA, 0);
      var iNdEx := 0;
      assert dAtA[0..] == dAtA;
      while iNdEx < |dAtA|
        invariant iNdEx <= |dAtA|
        invariant goal == Run(AnExtent(Value()), dAtA[iNdEx..], iNdEx)
      {
        ghost var m := AnExtent(Value());
        RunTurn(m, dAtA, iNdEx);
        StepByTag(m, dAtA, iNdEx);
        var tag := DecodeTag(dAtA, iNdEx);
        if tag.Bad? { return Some(tag.error); }
        if 1 <= tag.value.field <= 2 {
          err, iNdEx := SetKnownField(dAtA, iNdEx + tag.len, tag.value);
        } else {
          err, iNdEx := DecodeUnknown(dAtA, iNdEx, m);
        }
        if err.Some? { return; }
      }
      // the index stands exactly at the end: the check for iNdEx > l that follows cannot fire
      assert iNdEx == |dAtA|;
      return None;
    }
  }

  // ---- Lists of extents -------------------------------------------------------------------

  ghost function Values(es: seq<ExtentObject>): (vs: seq<Extent>)
    reads es
    ensures |vs| == |es|
  {
    if es == [] then [] else [es[0].Value()] + Values(es[1..])
  }

  lemma {:induction false} ValuesAppend(es: seq<ExtentObject>, e: ExtentObject)
    ensures Values(es + [e]) == Values(es) + [e.Value()]
  {
    if es == [] {
      assert Values([e]) == [e.Value()] + Values([e][1..]);
    } else {
      assert (es + [e])[1..] == es[1..] + [e];
      ValuesAppend(es[1..], e);
    }
  }

  lemma {:induction false} ValuesDrop(es: seq<ExtentObject>, k: nat)
    requires k < |es|
    ensures Values(es[k..]) == [es[k].Value()] + Values(es[k + 1..])
  {
    assert es[k..][1..] == es[k + 1..];
  }

  method SizeOfExtents(tag: byte, es: seq<ExtentObject>) returns (n: nat)
    ensures n == |ExtentsField(tag, Values(es))|
  {
    n := 0;
    assert es[0..] == es;
    for k := 0 to |es|
      invariant n + |ExtentsField(tag, Values(es[k..]))| == |ExtentsField(tag, Values(es))|
    {
      var l := es[k].Size();
      ValuesDrop(es, k);
      SmallExtent(es[k].Value());
      n := n + (1 + l + Sov(l));
      assert Values(es[k..])[1..] == Values(es[k + 1..]);
    }
    assert es[|es|..] == [];
  }

  lemma SmallExtent(e: Extent)
    ensures |ExtentBytes(e)| <= 22 && |VarintBytes(|ExtentBytes(e)|)| == Sov(|ExtentBytes(e)|)
  {
    SovIsLength(e.startBlock);
    SovIsLength(e.numBlocks);
    SovIsLength(|ExtentBytes(e)|);
  }

  /** One nested extent: its bytes, its length and its tag. */
  method PutExtent(dAtA: array<byte>, end: nat, tag: byte, e: ExtentObject) returns (i: nat)
    requires |BytesField(tag, ExtentBytes(e.Value()))| <= end <= dAtA.Length
    modifies dAtA
    ensures i == end - |BytesField(tag, ExtentBytes(e.Value()))|
    ensures Filled(dAtA[..], old(dAtA[..]), i, end, BytesField(tag, ExtentBytes(e.Value())))
  {
    hide VarintBytes, ExtentBytes;
    SmallExtent(e.Value());
    ghost var before, payload := dAtA[..], ExtentBytes(e.Value());
    var size := e.MarshalToSizedBuffer(dAtA, end);
    i := PutHeader(dAtA, end - size, tag, before, end, payload, size);
  }

  lemma ExtentsStep(tag: byte, es: seq<ExtentObject>, k: nat)
    requires k < |es|
    ensures ExtentsField(tag, Values(es[k..])) ==
            BytesField(tag, ExtentBytes(es[k].Value())) + ExtentsField(tag, Values(es[k + 1..]))
    ensures |ExtentsField(tag, Values(es[k..]))| <= |ExtentsField(tag, Values(es))|
  {
    ValuesDrop(es, k);
    assert Values(es[k..])[1..] == Values(es[k + 1..]);
    ExtentsShorter(tag, es, k);
  }

  lemma {:induction false} ExtentsShorter(tag: byte, es: seq<ExtentObject>, k: nat)
    requires k <= |es|
    ensures |ExtentsField(tag, Values(es[k..]))| <= |ExtentsField(tag, Values(es))|
  {
    if k == 0 {
      assert es[0..] == es;
    } else {
      ExtentsShorter(tag, es, k - 1);
      ValuesDrop(es, k - 1);
      assert Values(es[k - 1..])[1..] == Values(es[k..]);
    }
  }

  /** The extents in front of what is written, the last one first. */
  method PrependExtents(dAtA: array<byte>, end: nat, tag: byte, es: seq<ExtentObject>, ghost before: Bytes,
                        ghost hi: nat, ghost tail: Bytes)
    returns (i: nat)
    requires Filled(dAtA[..], before, end, hi, tail) && |ExtentsField(tag, Values(es))| <= end
    modifies dAtA
    ensures i == end - |ExtentsField(tag, Values(es))|
    ensures Filled(dAtA[..], before, i, hi, ExtentsField(tag, Values(es)) + tail)
  {
    hide BytesField, ExtentBytes, Filled;
    i := end;
    assert es[|es|..] == [];
    assert [] + tail == tail;
    FilledLength(dAtA[..], before, end, hi, tail);
    for k := |es| downto 0
      invariant i == end - |ExtentsField(tag, Values(es[k..]))|
      invariant Filled(dAtA[..], before, i, hi, ExtentsField(tag, Values(es[k..])) + tail)
    {
      ExtentsStep(tag, es, k);
      ghost var mid, m, rest := dAtA[..], i, ExtentsField(tag, Values(es[k + 1..])) + tail;
      i := PutExtent(dAtA, i, tag, es[k]);
      FilledThen(dAtA[..], mid, before, i, m, hi, BytesField(tag, ExtentBytes(es[k].Value())), rest);
      assert BytesField(tag, ExtentBytes(es[k].Value())) + rest == ExtentsField(tag, Values(es[k..])) + tail;
    }
    assert es[0..] == es;
  }

  lemma FilledLength(now: Bytes, before: Bytes, i: int, end: nat, tail: Bytes)
    requires Filled(now, before, i, end, tail)
    ensures 0 <= i <= end <= |now|
  {
  }

  // ---- InstallOperation ---------------------------------------------------------------------

  lemma OperationParts(o: InstallOperation)
    ensures |OperationBytes(o)| ==
            |VarintField(0x08, ToUint64(o.kind))| + |VarintField(0x10, o.dataOffset)| +
            |VarintField(0x18, o.dataLength)| + |ExtentsField(0x22, o.srcExtents)| +
            |VarintField(0x28, o.srcLength)| + |ExtentsField(0x32, o.dstExtents)| +
            |VarintField(0x38, o.dstLength)| + |OptionalBytesField(0x42, o.dataSha256Hash)| +
            |OptionalBytesField(0x4a, o.srcSha256Hash)|
  {
  }

  lemma VarintFieldSize(tag: byte, v: uint64)
    ensures |VarintField(tag, v)| == 1 + Sov(v)
  {
    SovIsLength(v);
  }

  class InstallOperationObject {
    var kind: int32
    var dataOffset: uint64
    var dataLength: uint64
    var srcExtents: seq<ExtentObject>
    var srcLength: uint64
    var dstExtents: seq<ExtentObject>
    var dstLength: uint64
    var dataSha256Hash: Option<Bytes>
    var srcSha256Hash: Option<Bytes>

    ghost function Value(): InstallOperation
      reads this, srcExtents, dstExtents
    {
      InstallOperation(kind, dataOffset, dataLength, Values(srcExtents), srcLength, Values(dstExtents), dstLength,
                       dataSha256Hash, srcSha256Hash)
    }

    constructor ()
      ensures Value() == NO_OPERATION
    {
      kind, dataOffset, dataLength, srcExtents, srcLength := 0, 0, 0, [], 0;
      dstExtents, dstLength, dataSha256Hash, srcSha256Hash := [], 0, None, None;
    }

    method SizeOfBytes(payload: Option<Bytes>, ghost tag: byte) returns (n: nat)
      requires |OptionalBytesField(tag, payload)| < TWO63
      ensures n == |OptionalBytesField(tag, payload)|
    {
      n := 0;
      if payload.Some? {
        var l := |payload.value|;
        assert l < |OptionalBytesField(tag, payload)|;
        SovIsLength(l);
        n := 1 + l + Sov(l);
      }
    }

    method Size() returns (n: nat)
      requires |OperationBytes(Value())| < TWO63
      ensures n == |OperationBytes(Value())|
    {
      hide OperationBytes, VarintField, ExtentsField, OptionalBytesField, Sov;
      OperationParts(Value());
      VarintFieldSize(0x08, ToUint64(kind));
      n := 1 + Sov(ToUint64(kind));
      VarintFieldSize(0x10, dataOffset);
      n := n + (1 + Sov(dataOffset));
      VarintFieldSize(0x18, dataLength);
      n := n + (1 + Sov(dataLength));
      var l := SizeOfExtents(0x22, srcExtents);
      n := n + l;
      VarintFieldSize(0x28, srcLength);
      n := n + (1 + Sov(srcLength));
      l := SizeOfExtents(0x32, dstExtents);
      n := n + l;
      VarintFieldSize(0x38, dstLength);
      n := n + (1 + Sov(dstLength));
      l := SizeOfBytes(dataSha256Hash, 0x42);
      n := n + l;
      l := SizeOfBytes(srcSha256Hash, 0x4a);
      n := n + l;
    }

    /** Fields 9 down to 5. */
    method MarshalTail(dAtA: array<byte>, hi: nat) returns (i: nat)
      requires |OperationTail(Value())| <= hi <= dAtA.Length && hi < TWO63
      modifies dAtA
      ensures i == hi - |OperationTail(Value())|
      ensures Filled(dAtA[..], old(dAtA[..]), i, hi, OperationTail(Value()))
    {
      hide VarintField, ExtentsField, OptionalBytesField, Filled, Values;
      ghost var o, before := Value(), dAtA[..];
      FilledNothing(before, hi);
      i := PrependBytesField(dAtA, hi, 0x4a, srcSha256Hash, before, hi, []);
      ghost var t := OptionalBytesField(0x4a, o.srcSha256Hash);
      assert t + [] == t;
      i := PrependBytesField(dAtA, i, 0x42, dataSha256Hash, before, hi, t);
      t := OptionalBytesField(0x42, o.dataSha256Hash) + t;
      i := PrependVarintField(dAtA, i, 0x38, dstLength, before, hi, t);
      t := VarintField(0x38, o.dstLength) + t;
      i := PrependExtents(dAtA, i, 0x32, dstExtents, before, hi, t);
      t := ExtentsField(0x32, o.dstExtents) + t;
      i := PrependVarintField(dAtA, i, 0x28, srcLength, before, hi, t);
    }

    /** Into the slice dAtA[:hi], from its end to its front, without running below index 0. */
    method MarshalToSizedBuffer(dAtA: array<byte>, hi: nat) returns (n: nat)
      requires |OperationBytes(Value())| <= hi <= dAtA.Length && hi < TWO63
      modifies dAtA
      ensures n == |OperationBytes(Value())|
      ensures Filled(dAtA[..], old(dAtA[..]), hi - n, hi, OperationBytes(Value()))
    {
      hide VarintField, ExtentsField, OperationTail, Filled, Values;
      ghost var o, before := Value(), dAtA[..];
      var i := MarshalTail(dAtA, hi);
      ghost var t := OperationTail(o);
      i := PrependExtents(dAtA, i, 0x22, srcExtents, before, hi, t);
      t := ExtentsField(0x22, o.srcExtents) + t;
      i := PrependVarintField(dAtA, i, 0x18, dataLength, before, hi, t);
      t := VarintField(0x18, o.dataLength) + t;
      i := PrependVarintField(dAtA, i, 0x10, dataOffset, before, hi, t);
      t := VarintField(0x10, o.dataOffset) + t;
      i := PrependVarintField(dAtA, i, 0x08, ToUint64(kind), before, hi, t);
      n := hi - i;
    }

    /** A buffer of exactly Size() bytes, every one of them written. */
    method Marshal() returns (dAtA: array<byte>)
      requires |OperationBytes(Value())| < TWO63
      ensures fresh(dAtA) && dAtA[..] == OperationBytes(Value())
    {
      hide OperationBytes, Values;
      var size := Size();
      dAtA := new byte[size];
      var n := MarshalToSizedBuffer(dAtA, size);
      assert n == size;
    }

    /** The switch, for field numbers 1 to 9. */
    method SetKnownField(dAtA: Bytes, iNdEx: nat, tag: Tag, has: bool)
      returns (err: Option<Error>, next: nat, has': bool)
      requires iNdEx <= |dAtA| < TWO63 && 1 <= tag.field <= 9
      modifies this
      ensures match SetField(AnOperation(old(Value()), has), tag, dAtA[iNdEx..], iNdEx)
              case Bad(e) => err == Some(e)
              case Got(m, n) => err == None && AnOperation(Value(), has') == m && next == iNdEx + n
    {
      hide ReadScalar, ReadPayload, ReadExtent, Values;
      err, next, has' := None, iNdEx, has;
      if tag.field in {4, 6} {
        var e;
        err, next, e := ReadNewExtent(dAtA, iNdEx, tag);
        if err.Some? { return; }
        if tag.field == 4 {
          ValuesAppend(srcExtents, e);
          srcExtents := srcExtents + [e];
        } else {
          ValuesAppend(dstExtents, e);
          dstExtents := dstExtents + [e];
        }
      } else if tag.field in {8, 9} {
        var start;
        err, start, next := DecodeLength(dAtA, iNdEx, tag);
        if err.Some? { return; }
        if tag.field == 8 { dataSha256Hash := Some(dAtA[start..next]); } else { srcSha256Hash := Some(dAtA[start..next]); }
      } else {
        var v := DecodeScalar(dAtA, iNdEx, tag);
        if v.Bad? { err := Some(v.error); return; }
        next := iNdEx + v.len;
        match tag.field
        case 1 => kind, has' := ToInt32(v.value), true;
        case 2 => dataOffset := v.value;
        case 3 => dataLength := v.value;
        case 5 => srcLength := v.value;
        case _ => dstLength := v.value;
      }
    }

    method Unmarshal(dAtA: Bytes) returns (err: Option<Error>)
      requires |dAtA| < TWO63
      modifies this
      ensures match Messages.Unmarshal(AnOperation(old(Value()), false), dAtA)
              case Ok(m) => err == None && AnOperation(Value(), true) == m
              case Err(e) => err == Some(e)
    {
      hide Step, ReadTag, SetField, SkipField, Values;
      ghost var goal := Run(AnOperation(Value(), false), dAtA, 0);
      var iNdEx, hasType := 0, false;
      assert dAtA[0..] == dAtA;
      while iNdEx < |dAtA|
        invariant iNdEx <= |dAtA|
        invariant goal == Run(AnOperation(Value(), hasType), dAtA[iNdEx..], iNdEx)
      {
        ghost var m := AnOperation(Value(), hasType);
        RunTurn(m, dAtA, iNdEx);
        StepByTag(m, dAtA, iNdEx);
        var tag := DecodeTag(dAtA, iNdEx);
        if tag.Bad? { return Some(tag.error); }
        if 1 <= tag.value.field <= 9 {
          err, iNdEx, hasType := SetKnownField(dAtA, iNdEx + tag.len, tag.value, hasType);
        } else {
          err, iNdEx := DecodeUnknown(dAtA, iNdEx, m);
        }
        if err.Some? { return; }
      }
      assert iNdEx == |dAtA|;
      if !hasType { return Some(RequiredNotSet); }
      return None;
    }
  }

  /** append(es, &Extent{}) and Unmarshal into the new element. */
  method ReadNewExtent(dAtA: Bytes, iNdEx: nat, tag: Tag) returns (err: Option<Error>, next: nat, e: ExtentObject)
    requires iNdEx <= |dAtA| < TWO63
    ensures fresh(e)
    ensures match ReadExtent(tag, dAtA[iNdEx..], iNdEx, NO_EXTENT)
            case Bad(x) => err == Some(x)
            case Got(v, n) => err == None && next == iNdEx + n && e.Value() == v
  {
    e := new ExtentObject();
    err, next := ReadIntoExtent(dAtA, iNdEx, tag, e);
  }

  method ReadIntoExtent(dAtA: Bytes, iNdEx: nat, tag: Tag, e: ExtentObject) returns (err: Option<Error>, next: nat)
    requires iNdEx <= |dAtA| < TWO63
    modifies e
    ensures match ReadExtent(tag, dAtA[iNdEx..], iNdEx, old(e.Value()))
            case Bad(x) => err == Some(x)
            case Got(v, n) => err == None && next == iNdEx + n && e.Value() == v
  {
    hide ReadPayload, Run;
    var start;
    err, start, next := DecodeLength(dAtA, iNdEx, tag);
    if err.Some? { return; }
    err := e.Unmarshal(dAtA[start..next]);
  }

  // ---- CowMergeOperation ----------------------------------------------------------------------

  lemma MergeParts(c: CowMergeOperation)
    ensures |MergeBytes(c)| ==
            |VarintField(0x08, ToUint64(c.kind))| + |OptionalExtentField(0x12, c.srcExtent)| +
            |OptionalExtentField(0x1a, c.dstExtent)| + |VarintField(0x20, c.srcOffset)|
  {
  }

  ghost function OptionalValue(e: ExtentObject?): Option<Extent>
    reads e
  {
    if e == null then None else Some(e.Value())
  }

  method SizeOfExtent(e: ExtentObject?, ghost tag: byte) returns (n: nat)
    ensures n == |OptionalExtentField(tag, OptionalValue(e))|
  {
    n := 0;
    if e != null {
      var l := e.Size();
      SmallExtent(e.Value());
      n := 1 + l + Sov(l);
    }
  }

  method PrependOptionalExtent(dAtA: array<byte>, end: nat, tag: byte, e: ExtentObject?, ghost before: Bytes,
                               ghost hi: nat, ghost tail: Bytes)
    returns (i: nat)
    requires Filled(dAtA[..], before, end, hi, tail)
    requires |OptionalExtentField(tag, OptionalValue(e))| <= end
    modifies dAtA
    ensures i == end - |OptionalExtentField(tag, OptionalValue(e))|
    ensures Filled(dAtA[..], before, i, hi, OptionalExtentField(tag, OptionalValue(e)) + tail)
  {
    hide BytesField, ExtentBytes;
    i := end;
    if e != null {
      ghost var mid := dAtA[..];
      i := PutExtent(dAtA, i, tag, e);
      FilledThen(dAtA[..], mid, before, i, end, hi, BytesField(tag, ExtentBytes(e.Value())), tail);
    } else {
      assert [] + tail == tail;
    }
  }

  class CowMergeOperationObject {
    var kind: int32
    var srcExtent: ExtentObject?
    var dstExtent: ExtentObject?
    var srcOffset: uint32

    ghost function Value(): CowMergeOperation
      reads this, srcExtent, dstExtent
    {
      CowMergeOperation(kind, OptionalValue(srcExtent), OptionalValue(dstExtent), srcOffset)
    }

    /** The two extents are separate objects: Unmarshal updates them in place. */
    ghost predicate Separate()
      reads this
    {
      srcExtent != null ==> srcExtent != dstExtent
    }

    constructor ()
      ensures Value() == NO_MERGE && Separate()
    {
      kind, srcExtent, dstExtent, srcOffset := 0, null, null, 0;
    }

    method Size() returns (n: nat)
      ensures n == |MergeBytes(Value())|
    {
      hide MergeBytes, VarintField, OptionalExtentField, Sov;
      MergeParts(Value());
      VarintFieldSize(0x08, ToUint64(kind));
      n := 1 + Sov(ToUint64(kind));
      var l := SizeOfExtent(srcExtent, 0x12);
      n := n + l;
      l := SizeOfExtent(dstExtent, 0x1a);
      n := n + l;
      VarintFieldSize(0x20, srcOffset);
      n := n + (1 + Sov(srcOffset));
    }

    method MarshalToSizedBuffer(dAtA: array<byte>, hi: nat) returns (n: nat)
      requires |MergeBytes(Value())| <= hi <= dAtA.Length
      modifies dAtA
      ensures n == |MergeBytes(Value())|
      ensures Filled(dAtA[..], old(dAtA[..]), hi - n, hi, MergeBytes(Value()))
    {
      hide VarintField, OptionalExtentField, Filled;
      MergeParts(Value());
      ghost var c, before := Value(), dAtA[..];
      FilledNothing(before, hi);
      var i := PrependVarintField(dAtA, hi, 0x20, srcOffset, before, hi, []);
      ghost var t := VarintField(0x20, c.srcOffset);
      assert t + [] == t;
      i := PrependOptionalExtent(dAtA, i, 0x1a, dstExtent, before, hi, t);
      t := OptionalExtentField(0x1a, c.dstExtent) + t;
      i := PrependOptionalExtent(dAtA, i, 0x12, srcExtent, before, hi, t);
      t := OptionalExtentField(0x12, c.srcExtent) + t;
      i := PrependVarintField(dAtA, i, 0x08, ToUint64(kind), before, hi, t);
      n := hi - i;
    }

    /** A buffer of exactly Size() bytes, every one of them written. */
    method Marshal() returns (dAtA: array<byte>)
      ensures fresh(dAtA) && dAtA[..] == MergeBytes(Value())
    {
      hide MergeBytes;
      var size := Size();
      dAtA := new byte[size];
      var n := MarshalToSizedBuffer(dAtA, size);
      assert n == size;
    }

    /** The switch, for field numbers 1 to 4: an extent that is already there is merged into. */
    method SetKnownField(dAtA: Bytes, iNdEx: nat, tag: Tag) returns (err: Option<Error>, next: nat)
      requires iNdEx <= |dAtA| < TWO63 && 1 <= tag.field <= 4 && Separate()
      modifies this, srcExtent, dstExtent
      ensures Separate()
      ensures srcExtent == old(srcExtent) || (srcExtent != null && fresh(srcExtent))
      ensures dstExtent == old(dstExtent) || (dstExtent != null && fresh(dstExtent))
      ensures match SetField(AMerge(old(Value())), tag, dAtA[iNdEx..], iNdEx)
              case Bad(e) => err == Some(e)
              case Got(m, n) => err == None && AMerge(Value()) == m && next == iNdEx + n
    {
      hide ReadScalar, ReadExtent;
      err, next := None, iNdEx;
      if tag.field == 2 {
        if srcExtent == null { srcExtent := new ExtentObject(); }
        err, next := ReadIntoExtent(dAtA, iNdEx, tag, srcExtent);
      } else if tag.field == 3 {
        if dstExtent == null { dstExtent := new ExtentObject(); }
        err, next := ReadIntoExtent(dAtA, iNdEx, tag, dstExtent);
      } else {
        var v := DecodeScalar(dAtA, iNdEx, tag);
        if v.Bad? { err := Some(v.error); return; }
        next := iNdEx + v.len;
        if tag.field == 1 { kind := ToInt32(v.value); } else { srcOffset := ToUint32(v.value); }
      }
    }

    method Unmarshal(dAtA: Bytes) returns (err: Option<Error>)
      requires |dAtA| < TWO63 && Separate()
      modifies this, srcExtent, dstExtent
      ensures Separate()
      ensures match Messages.Unmarshal(AMerge(old(Value())), dAtA)
              case Ok(m) => err == None && AMerge(Value()) == m
              case Err(e) => err == Some(e)
    {
      hide Step, ReadTag, SetField, SkipField;
      ghost var goal := Run(AMerge(Value()), dAtA, 0);
      var iNdEx := 0;
      assert dAtA[0..] == dAtA;
      while iNdEx < |dAtA|
        invariant iNdEx <= |dAtA| && Separate()
        invariant srcExtent == old(srcExtent) || (srcExtent != null && fresh(srcExtent))
        invariant dstExtent == old(dstExtent) || (dstExtent != null && fresh(dstExtent))
        invariant goal == Run(AMerge(Value()), dAtA[iNdEx..], iNdEx)
      {
        ghost var m := AMerge(Value());
        RunTurn(m, dAtA, iNdEx);
        StepByTag(m, dAtA, iNdEx);
        var tag := DecodeTag(dAtA, iNdEx);
        if tag.Bad? { return Some(tag.error); }
        if 1 <= tag.value.field <= 4 {
          err, iNdEx := SetKnownField(dAtA, iNdEx + tag.len, tag.value);
        } else {
          err, iNdEx := DecodeUnknown(dAtA, iNdEx, m);
        }
        if err.Some? { return; }
      }
      assert iNdEx == |dAtA|;
      return None;
    }
  }
}
