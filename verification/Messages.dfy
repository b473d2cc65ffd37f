/** The messages Extent, InstallOperation and CowMergeOperation: what Marshal writes, and the
    field loop of Unmarshal as a function of the message so far and the unread bytes. */
module Messages {
  import opened Words
  import opened Varint
  import opened Wire

  datatype Extent = Extent(startBlock: uint64, numBlocks: uint64)

  /** A nil byte slice is None: Marshal leaves the field out only then. */
  datatype InstallOperation = InstallOperation(
    kind: int32,
    dataOffset: uint64,
    dataLength: uint64,
    srcExtents: seq<Extent>,
    srcLength: uint64,
    dstExtents: seq<Extent>,
    dstLength: uint64,
    dataSha256Hash: Option<Bytes>,
    srcSha256Hash: Option<Bytes>)

  datatype CowMergeOperation = CowMergeOperation(
    kind: int32,
    srcExtent: Option<Extent>,
    dstExtent: Option<Extent>,
    srcOffset: uint32)

  /** The state of a field loop. `hasType` is the bit kept for InstallOperation's required field. */
  datatype Message =
    | AnExtent(extent: Extent)
    | AnOperation(op: InstallOperation, hasType: bool)
    | AMerge(merge: CowMergeOperation)

  datatype Result = Ok(message: Message) | Err(error: Error)

  const NO_EXTENT := Extent(0, 0)
  const NO_OPERATION := InstallOperation(0, 0, 0, [], 0, [], 0, None, None)
  const NO_MERGE := CowMergeOperation(0, None, None, 0)

  predicate SameKind(a: Message, b: Message) {
    a.AnExtent? == b.AnExtent? && a.AnOperation? == b.AnOperation? && a.AMerge? == b.AMerge?
  }

  // ---- Marshal --------------------------------------------------------------------

  function VarintField(tag: byte, v: uint64): Bytes {
    [tag] + VarintBytes(v)
  }

  function BytesField(tag: byte, payload: Bytes): Bytes {
    [tag] + VarintBytes(|payload|) + payload
  }

  function OptionalBytesField(tag: byte, payload: Option<Bytes>): Bytes {
    if payload.None? then [] else BytesField(tag, payload.value)
  }

  function ExtentBytes(e: Extent): Bytes {
    VarintField(0x08, e.startBlock) + VarintField(0x10, e.numBlocks)
  }

  function ExtentsField(tag: byte, es: seq<Extent>): Bytes {
    if es == [] then [] else BytesField(tag, ExtentBytes(es[0])) + ExtentsField(tag, es[1..])
  }

  function OptionalExtentField(tag: byte, e: Option<Extent>): Bytes {
    if e.None? then [] else BytesField(tag, ExtentBytes(e.value))
  }

  /** Fields 5 to 9. */
  function OperationTail(o: InstallOperation): Bytes {
    VarintField(0x28, o.srcLength) + (
      ExtentsField(0x32, o.dstExtents) + (
        VarintField(0x38, o.dstLength) + (
          OptionalBytesField(0x42, o.dataSha256Hash) +
          OptionalBytesField(0x4a, o.srcSha256Hash))))
  }

  function OperationBytes(o: InstallOperation): Bytes {
    VarintField(0x08, ToUint64(o.kind)) + (
      VarintField(0x10, o.dataOffset) + (
        VarintField(0x18, o.dataLength) + (
          ExtentsField(0x22, o.srcExtents) + OperationTail(o))))
  }

  function MergeBytes(c: CowMergeOperation): Bytes {
    VarintField(0x08, ToUint64(c.kind)) + (
      OptionalExtentField(0x12, c.srcExtent) + (
        OptionalExtentField(0x1a, c.dstExtent) +
        VarintField(0x20, c.srcOffset)))
  }

  // ---- Unmarshal --------------------------------------------------------------------

  datatype Tag = Tag(field: int32, wireType: nat)

  /** The field number is cut to 32 bits before it is looked at. */
  function ReadTag(s: Bytes): (r: Scan<Tag>)
    ensures r.Got? ==> 1 <= r.len <= |s|
  {
    match ReadVarint(s)
    case Bad(e) => Bad(e)
    case Got(wire, n) =>
      var tag := Tag(ToInt32(wire / 8), wire % 8);
      if tag.wireType == 4 then Bad(EndGroupForNonGroup)
      else if tag.field <= 0 then Bad(IllegalTag)
      else Got(tag, n)
  }

  function ReadScalar(tag: Tag, s: Bytes): (r: Scan<uint64>)
    ensures r.Got? ==> r.len <= |s|
  {
    if tag.wireType != 0 then Bad(WrongWireType) else ReadVarint(s)
  }

  /** A length and that many bytes. `at` is the index of s[0] in the slice being parsed: only the
      choice between the two errors for an excessive length depends on it, through wrap-around. */
  function ReadPayload(tag: Tag, s: Bytes, at: nat): (r: Scan<Bytes>)
    ensures r.Got? ==> |r.value| < r.len <= |s|
  {
    if tag.wireType != 2 then Bad(WrongWireType)
    else match ReadVarint(s)
      case Bad(e) => Bad(e)
      case Got(u, n) =>
        if ToInt64(u) < 0 || at + n + u >= TWO63 then Bad(InvalidLength)
        else if n + u > |s| then Bad(UnexpectedEOF)
        else Got(s[n..n + u], n + u)
  }

  function SkipField(m: Message, s: Bytes, at: nat): (r: Scan<Message>)
    ensures r.Got? ==> 1 <= r.len <= |s| && r.value == m
  {
    match Skip(s, 0, 0)
    case NoSpan(e) => Bad(e)
    case Span(n) =>
      if at + n >= TWO63 then Bad(InvalidLength)
      else if n > |s| then Bad(UnexpectedEOF)
      else Got(m, n)
  }

  /** The field numbers with a case of their own. */
  predicate Known(m: Message, field: int32) {
    match m
    case AnExtent(_) => 1 <= field <= 2
    case AnOperation(_, _) => 1 <= field <= 9
    case AMerge(_) => 1 <= field <= 4
  }

  /** Unmarshal of a nested extent into `into`. */
  function ReadExtent(tag: Tag, s: Bytes, at: nat, into: Extent): (r: Scan<Extent>)
    ensures r.Got? ==> r.len <= |s|
    decreases |s|, 0
  {
    match ReadPayload(tag, s, at)
    case Bad(e) => Bad(e)
    case Got(payload, n) =>
      match Run(AnExtent(into), payload, 0)
      case Ok(m) => Got(m.extent, n)
      case Err(e) => Bad(e)
  }

  /** The switch on a known field number; `s` starts right after the tag. */
  function SetField(m: Message, tag: Tag, s: Bytes, at: nat): (r: Scan<Message>)
    requires Known(m, tag.field)
    ensures r.Got? ==> r.len <= |s| && SameKind(r.value, m)
    decreases |s|, 1
  {
    match m
    case AnExtent(e) =>
      (match tag.field
       case 1 => ReadScalar(tag, s).Map(v => AnExtent(e.(startBlock := v)))
       case _ => ReadScalar(tag, s).Map(v => AnExtent(e.(numBlocks := v))))
    case AnOperation(o, has) =>
      (match tag.field
       case 1 => ReadScalar(tag, s).Map(v => AnOperation(o.(kind := ToInt32(v)), true))
       case 2 => ReadScalar(tag, s).Map(v => AnOperation(o.(dataOffset := v), has))
       case 3 => ReadScalar(tag, s).Map(v => AnOperation(o.(dataLength := v), has))
       case 4 => ReadExtent(tag, s, at, NO_EXTENT).Map(e => AnOperation(o.(srcExtents := o.srcExtents + [e]), has))
       case 5 => ReadScalar(tag, s).Map(v => AnOperation(o.(srcLength := v), has))
       case 6 => ReadExtent(tag, s, at, NO_EXTENT).Map(e => AnOperation(o.(dstExtents := o.dstExtents + [e]), has))
       case 7 => ReadScalar(tag, s).Map(v => AnOperation(o.(dstLength := v), has))
       case 8 => ReadPayload(tag, s, at).Map(b => AnOperation(o.(dataSha256Hash := Some(b)), has))
       case _ => ReadPayload(tag, s, at).Map(b => AnOperation(o.(srcSha256Hash := Some(b)), has)))
    case AMerge(c) =>
      (match tag.field
       case 1 => ReadScalar(tag, s).Map(v => AMerge(c.(kind := ToInt32(v))))
       case 2 => ReadExtent(tag, s, at, OrEmpty(c.srcExtent)).Map(e => AMerge(c.(srcExtent := Some(e))))
       case 3 => ReadExtent(tag, s, at, OrEmpty(c.dstExtent)).Map(e => AMerge(c.(dstExtent := Some(e))))
       case _ => ReadScalar(tag, s).Map(v => AMerge(c.(srcOffset := ToUint32(v)))))
  }

  function OrEmpty(e: Option<Extent>): Extent {
    if e.None? then NO_EXTENT else e.value
  }

  /** One turn of the field loop: the new message and the number of bytes passed. */
  function Step(m: Message, s: Bytes, at: nat): (r: Scan<Message>)
    ensures r.Got? ==> 1 <= r.len <= |s| && SameKind(r.value, m)
    decreases |s|, 2
  {
    match ReadTag(s)
    case Bad(e) => Bad(e)
    case Got(tag, n) =>
      if !Known(m, tag.field) then SkipField(m, s, at)
      else match SetField(m, tag, s[n..], at + n)
        case Bad(e) => Bad(e)
        case Got(m', k) => Got(m', n + k)
  }

  /** The field loop from index `at`, with `s` left to read. */
  function Run(m: Message, s: Bytes, at: nat): (r: Result)
    ensures r.Ok? ==> SameKind(r.message, m)
    decreases |s|, 3
  {
    if s == [] then Ok(m)
    else match Step(m, s, at)
      case Bad(e) => Err(e)
      case Got(m', n) => Run(m', s[n..], at + n)
  }

  /** Unmarshal: the loop, and the check that the required field was seen. */
  function Unmarshal(m: Message, s: Bytes): (r: Result)
    ensures r.Ok? ==> SameKind(r.message, m)
  {
    var start := if m.AnOperation? then m.(hasType := false) else m;
    match Run(start, s, 0)
    case Err(e) => Err(e)
    case Ok(m') => if m'.AnOperation? && !m'.hasType then Err(RequiredNotSet) else Ok(m')
  }
}
