/** The loop that carries out the install operations of a full payload: relative seeks computed in
    wrapping arithmetic on the way in, absolute seeks and writes on the way out. */
module Payload {
  import opened Words
  import opened Messages

  const REPLACE: int32 := 0
  const REPLACE_BZ: int32 := 1
  const ZERO: int32 := 6
  const REPLACE_XZ: int32 := 8

  /** The input file, the block size and the decompressor (which is not part of this model). */
  datatype Source = Source(file: Bytes, blockSize: uint32, decompress: Bytes -> Option<Bytes>)

  // ---- Files ----------------------------------------------------------------------------------

  /** The position after a seek; one to a negative or too large position fails, and the callers do
      not look. */
  function SeekTo(pos: nat, target: int): nat {
    if 0 <= target < TWO63 then target else pos
  }

  /** What Read puts into a fresh buffer of `len` bytes: what there is, then zeros. */
  function ReadAt(file: Bytes, pos: nat, len: nat): (s: Bytes)
    ensures |s| == len
  {
    if pos >= |file| then Zeros(len)
    else if pos + len <= |file| then file[pos..pos + len]
    else file[pos..] + Zeros(pos + len - |file|)
  }

  function BytesRead(file: Bytes, pos: nat, len: nat): nat {
    if pos >= |file| then 0 else if pos + len <= |file| then len else |file| - pos
  }

  /** A file after a write: a gap before it reads as zeros, an empty write does nothing. */
  function WriteAt(image: Bytes, pos: nat, bytes: Bytes): (r: Bytes)
    ensures |r| == if bytes == [] || pos + |bytes| <= |image| then |image| else pos + |bytes|
  {
    if bytes == [] then image
    else
      var front := if pos <= |image| then image[..pos] else image + Zeros(pos - |image|);
      var back := if pos + |bytes| <= |image| then image[pos + |bytes|..] else [];
      front + bytes + back
  }

  // ---- One operation ----------------------------------------------------------------------------

  datatype Outcome = Done | NoDataLength | NoDataOffset | DecompressionFailed | UnsupportedType | Panicked

  /** The reader, the offset it is believed to stand at, and the output file. */
  datatype Machine = Machine(readPos: nat, currDataOffset: int64, image: Bytes, outPos: nat)

  datatype Stepped = Stepped(machine: Machine, outcome: Outcome)

  /** Seek and write. */
  function Put(m: Machine, target: uint64, bytes: Bytes): Machine {
    var pos := SeekTo(m.outPos, ToInt64(target));
    m.(image := WriteAt(m.image, pos, bytes), outPos := pos + |bytes|)
  }

  function ZeroExtents(m: Machine, extents: seq<Extent>, blockSize: uint32): Stepped
    decreases extents
  {
    if extents == [] then Stepped(m, Done)
    else if extents[0].numBlocks >= TWO63 then Stepped(m, Panicked)
    else
      var m' := Put(m, MulUint64(extents[0].startBlock, blockSize), Zeros(extents[0].numBlocks));
      ZeroExtents(m', extents[1..], blockSize)
  }

  /** The switch on the operation type, with the blob that was read. */
  function WriteOut(m: Machine, op: InstallOperation, buf: Bytes, src: Source): Stepped {
    if op.dstExtents == [] then Stepped(m, Panicked)
    else
      var outOffset := MulUint64(op.dstExtents[0].startBlock, src.blockSize);
      if op.kind == REPLACE then Stepped(Put(m, outOffset, buf), Done)
      else if op.kind == ZERO then ZeroExtents(m, op.dstExtents, src.blockSize)
      else if op.kind == REPLACE_BZ || op.kind == REPLACE_XZ then
        match src.decompress(buf)
        case Some(d) => Stepped(Put(m, outOffset, d), Done)
        case None => Stepped(m.(outPos := SeekTo(m.outPos, ToInt64(outOffset))), DecompressionFailed)
      else Stepped(m, UnsupportedType)
  }

  /** The reader after the relative seek. */
  function SkipTo(m: Machine, op: InstallOperation): nat {
    var skip := SubUint64(op.dataOffset, ToUint64(m.currDataOffset));
    SeekTo(m.readPos, m.readPos + ToInt64(skip))
  }

  function Execute(m: Machine, op: InstallOperation, src: Source): Stepped {
    if op.dataLength == 0 then Stepped(m, NoDataLength)
    else if op.dataOffset == 0 then Stepped(m, NoDataOffset)
    else if op.dataLength >= TWO63 then Stepped(m, Panicked)
    else
      var pos := SkipTo(m, op);
      var buf := ReadAt(src.file, pos, op.dataLength);
      var m' := m.(readPos := pos + BytesRead(src.file, pos, op.dataLength),
                   currDataOffset := AddInt64(ToInt64(op.dataOffset), ToInt64(op.dataLength)));
      WriteOut(m', op, buf, src)
  }

  function ExecuteAll(m: Machine, ops: seq<InstallOperation>, src: Source): Stepped
    decreases ops
  {
    if ops == [] then Stepped(m, Done)
    else
      var s := Execute(m, ops[0], src);
      if s.outcome != Done then s else ExecuteAll(s.machine, ops[1..], src)
  }

  // ---- The loop, on files ------------------------------------------------------------------------

  class Reader {
    const content: Bytes
    var pos: nat

    constructor (content: Bytes, pos: nat)
      ensures this.content == content && this.pos == pos
    {
      this.content, this.pos := content, pos;
    }

    method SeekCurrent(offset: int64)
      modifies this
      ensures pos == SeekTo(old(pos), old(pos) + offset)
    {
      if 0 <= pos + offset < TWO63 { pos := pos + offset; }
    }

    method Read(len: nat) returns (buf: Bytes)
      modifies this
      ensures buf == ReadAt(content, old(pos), len) && pos == old(pos) + BytesRead(content, old(pos), len)
    {
      buf := ReadAt(content, pos, len);
      pos := pos + BytesRead(content, pos, len);
    }
  }

  class OutFile {
    var content: Bytes
    var pos: nat

    constructor ()
      ensures content == [] && pos == 0
    {
      content, pos := [], 0;
    }

    method SeekStart(offset: int64)
      modifies this
      ensures content == old(content) && pos == SeekTo(old(pos), offset)
    {
      if 0 <= offset { pos := offset; }
    }

    method Write(bytes: Bytes)
      modifies this
      ensures content == WriteAt(old(content), old(pos), bytes) && pos == old(pos) + |bytes|
    {
      content := WriteAt(content, pos, bytes);
      pos := pos + |bytes|;
    }
  }

  predicate SortedByOffset(ops: seq<InstallOperation>) {
    forall i, j :: 0 <= i < j < |ops| ==> ops[i].dataOffset <= ops[j].dataOffset
  }

  function Insert(op: InstallOperation, s: seq<InstallOperation>): seq<InstallOperation> {
    if s == [] || op.dataOffset <= s[0].dataOffset then [op] + s else [s[0]] + Insert(op, s[1..])
  }

  lemma SortedTail(s: seq<InstallOperation>)
    requires SortedByOffset(s) && s != []
    ensures SortedByOffset(s[1..])
    ensures forall p :: p in s[1..] ==> s[0].dataOffset <= p.dataOffset
  {
    assert forall i :: 0 <= i < |s[1..]| ==> s[1..][i] == s[i + 1];
  }

  lemma SortedCons(op: InstallOperation, s: seq<InstallOperation>)
    requires SortedByOffset(s) && forall p :: p in s ==> op.dataOffset <= p.dataOffset
    ensures SortedByOffset([op] + s)
  {
    var t := [op] + s;
    forall i, j | 0 <= i < j < |t| ensures t[i].dataOffset <= t[j].dataOffset {
      assert t[j] == s[j - 1];
      if i > 0 { assert t[i] == s[i - 1]; }
    }
  }

  lemma {:induction false} InsertSorts(op: InstallOperation, s: seq<InstallOperation>)
    requires SortedByOffset(s)
    ensures SortedByOffset(Insert(op, s)) && multiset(Insert(op, s)) == multiset(s) + multiset{op}
  {
    hide SortedByOffset;
    if s == [] {
      SortedCons(op, s);
    } else {
      assert s == [s[0]] + s[1..];
      SortedTail(s);
      if op.dataOffset <= s[0].dataOffset {
        SortedCons(op, s);
        assert multiset([op] + s) == multiset(s) + multiset{op};
      } else {
        InsertSorts(op, s[1..]);
        var t := Insert(op, s[1..]);
        forall p | p in t ensures s[0].dataOffset <= p.dataOffset {
          assert p in multiset(t);
        }
        SortedCons(s[0], t);
        assert multiset([s[0]] + t) == multiset{s[0]} + multiset(t);
      }
    }
  }

  /** sort.Slice: operations with equal offsets end up in an order nothing is promised about. */
  method SortSlice(ops: seq<InstallOperation>) returns (sorted: seq<InstallOperation>)
    ensures multiset(sorted) == multiset(ops) && SortedByOffset(sorted)
    decreases |ops|
  {
    if ops == [] { return []; }
    assert ops == [ops[0]] + ops[1..];
    var rest := SortSlice(ops[1..]);
    InsertSorts(ops[0], rest);
    return Insert(ops[0], rest);
  }

  ghost function StateOf(reader: Reader, currDataOffset: int64, out: OutFile): Machine
    reads reader, out
  {
    Machine(reader.pos, currDataOffset, out.content, out.pos)
  }

  /** The operation loop over a sorted list. */
  method ExtractSorted(reader: Reader, out: OutFile, operations: seq<InstallOperation>, src: Source)
    returns (outcome: Outcome, ghost end: int64)
    requires src.file == reader.content
    modifies reader, out
    ensures Stepped(StateOf(reader, end, out), outcome) ==
            ExecuteAll(old(Machine(reader.pos, 0, out.content, out.pos)), operations, src)
  {
    hide WriteOut, ReadAt, WriteAt;
    var currDataOffset: int64 := 0;
    ghost var goal := ExecuteAll(StateOf(reader, 0, out), operations, src);
    assert operations[0..] == operations;
    for i := 0 to |operations|
      invariant goal == ExecuteAll(StateOf(reader, currDataOffset, out), operations[i..], src)
    {
      var operation := operations[i];
      assert operations[i..][1..] == operations[i + 1..];
      ghost var m := StateOf(reader, currDataOffset, out);
      end := currDataOffset;
      var dataLen, dataOffset := operation.dataLength, operation.dataOffset;
      if dataLen == 0 { return NoDataLength, end; }
      if dataOffset == 0 { return NoDataOffset, end; }
      if dataLen >= TWO63 { return Panicked, end; }
      var skip := SubUint64(dataOffset, ToUint64(currDataOffset));
      reader.SeekCurrent(ToInt64(skip));
      var buf := reader.Read(dataLen);
      currDataOffset := AddInt64(ToInt64(dataOffset), ToInt64(dataLen));
      end := currDataOffset;
      outcome := WriteByType(reader, out, currDataOffset, operation, buf, src);
      if outcome != Done { return; }
    }
    assert operations[|operations|..] == [];
    return Done, currDataOffset;
  }

  method WriteByType(reader: Reader, out: OutFile, ghost curr: int64, op: InstallOperation, buf: Bytes, src: Source)
    returns (outcome: Outcome)
    modifies out
    ensures Stepped(StateOf(reader, curr, out), outcome) == WriteOut(old(StateOf(reader, curr, out)), op, buf, src)
  {
    hide WriteAt;
    if |op.dstExtents| == 0 { return Panicked; }
    var outOffset := MulUint64(op.dstExtents[0].startBlock, src.blockSize);
    if op.kind == REPLACE {
      out.SeekStart(ToInt64(outOffset));
      out.Write(buf);
    } else if op.kind == ZERO {
      ghost var m := StateOf(reader, curr, out);
      var extents := op.dstExtents;
      assert extents[0..] == extents;
      for k := 0 to |extents|
        invariant ZeroExtents(m, extents, src.blockSize) ==
                  ZeroExtents(StateOf(reader, curr, out), extents[k..], src.blockSize)
      {
        assert extents[k..][1..] == extents[k + 1..];
        var outSeek := MulUint64(extents[k].startBlock, src.blockSize);
        var numBlocks := extents[k].numBlocks;
        if numBlocks >= TWO63 { return Panicked; }
        out.SeekStart(ToInt64(outSeek));
        out.Write(Zeros(numBlocks));
      }
      assert extents[|extents|..] == [];
    } else if op.kind == REPLACE_BZ || op.kind == REPLACE_XZ {
      out.SeekStart(ToInt64(outOffset));
      var d := src.decompress(buf);
      if d.None? { return DecompressionFailed; }
      out.Write(d.value);
    } else {
      return UnsupportedType;
    }
    return Done;
  }
}
