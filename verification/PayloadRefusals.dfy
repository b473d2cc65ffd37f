/** When the operation loop stops, and with what: the first operation it does not carry out decides, and the image
    then holds what was written before. */
module PayloadRefusals {
  import opened Words
  import opened Messages
  import opened Payload
  import opened PayloadLaws

  // ---- One operation ------------------------------------------------------------------------

  /** An operation that is read at all is read from within the file. */
  predicate Readable(op: InstallOperation, base: nat, src: Source) {
    op.dataLength == 0 || op.dataOffset == 0 || op.dataLength >= TWO63 || BlobInFile(op, base, src)
  }

  /** The extents before the first that is too long for a buffer. */
  function Leading(extents: seq<Extent>): seq<Extent> {
    if extents == [] || extents[0].numBlocks >= 0x8000_0000_0000_0000 then [] else [extents[0]] + Leading(extents[1..])
  }

  /** The guards, in their order; types 0, 1, 6 and 8 are REPLACE, REPLACE_BZ, ZERO and REPLACE_XZ. */
  function Verdict(op: InstallOperation, base: nat, src: Source): Outcome
    requires Readable(op, base, src)
  {
    if op.dataLength == 0 then NoDataLength
    else if op.dataOffset == 0 then NoDataOffset
    else if op.dataLength >= 0x8000_0000_0000_0000 then Panicked
    else if op.dstExtents == [] then Panicked
    else if op.kind == 0 then Done
    else if op.kind == 6 then (if Leading(op.dstExtents) == op.dstExtents then Done else Panicked)
    else if op.kind == 1 || op.kind == 8 then
      (if src.decompress(Blob(op, base, src)).Some? then Done else DecompressionFailed)
    else UnsupportedType
  }

  /** What is written, in the end or in vain. */
  function Written(op: InstallOperation, base: nat, src: Source): seq<Write>
    requires Readable(op, base, src)
  {
    if op.dataLength == 0 || op.dataOffset == 0 || op.dataLength >= TWO63 || op.dstExtents == [] then []
    else
      var pos := op.dstExtents[0].startBlock * src.blockSize;
      if op.kind == 0 then [Write(pos, Blob(op, base, src))]
      else if op.kind == 6 then ZeroWrites(Leading(op.dstExtents), src.blockSize)
      else if op.kind == 1 || op.kind == 8 then
        match src.decompress(Blob(op, base, src))
        case Some(d) => [Write(pos, d)]
        case None => []
      else []
  }

  /** No sum leaves 63 bits. */
  predicate InRange(op: InstallOperation, base: nat, src: Source) {
    Readable(op, base, src) && WritesFit(Written(op, base, src))
  }

  /** The operations that are carried out are those that are accepted. */
  lemma AcceptedIff(op: InstallOperation, base: nat, src: Source)
    requires InRange(op, base, src)
    ensures Accepted(op, base, src) <==> Verdict(op, base, src) == Done
    ensures Accepted(op, base, src) ==> Written(op, base, src) == OpWrites(op, base, src)
  {
    hide Blob, WritesFit;
    if op.kind == ZERO && BlobInFile(op, base, src) && op.dstExtents != [] {
      if WritesFit(ZeroWrites(op.dstExtents, src.blockSize)) {
        FitsIsLeading(op.dstExtents, src.blockSize);
      }
    }
  }

  lemma {:induction false} FitsIsLeading(extents: seq<Extent>, blockSize: uint32)
    requires WritesFit(ZeroWrites(extents, blockSize))
    ensures Leading(extents) == extents
  {
    hide WritesFit;
    if extents != [] {
      var ws := ZeroWrites(extents, blockSize);
      FirstFits(ws);
      assert ws[1..] == ZeroWrites(extents[1..], blockSize);
      FitsIsLeading(extents[1..], blockSize);
    }
  }

  lemma {:induction false} ZeroExtentsStop(m: Machine, extents: seq<Extent>, blockSize: uint32)
    requires Leading(extents) != extents && WritesFit(ZeroWrites(Leading(extents), blockSize))
    ensures var s := ZeroExtents(m, extents, blockSize);
            s.outcome == Panicked && s.machine.image == WriteAll(m.image, ZeroWrites(Leading(extents), blockSize))
    decreases extents
  {
    hide WriteAt, WritesFit;
    if extents[0].numBlocks < TWO63 {
      var ws := ZeroWrites(Leading(extents), blockSize);
      assert Leading(extents)[1..] == Leading(extents[1..]);
      FirstFits(ws);
      NoWrap(extents[0].startBlock, blockSize);
      assert ws[1..] == ZeroWrites(Leading(extents[1..]), blockSize);
      var m' := Put(m, MulUint64(extents[0].startBlock, blockSize), Zeros(extents[0].numBlocks));
      ZeroExtentsStop(m', extents[1..], blockSize);
    } else {
      assert ZeroWrites([], blockSize) == [];
    }
  }

  lemma RefusedWrites(m: Machine, op: InstallOperation, base: nat, src: Source)
    requires InRange(op, base, src) && BlobInFile(op, base, src) && Verdict(op, base, src) != Done
    ensures var s := WriteOut(m, op, Blob(op, base, src), src);
            s.outcome == Verdict(op, base, src) && s.machine.image == WriteAll(m.image, Written(op, base, src))
  {
    hide WriteAt, ZeroExtents, Blob, WritesFit;
    if op.dstExtents != [] && op.kind == ZERO {
      ZeroExtentsStop(m, op.dstExtents, src.blockSize);
    }
  }

  lemma ExecuteVerdict(m: Machine, op: InstallOperation, base: nat, src: Source)
    requires InRange(op, base, src) && InStep(m, base, src)
    ensures var s := Execute(m, op, src);
            && s.outcome == Verdict(op, base, src)
            && s.machine.image == WriteAll(m.image, Written(op, base, src))
            && (s.outcome == Done ==> InStep(s.machine, base, src))
  {
    hide WriteOut, WriteAll, Blob, WritesFit, Leading, ZeroWrites;
    if op.dataLength == 0 || op.dataOffset == 0 || op.dataLength >= TWO63 {
      NothingWritten(m.image);
    } else {
      ExecuteReadsBlob(m, op, base, src);
      var m' := m.(readPos := base + op.dataOffset + op.dataLength,
                   currDataOffset := op.dataOffset + op.dataLength);
      AcceptedIff(op, base, src);
      if Verdict(op, base, src) == Done {
        WriteOutWrites(m', op, base, src);
      } else {
        RefusedWrites(m', op, base, src);
      }
    }
  }

  lemma NothingWritten(image: Bytes)
    ensures WriteAll(image, []) == image
  {
  }

  // ---- The loop -------------------------------------------------------------------------------

  predicate AllInRange(ops: seq<InstallOperation>, base: nat, src: Source) {
    forall i :: 0 <= i < |ops| ==> InRange(ops[i], base, src)
  }

  /** The number of operations carried out before the first that is not. */
  function CarriedOut(ops: seq<InstallOperation>, base: nat, src: Source): (k: nat)
    requires AllInRange(ops, base, src)
    ensures k <= |ops|
    ensures forall i :: 0 <= i < k ==> Verdict(ops[i], base, src) == Done
    ensures k < |ops| ==> Verdict(ops[k], base, src) != Done
  {
    if ops == [] || Verdict(ops[0], base, src) != Done then 0 else 1 + CarriedOut(ops[1..], base, src)
  }

  function WrittenByAll(ops: seq<InstallOperation>, base: nat, src: Source): seq<Write>
    requires AllInRange(ops, base, src)
  {
    if ops == [] then [] else Written(ops[0], base, src) + WrittenByAll(ops[1..], base, src)
  }

  /** The loop reports success exactly if it carries every operation out. Otherwise it reports what the first other
      one is refused for, and the image holds the writes before it, with the zeros that one wrote before it stopped. */
  lemma {:induction false} FirstRefusalDecides(m: Machine, ops: seq<InstallOperation>, base: nat, src: Source)
    requires AllInRange(ops, base, src) && InStep(m, base, src)
    ensures var s, k := ExecuteAll(m, ops, src), CarriedOut(ops, base, src);
            && s.outcome == (if k == |ops| then Done else Verdict(ops[k], base, src))
            && s.machine.image == WriteAll(m.image, WrittenByAll(if k == |ops| then ops else ops[..k + 1], base, src))
    decreases ops
  {
    hide Execute, Verdict, Written, WriteAll, Readable, WritesFit, InStep;
    if ops == [] {
      NothingWritten(m.image);
    } else {
      var s := Execute(m, ops[0], src);
      ExecuteVerdict(m, ops[0], base, src);
      if s.outcome != Done {
        assert ops[..1][1..] == [];
        assert ops[..1][0] == ops[0];
        assert WrittenByAll(ops[..1], base, src) == Written(ops[0], base, src) + WrittenByAll([], base, src);
        assert Written(ops[0], base, src) + [] == Written(ops[0], base, src);
      } else {
        var more, k := ops[1..], CarriedOut(ops[1..], base, src);
        FirstRefusalDecides(s.machine, more, base, src);
        var rest := if k == |more| then more else more[..k + 1];
        WriteAllAppend(m.image, Written(ops[0], base, src), WrittenByAll(rest, base, src));
        if k < |more| { assert ops[..k + 2][1..] == more[..k + 1]; }
      }
    }
  }

  // ---- What is written --------------------------------------------------------------------------

  /** ZERO writes, for every extent, as many zero bytes as the extent has blocks, where its first block begins. */
  lemma {:induction false} ZeroWritesAre(extents: seq<Extent>, blockSize: uint32, i: nat)
    requires i < |extents|
    ensures |ZeroWrites(extents, blockSize)| == |extents|
    ensures var w := ZeroWrites(extents, blockSize)[i];
            && w.pos == extents[i].startBlock * blockSize && |w.bytes| == extents[i].numBlocks
            && forall k :: 0 <= k < |w.bytes| ==> w.bytes[k] == 0
  {
    if |extents| == 1 {
      assert ZeroWrites(extents[1..], blockSize) == [];
    } else {
      ZeroWritesAre(extents[1..], blockSize, if i == 0 then 0 else i - 1);
    }
  }

  /** The other types write their blob, or what it decompresses to, where the first extent begins; the further
      extents are not looked at. */
  lemma BlobWritesAre(op: InstallOperation, base: nat, src: Source)
    requires Accepted(op, base, src) && op.kind != 6
    ensures var blob := src.file[base + op.dataOffset..base + op.dataOffset + op.dataLength];
            && (op.kind != 0 ==> src.decompress(blob).Some?)
            && OpWrites(op, base, src) ==
               [Write(op.dstExtents[0].startBlock * src.blockSize,
                      if op.kind == 0 then blob else src.decompress(blob).value)]
  {
  }

  // ---- Seeking and reading --------------------------------------------------------------------------

  /** A seek to a position that a signed number cannot hold leaves the file where it is. A buffer holds the bytes of
      the file from the position on, and zeros where the file has ended. */
  lemma ReadAtByte(file: Bytes, pos: nat, len: nat, i: nat, target: int)
    requires i < len
    ensures SeekTo(pos, target) == if target < 0 || target >= 0x8000_0000_0000_0000 then pos else target
    ensures ReadAt(file, pos, len)[i] == if pos + i < |file| then file[pos + i] else 0
    ensures BytesRead(file, pos, len) <= len
    ensures pos + i < |file| <==> i < BytesRead(file, pos, len)
  {
  }
}
