/** Every read lands on its own blob, and exactly when the order of the operations matters. */
module PayloadLaws {
  import opened Words
  import opened Messages
  import opened Payload

  // ---- Reading -----------------------------------------------------------------------------

  /** The blobs begin at `base`; this one lies within the file, with all sums below 2^63. */
  predicate BlobInFile(op: InstallOperation, base: nat, src: Source) {
    && op.dataLength > 0 && op.dataOffset > 0
    && base + op.dataOffset + op.dataLength <= |src.file| < TWO63
  }

  function Blob(op: InstallOperation, base: nat, src: Source): Bytes
    requires BlobInFile(op, base, src)
  {
    src.file[base + op.dataOffset..base + op.dataOffset + op.dataLength]
  }

  /** The reader is where the loop believes it to be. */
  predicate InStep(m: Machine, base: nat, src: Source) {
    && 0 <= m.currDataOffset && m.readPos == base + m.currDataOffset
    && m.readPos <= |src.file|
  }

  /** The wrapping difference, read as a signed number, is the distance to the blob, backwards
      if need be. */
  lemma SkipLands(m: Machine, op: InstallOperation, base: nat, src: Source)
    requires BlobInFile(op, base, src) && InStep(m, base, src)
    ensures SkipTo(m, op) == base + op.dataOffset
  {
  }

  /** Each operation works on exactly its own blob and leaves the reader in step. */
  lemma ExecuteReadsBlob(m: Machine, op: InstallOperation, base: nat, src: Source)
    requires BlobInFile(op, base, src) && InStep(m, base, src)
    ensures var m' := m.(readPos := base + op.dataOffset + op.dataLength,
                         currDataOffset := op.dataOffset + op.dataLength);
            && InStep(m', base, src)
            && Execute(m, op, src) == WriteOut(m', op, Blob(op, base, src), src)
  {
    hide WriteOut;
    SkipLands(m, op, base, src);
  }

  // ---- Writing -----------------------------------------------------------------------------

  datatype Write = Write(pos: nat, bytes: Bytes)

  /** What an operation that is accepted writes, in order. */
  function ZeroWrites(extents: seq<Extent>, blockSize: uint32): seq<Write> {
    if extents == [] then []
    else [Write(extents[0].startBlock * blockSize, Zeros(extents[0].numBlocks))] +
         ZeroWrites(extents[1..], blockSize)
  }

  function Writes(op: InstallOperation, base: nat, src: Source): seq<Write>
    requires BlobInFile(op, base, src) && op.dstExtents != []
  {
    var pos := op.dstExtents[0].startBlock * src.blockSize;
    var blob := Blob(op, base, src);
    if op.kind == REPLACE then [Write(pos, blob)]
    else if op.kind == ZERO then ZeroWrites(op.dstExtents, src.blockSize)
    else match src.decompress(blob)
      case Some(d) => [Write(pos, d)]
      case None => []
  }

  predicate WritesFit(ws: seq<Write>) {
    forall i :: 0 <= i < |ws| ==> ws[i].pos + |ws[i].bytes| < TWO63
  }

  /** The loop carries the operation out: its blob is in the file, its type is known, its data
      decompress, and no offset leaves 63 bits. */
  predicate Accepted(op: InstallOperation, base: nat, src: Source) {
    && BlobInFile(op, base, src) && op.dstExtents != []
    && (op.kind in {REPLACE, ZERO} ||
        (op.kind in {REPLACE_BZ, REPLACE_XZ} && src.decompress(Blob(op, base, src)).Some?))
    && WritesFit(Writes(op, base, src))
  }

  predicate AllAccepted(ops: seq<InstallOperation>, base: nat, src: Source) {
    forall op :: op in ops ==> Accepted(op, base, src)
  }

  function WriteAll(image: Bytes, ws: seq<Write>): Bytes
    decreases ws
  {
    if ws == [] then image else WriteAll(WriteAt(image, ws[0].pos, ws[0].bytes), ws[1..])
  }

  lemma NoWrap(block: uint64, blockSize: uint32)
    requires block * blockSize < TWO63
    ensures MulUint64(block, blockSize) == block * blockSize
    ensures ToInt64(MulUint64(block, blockSize)) == block * blockSize
  {
  }

  lemma FirstFits(ws: seq<Write>)
    requires ws != [] && WritesFit(ws)
    ensures ws[0].pos + |ws[0].bytes| < TWO63 && WritesFit(ws[1..])
  {
  }

  lemma {:induction false} ZeroExtentsWrites(m: Machine, extents: seq<Extent>, blockSize: uint32)
    requires WritesFit(ZeroWrites(extents, blockSize))
    ensures var s := ZeroExtents(m, extents, blockSize);
            && s.outcome == Done
            && s.machine.readPos == m.readPos && s.machine.currDataOffset == m.currDataOffset
            && s.machine.image == WriteAll(m.image, ZeroWrites(extents, blockSize))
    decreases extents
  {
    hide WriteAt, WritesFit;
    if extents != [] {
      var ws := ZeroWrites(extents, blockSize);
      FirstFits(ws);
      NoWrap(extents[0].startBlock, blockSize);
      assert ws[1..] == ZeroWrites(extents[1..], blockSize);
      var m' := Put(m, MulUint64(extents[0].startBlock, blockSize), Zeros(extents[0].numBlocks));
      ZeroExtentsWrites(m', extents[1..], blockSize);
    }
  }

  lemma WriteOutWrites(m: Machine, op: InstallOperation, base: nat, src: Source)
    requires Accepted(op, base, src)
    ensures var s := WriteOut(m, op, Blob(op, base, src), src);
            && s.outcome == Done
            && s.machine.readPos == m.readPos && s.machine.currDataOffset == m.currDataOffset
            && s.machine.image == WriteAll(m.image, Writes(op, base, src))
  {
    hide WriteAt, ZeroExtents, Blob;
    var ws := Writes(op, base, src);
    if ws != [] { FirstFits(ws); }
    if op.kind == ZERO {
      ZeroExtentsWrites(m, op.dstExtents, src.blockSize);
    } else {
      NoWrap(op.dstExtents[0].startBlock, src.blockSize);
      assert ws[1..] == [];
    }
  }

  function OpWrites(op: InstallOperation, base: nat, src: Source): seq<Write>
    requires Accepted(op, base, src)
  {
    Writes(op, base, src)
  }

  function AllWrites(ops: seq<InstallOperation>, base: nat, src: Source): seq<Write>
    requires AllAccepted(ops, base, src)
  {
    if ops == [] then [] else
      assert ops[0] in ops;
      OpWrites(ops[0], base, src) + AllWrites(ops[1..], base, src)
  }

  lemma {:induction false} WriteAllAppend(image: Bytes, a: seq<Write>, b: seq<Write>)
    ensures WriteAll(image, a + b) == WriteAll(WriteAll(image, a), b)
    decreases a
  {
    hide WriteAt;
    if a == [] {
      assert a + b == b;
    } else {
      assert (a + b)[1..] == a[1..] + b;
      WriteAllAppend(WriteAt(image, a[0].pos, a[0].bytes), a[1..], b);
    }
  }

  /** A run of accepted operations, in any order at all, completes, with the reader in step before
      every operation, and its image is made of their writes. */
  lemma {:induction false} ExecuteAllWrites(m: Machine, ops: seq<InstallOperation>, base: nat, src: Source)
    requires AllAccepted(ops, base, src) && InStep(m, base, src)
    ensures var s := ExecuteAll(m, ops, src);
            && s.outcome == Done
            && InStep(s.machine, base, src)
            && s.machine.image == WriteAll(m.image, AllWrites(ops, base, src))
    decreases ops
  {
    hide Execute, Writes, Blob, WriteAt, WritesFit, WriteOut;
    if ops != [] {
      var op := ops[0];
      assert op in ops && Accepted(op, base, src);
      ExecuteReadsBlob(m, op, base, src);
      var m' := m.(readPos := base + op.dataOffset + op.dataLength,
                   currDataOffset := op.dataOffset + op.dataLength);
      WriteOutWrites(m', op, base, src);
      WriteAllAppend(m.image, OpWrites(op, base, src), AllWrites(ops[1..], base, src));
      ExecuteAllWrites(Execute(m, op, src).machine, ops[1..], base, src);
    }
  }

  // ---- Images byte by byte ---------------------------------------------------------------------

  /** The byte at x, a file being followed by zeros without end. */
  function ByteAt(image: Bytes, x: nat): byte {
    if x < |image| then image[x] else 0
  }

  predicate Covers(w: Write, x: nat) {
    w.pos <= x < w.pos + |w.bytes|
  }

  /** The byte the last write over x leaves there. */
  function LastByte(ws: seq<Write>, x: nat): Option<byte> {
    if ws == [] then None
    else match LastByte(ws[1..], x)
      case Some(b) => Some(b)
      case None => if Covers(ws[0], x) then Some(ws[0].bytes[x - ws[0].pos]) else None
  }

  function End(w: Write): nat {
    if w.bytes == [] then 0 else w.pos + |w.bytes|
  }

  function MaxEnd(ws: seq<Write>): nat {
    if ws == [] then 0
    else if End(ws[0]) > MaxEnd(ws[1..]) then End(ws[0]) else MaxEnd(ws[1..])
  }

  lemma WriteAtByte(image: Bytes, w: Write, x: nat)
    ensures ByteAt(WriteAt(image, w.pos, w.bytes), x) ==
            if Covers(w, x) then w.bytes[x - w.pos] else ByteAt(image, x)
  {
  }

  lemma {:induction false} WriteAllByte(image: Bytes, ws: seq<Write>, x: nat)
    ensures ByteAt(WriteAll(image, ws), x) ==
            match LastByte(ws, x) { case Some(b) => b case None => ByteAt(image, x) }
    decreases ws
  {
    hide WriteAt, ByteAt, Covers;
    if ws != [] {
      WriteAtByte(image, ws[0], x);
      WriteAllByte(WriteAt(image, ws[0].pos, ws[0].bytes), ws[1..], x);
    }
  }

  lemma {:induction false} WriteAllLength(image: Bytes, ws: seq<Write>)
    ensures |WriteAll(image, ws)| == if MaxEnd(ws) > |image| then MaxEnd(ws) else |image|
    decreases ws
  {
    if ws != [] {
      WriteAllLength(WriteAt(image, ws[0].pos, ws[0].bytes), ws[1..]);
    }
  }

  lemma SameBytesSameImage(a: Bytes, b: Bytes)
    requires |a| == |b| && forall x: nat :: ByteAt(a, x) == ByteAt(b, x)
    ensures a == b
  {
    forall i | 0 <= i < |a| ensures a[i] == b[i] {
      assert ByteAt(a, i) == ByteAt(b, i);
    }
  }

  lemma {:induction false} LastByteAppend(a: seq<Write>, b: seq<Write>, x: nat)
    ensures LastByte(a + b, x) == if LastByte(b, x).Some? then LastByte(b, x) else LastByte(a, x)
  {
    hide Covers;
    if a == [] {
      assert a + b == b;
    } else {
      assert (a + b)[1..] == a[1..] + b;
      LastByteAppend(a[1..], b, x);
    }
  }

  lemma {:induction false} MaxEndAppend(a: seq<Write>, b: seq<Write>)
    ensures MaxEnd(a + b) == if MaxEnd(a) > MaxEnd(b) then MaxEnd(a) else MaxEnd(b)
  {
    if a == [] {
      assert a + b == b;
    } else {
      assert (a + b)[1..] == a[1..] + b;
      MaxEndAppend(a[1..], b);
    }
  }

  // ---- Order ---------------------------------------------------------------------------------------

  /** The byte an operation on its own leaves at x. */
  function Contribution(op: InstallOperation, base: nat, src: Source, x: nat): Option<byte>
    requires Accepted(op, base, src)
  {
    LastByte(OpWrites(op, base, src), x)
  }

  predicate AgreeAt(p: InstallOperation, q: InstallOperation, base: nat, src: Source, x: nat)
    requires Accepted(p, base, src) && Accepted(q, base, src)
  {
    var a, b := Contribution(p, base, src, x), Contribution(q, base, src, x);
    a.Some? && b.Some? ==> a == b
  }

  /** Wherever two operations write, they leave the same byte. */
  ghost predicate Agreeing(ops: seq<InstallOperation>, base: nat, src: Source)
    requires AllAccepted(ops, base, src)
  {
    forall p, q, x: nat | p in ops && q in ops :: AgreeAt(p, q, base, src, x)
  }

  /** The image of a run from the start of the blobs into an empty file. */
  function ImageOf(ops: seq<InstallOperation>, base: nat, src: Source): Bytes {
    ExecuteAll(Machine(base, 0, [], 0), ops, src).machine.image
  }

  lemma ImageIsWrites(ops: seq<InstallOperation>, base: nat, src: Source)
    requires AllAccepted(ops, base, src) && base <= |src.file|
    ensures ImageOf(ops, base, src) == WriteAll([], AllWrites(ops, base, src))
  {
    ExecuteAllWrites(Machine(base, 0, [], 0), ops, base, src);
  }

  /** The last operation over x decides. */
  lemma {:induction false} LastWriterDecides(ops: seq<InstallOperation>, base: nat, src: Source, x: nat)
    requires AllAccepted(ops, base, src)
    ensures var b := LastByte(AllWrites(ops, base, src), x);
            && (b.None? ==> forall op :: op in ops ==> Contribution(op, base, src, x) == None)
            && (b.Some? ==> exists op :: op in ops && Contribution(op, base, src, x) == b)
  {
    hide Accepted, OpWrites;
    if ops != [] {
      assert ops[0] in ops;
      assert ops == [ops[0]] + ops[1..];
      LastByteAppend(OpWrites(ops[0], base, src), AllWrites(ops[1..], base, src), x);
      LastWriterDecides(ops[1..], base, src, x);
      if LastByte(AllWrites(ops[1..], base, src), x).Some? {
        var op :| op in ops[1..] && Contribution(op, base, src, x) == LastByte(AllWrites(ops[1..], base, src), x);
        assert op in ops;
      } else {
        assert Contribution(ops[0], base, src, x) == LastByte(AllWrites(ops, base, src), x);
      }
    }
  }

  lemma {:induction false} MaxEndMember(ops: seq<InstallOperation>, base: nat, src: Source)
    requires AllAccepted(ops, base, src)
    ensures forall op :: op in ops ==> MaxEnd(OpWrites(op, base, src)) <= MaxEnd(AllWrites(ops, base, src))
    ensures ops == [] || exists op :: op in ops && MaxEnd(OpWrites(op, base, src)) == MaxEnd(AllWrites(ops, base, src))
  {
    hide Accepted, OpWrites, MaxEnd;
    if ops != [] {
      assert ops[0] in ops;
      assert ops == [ops[0]] + ops[1..];
      MaxEndAppend(OpWrites(ops[0], base, src), AllWrites(ops[1..], base, src));
      MaxEndMember(ops[1..], base, src);
      if ops[1..] == [] {
        assert MaxEnd(AllWrites(ops[1..], base, src)) == 0 by { assert MaxEnd([]) == 0 by { NoEnd(); } }
      }
      assert exists op :: op in ops && MaxEnd(OpWrites(op, base, src)) == MaxEnd(AllWrites(ops, base, src));
    }
  }

  lemma NoEnd()
    ensures MaxEnd([]) == 0
  {
  }

  lemma SameMembers(ops: seq<InstallOperation>, other: seq<InstallOperation>, base: nat, src: Source)
    requires multiset(ops) == multiset(other) && AllAccepted(ops, base, src)
    ensures forall op :: op in ops <==> op in other
    ensures AllAccepted(other, base, src)
    ensures Agreeing(ops, base, src) <==> Agreeing(other, base, src)
    ensures ops == [] <==> other == []
  {
    hide Accepted;
    forall op ensures op in ops <==> op in other {
      assert op in multiset(ops) <==> op in multiset(other);
    }
    assert |ops| == |multiset(ops)| == |multiset(other)| == |other|;
  }

  /** The length of the image never depends on the order. */
  lemma LengthIsOrderless(ops: seq<InstallOperation>, other: seq<InstallOperation>, base: nat, src: Source)
    requires AllAccepted(ops, base, src) && base <= |src.file| && multiset(ops) == multiset(other)
    ensures |ImageOf(ops, base, src)| == |ImageOf(other, base, src)|
  {
    hide Accepted, OpWrites, MaxEnd, ImageOf, WriteAll;
    SameMembers(ops, other, base, src);
    ImageIsWrites(ops, base, src);
    ImageIsWrites(other, base, src);
    WriteAllLength([], AllWrites(ops, base, src));
    WriteAllLength([], AllWrites(other, base, src));
    MaxEndMember(ops, base, src);
    MaxEndMember(other, base, src);
  }

  /** Where the operations agree, no order of them changes the image. */
  lemma AgreeingIsOrderless(ops: seq<InstallOperation>, other: seq<InstallOperation>, base: nat, src: Source)
    requires AllAccepted(ops, base, src) && base <= |src.file| && multiset(ops) == multiset(other)
    requires Agreeing(ops, base, src)
    ensures ImageOf(ops, base, src) == ImageOf(other, base, src)
  {
    hide Accepted, OpWrites, ImageOf, WriteAll, LastByte;
    SameMembers(ops, other, base, src);
    LengthIsOrderless(ops, other, base, src);
    var a, b := ImageOf(ops, base, src), ImageOf(other, base, src);
    forall x: nat ensures ByteAt(a, x) == ByteAt(b, x) {
      ImageByte(ops, base, src, x);
      ImageByte(other, base, src, x);
      LastWriterDecides(ops, base, src, x);
      LastWriterDecides(other, base, src, x);
      var u, v := LastByte(AllWrites(ops, base, src), x), LastByte(AllWrites(other, base, src), x);
      if u.Some? && v.Some? {
        var p :| p in ops && Contribution(p, base, src, x) == u;
        var q :| q in other && Contribution(q, base, src, x) == v;
        assert AgreeAt(p, q, base, src, x);
      }
    }
    SameBytesSameImage(a, b);
  }

  lemma ImageByte(ops: seq<InstallOperation>, base: nat, src: Source, x: nat)
    requires AllAccepted(ops, base, src) && base <= |src.file|
    ensures ByteAt(ImageOf(ops, base, src), x) ==
            match LastByte(AllWrites(ops, base, src), x) { case Some(b) => b case None => 0 }
  {
    hide Accepted, ImageOf, WriteAll, LastByte;
    ImageIsWrites(ops, base, src);
    WriteAllByte([], AllWrites(ops, base, src), x);
  }

  /** The same operations, with the k-th moved to the end. */
  function MoveToEnd(ops: seq<InstallOperation>, k: nat): seq<InstallOperation>
    requires k < |ops|
  {
    ops[..k] + ops[k + 1..] + [ops[k]]
  }

  lemma MoveToEndPermutes(ops: seq<InstallOperation>, k: nat)
    requires k < |ops|
    ensures multiset(MoveToEnd(ops, k)) == multiset(ops)
  {
    assert ops == ops[..k] + [ops[k]] + ops[k + 1..];
  }

  lemma {:induction false} AllWritesLast(front: seq<InstallOperation>, op: InstallOperation, base: nat, src: Source)
    requires AllAccepted(front + [op], base, src)
    ensures AllAccepted(front, base, src) && Accepted(op, base, src)
    ensures AllWrites(front + [op], base, src) == AllWrites(front, base, src) + OpWrites(op, base, src)
  {
    hide Accepted, OpWrites;
    assert op in front + [op];
    assert forall p :: p in front ==> p in front + [op];
    if front == [] {
      assert ([] + [op])[1..] == [];
      assert [] + [op] == [op];
    } else {
      assert (front + [op])[1..] == front[1..] + [op];
      assert forall p :: p in front[1..] + [op] ==> p in front + [op];
      AllWritesLast(front[1..], op, base, src);
    }
  }

  /** What runs last is what is seen. */
  lemma LastOneWins(ops: seq<InstallOperation>, k: nat, base: nat, src: Source, x: nat)
    requires AllAccepted(ops, base, src) && base <= |src.file| && k < |ops|
    requires Contribution(ops[k], base, src, x).Some?
    ensures Some(ByteAt(ImageOf(MoveToEnd(ops, k), base, src), x)) == Contribution(ops[k], base, src, x)
  {
    hide Accepted, OpWrites, ImageOf, LastByte;
    MoveToEndPermutes(ops, k);
    SameMembers(ops, MoveToEnd(ops, k), base, src);
    AllWritesLast(ops[..k] + ops[k + 1..], ops[k], base, src);
    ImageByte(MoveToEnd(ops, k), base, src, x);
    LastByteAppend(AllWrites(ops[..k] + ops[k + 1..], base, src), OpWrites(ops[k], base, src), x);
  }

  /** The image is the same for every order of the operations exactly when they agree wherever two
      of them write. */
  lemma OrderlessIffAgreeing(ops: seq<InstallOperation>, base: nat, src: Source)
    requires AllAccepted(ops, base, src) && base <= |src.file|
    ensures Agreeing(ops, base, src) <==>
            forall other | multiset(other) == multiset(ops) :: ImageOf(other, base, src) == ImageOf(ops, base, src)
  {
    hide Accepted, Contribution, ImageOf, MoveToEnd;
    if Agreeing(ops, base, src) {
      forall other | multiset(other) == multiset(ops)
        ensures ImageOf(other, base, src) == ImageOf(ops, base, src)
      {
        AgreeingIsOrderless(ops, other, base, src);
      }
    } else {
      var p, q, x: nat :| p in ops && q in ops && !AgreeAt(p, q, base, src, x);
      var i :| 0 <= i < |ops| && ops[i] == p;
      var j :| 0 <= j < |ops| && ops[j] == q;
      LastOneWins(ops, i, base, src, x);
      LastOneWins(ops, j, base, src, x);
      MoveToEndPermutes(ops, i);
      MoveToEndPermutes(ops, j);
      assert ImageOf(MoveToEnd(ops, i), base, src) != ImageOf(MoveToEnd(ops, j), base, src);
    }
  }

  // ---- Disjoint destinations -------------------------------------------------------------------------

  predicate Apart(p: InstallOperation, q: InstallOperation, base: nat, src: Source)
    requires Accepted(p, base, src) && Accepted(q, base, src)
  {
    forall i, j :: 0 <= i < |OpWrites(p, base, src)| && 0 <= j < |OpWrites(q, base, src)| ==>
      End(OpWrites(p, base, src)[i]) <= OpWrites(q, base, src)[j].pos ||
      End(OpWrites(q, base, src)[j]) <= OpWrites(p, base, src)[i].pos
  }

  lemma {:induction false} ContributionCovers(ws: seq<Write>, x: nat) returns (i: nat)
    requires LastByte(ws, x).Some?
    ensures i < |ws| && ws[i].pos <= x < End(ws[i])
  {
    if LastByte(ws[1..], x).Some? {
      i := ContributionCovers(ws[1..], x);
      i := i + 1;
    } else {
      i := 0;
    }
  }

  lemma ApartAgrees(p: InstallOperation, q: InstallOperation, base: nat, src: Source, x: nat)
    requires Accepted(p, base, src) && Accepted(q, base, src) && Apart(p, q, base, src)
    ensures AgreeAt(p, q, base, src, x)
  {
    hide Accepted, OpWrites, LastByte;
    if Contribution(p, base, src, x).Some? && Contribution(q, base, src, x).Some? {
      var i := ContributionCovers(OpWrites(p, base, src), x);
      var j := ContributionCovers(OpWrites(q, base, src), x);
      assert false;
    }
  }

  /** If different operations write to disjoint destinations, every order, in particular every order
      of operations with equal offsets, gives the same image. */
  lemma DisjointIsOrderless(ops: seq<InstallOperation>, other: seq<InstallOperation>, base: nat, src: Source)
    requires AllAccepted(ops, base, src) && base <= |src.file| && multiset(ops) == multiset(other)
    requires forall p, q | p in ops && q in ops && p != q :: Apart(p, q, base, src)
    ensures ImageOf(ops, base, src) == ImageOf(other, base, src)
  {
    hide Accepted, Contribution, ImageOf, Apart;
    forall p, q, x: nat | p in ops && q in ops ensures AgreeAt(p, q, base, src, x) {
      if p != q { ApartAgrees(p, q, base, src, x); }
    }
    AgreeingIsOrderless(ops, other, base, src);
  }
}
