/** sort.Slice promises nothing about operations with equal offsets: exactly when that shows. */
module PayloadTies {
  import opened Words
  import opened Messages
  import opened Payload
  import opened PayloadLaws

  ghost predicate IsSortOf(s: seq<InstallOperation>, ops: seq<InstallOperation>) {
    multiset(s) == multiset(ops) && SortedByOffset(s)
  }

  /** No operation with a larger offset writes over x. */
  ghost predicate NoneAbove(ops: seq<InstallOperation>, offset: uint64, base: nat, src: Source, x: nat)
    requires AllAccepted(ops, base, src)
  {
    forall op :: op in ops && op.dataOffset > offset ==> Contribution(op, base, src, x).None?
  }

  /** Two operations with equal offsets leave the same byte wherever both write, unless an operation with
      a larger offset writes there as well. */
  ghost predicate TiesAgree(ops: seq<InstallOperation>, base: nat, src: Source)
    requires AllAccepted(ops, base, src)
  {
    forall p, q, x: nat | p in ops && q in ops && p.dataOffset == q.dataOffset && NoneAbove(ops, p.dataOffset, base, src, x)
      :: AgreeAt(p, q, base, src, x)
  }

  /** In a sorted run the byte at x comes from an operation with the largest offset that writes there. */
  lemma {:induction false} TopWriterDecides(ops: seq<InstallOperation>, base: nat, src: Source, x: nat)
    requires AllAccepted(ops, base, src) && SortedByOffset(ops)
    ensures var b := LastByte(AllWrites(ops, base, src), x);
            b.Some? ==> exists op :: op in ops && Contribution(op, base, src, x) == b &&
                                     NoneAbove(ops, op.dataOffset, base, src, x)
    ensures LastByte(AllWrites(ops, base, src), x).None? ==>
              forall op :: op in ops ==> Contribution(op, base, src, x).None?
  {
    hide Accepted, OpWrites, SortedByOffset;
    LastWriterDecides(ops, base, src, x);
    if ops != [] {
      assert ops[0] in ops;
      assert ops == [ops[0]] + ops[1..];
      SortedTail(ops);
      var more := ops[1..];
      LastByteAppend(OpWrites(ops[0], base, src), AllWrites(more, base, src), x);
      TopWriterDecides(more, base, src, x);
      if LastByte(AllWrites(more, base, src), x).Some? {
        var op :| op in more && Contribution(op, base, src, x) == LastByte(AllWrites(more, base, src), x) &&
                  NoneAbove(more, op.dataOffset, base, src, x);
        assert op in ops && NoneAbove(ops, op.dataOffset, base, src, x);
      } else {
        assert NoneAbove(ops, ops[0].dataOffset, base, src, x);
      }
    }
  }

  lemma SortsAreAlike(ops: seq<InstallOperation>, s: seq<InstallOperation>, t: seq<InstallOperation>, base: nat,
                      src: Source)
    requires AllAccepted(ops, base, src) && base <= |src.file| && TiesAgree(ops, base, src)
    requires IsSortOf(s, ops) && IsSortOf(t, ops)
    ensures ImageOf(s, base, src) == ImageOf(t, base, src)
  {
    hide Accepted, OpWrites, ImageOf, WriteAll, LastByte, Contribution, SortedByOffset;
    SameMembers(ops, s, base, src);
    SameMembers(ops, t, base, src);
    LengthIsOrderless(s, t, base, src);
    var a, b := ImageOf(s, base, src), ImageOf(t, base, src);
    forall x: nat ensures ByteAt(a, x) == ByteAt(b, x) {
      ImageByte(s, base, src, x);
      ImageByte(t, base, src, x);
      TopWriterDecides(s, base, src, x);
      TopWriterDecides(t, base, src, x);
      var u, v := LastByte(AllWrites(s, base, src), x), LastByte(AllWrites(t, base, src), x);
      if u.Some? && v.Some? {
        var p :| p in s && Contribution(p, base, src, x) == u && NoneAbove(s, p.dataOffset, base, src, x);
        var q :| q in t && Contribution(q, base, src, x) == v && NoneAbove(t, q.dataOffset, base, src, x);
        assert p.dataOffset == q.dataOffset;
        assert NoneAbove(ops, p.dataOffset, base, src, x);
        assert AgreeAt(p, q, base, src, x);
      }
    }
    SameBytesSameImage(a, b);
  }

  // ---- A sorted order in which a given operation comes last among its ties -----------------------------

  lemma {:induction false} SortExists(ops: seq<InstallOperation>) returns (s: seq<InstallOperation>)
    ensures IsSortOf(s, ops)
  {
    hide SortedByOffset;
    if ops == [] {
      s := [];
      assert SortedByOffset(s) by { NothingIsSorted(); }
    } else {
      assert ops == [ops[0]] + ops[1..];
      var more := SortExists(ops[1..]);
      InsertSorts(ops[0], more);
      s := Insert(ops[0], more);
    }
  }

  lemma NothingIsSorted()
    ensures SortedByOffset([])
  {
  }

  lemma {:induction false} LastTie(s: seq<InstallOperation>, k: nat, j: nat) returns (last: nat)
    requires SortedByOffset(s) && k <= j < |s| && s[j].dataOffset == s[k].dataOffset
    ensures k <= last < |s| && s[last].dataOffset == s[k].dataOffset
    ensures forall i :: last < i < |s| ==> s[i].dataOffset > s[k].dataOffset
    decreases |s| - j
  {
    if j + 1 < |s| && s[j + 1].dataOffset == s[k].dataOffset {
      last := LastTie(s, k, j + 1);
    } else {
      last := j;
    }
  }

  lemma SwapTies(s: seq<InstallOperation>, k: nat, j: nat)
    requires SortedByOffset(s) && k <= j < |s| && s[j].dataOffset == s[k].dataOffset
    ensures var t := s[k := s[j]][j := s[k]];
            && SortedByOffset(t) && multiset(t) == multiset(s)
            && t == t[..j] + [s[k]] + s[j + 1..]
  {
    var t := s[k := s[j]][j := s[k]];
    assert t[j + 1..] == s[j + 1..];
    assert forall i :: 0 <= i < |t| ==> t[i].dataOffset == s[i].dataOffset;
  }

  lemma MoveBehindTies(s: seq<InstallOperation>, k: nat)
    returns (front: seq<InstallOperation>, back: seq<InstallOperation>)
    requires SortedByOffset(s) && k < |s|
    ensures IsSortOf(front + [s[k]] + back, s)
    ensures forall op :: op in back ==> op.dataOffset > s[k].dataOffset
  {
    hide SortedByOffset;
    var j := LastTie(s, k, k);
    SwapTies(s, k, j);
    front, back := s[k := s[j]][j := s[k]][..j], s[j + 1..];
  }

  /** Every operation has its sorted order in which nothing with its offset comes behind it. */
  lemma LastAmongTies(ops: seq<InstallOperation>, p: InstallOperation)
    returns (front: seq<InstallOperation>, back: seq<InstallOperation>)
    requires p in ops
    ensures IsSortOf(front + [p] + back, ops)
    ensures forall op :: op in back ==> op.dataOffset > p.dataOffset
  {
    hide SortedByOffset;
    var s := SortExists(ops);
    assert p in multiset(ops);
    assert p in multiset(s);
    var k :| 0 <= k < |s| && s[k] == p;
    front, back := MoveBehindTies(s, k);
  }

  lemma {:induction false} NobodyWrites(ops: seq<InstallOperation>, base: nat, src: Source, x: nat)
    requires AllAccepted(ops, base, src) && forall op :: op in ops ==> Contribution(op, base, src, x).None?
    ensures LastByte(AllWrites(ops, base, src), x).None?
  {
    hide Accepted, OpWrites;
    LastWriterDecides(ops, base, src, x);
  }

  /** In that order the byte at x is the operation's own, if none with a larger offset writes there. */
  lemma TopByte(front: seq<InstallOperation>, p: InstallOperation, back: seq<InstallOperation>, base: nat, src: Source,
                x: nat)
    requires AllAccepted(front + [p] + back, base, src) && base <= |src.file| && Accepted(p, base, src)
    requires Contribution(p, base, src, x).Some?
    requires forall op :: op in back ==> Accepted(op, base, src) && Contribution(op, base, src, x).None?
    ensures Some(ByteAt(ImageOf(front + [p] + back, base, src), x)) == Contribution(p, base, src, x)
  {
    hide Accepted, OpWrites, ImageOf, LastByte;
    var ops := front + [p];
    assert forall op :: op in ops ==> op in ops + back;
    ImageByte(ops + back, base, src, x);
    AllWritesAppend(ops, back, base, src);
    AllWritesLast(front, p, base, src);
    NobodyWrites(back, base, src, x);
    LastByteAppend(AllWrites(ops, base, src), AllWrites(back, base, src), x);
    LastByteAppend(AllWrites(front, base, src), OpWrites(p, base, src), x);
  }

  lemma {:induction false} AllWritesAppend(a: seq<InstallOperation>, b: seq<InstallOperation>, base: nat, src: Source)
    requires AllAccepted(a + b, base, src) && AllAccepted(a, base, src) && AllAccepted(b, base, src)
    ensures AllWrites(a + b, base, src) == AllWrites(a, base, src) + AllWrites(b, base, src)
  {
    hide Accepted, OpWrites;
    if a == [] {
      assert a + b == b;
    } else {
      assert (a + b)[1..] == a[1..] + b;
      assert forall op :: op in a[1..] + b ==> op in a + b;
      AllWritesAppend(a[1..], b, base, src);
    }
  }

  lemma TieShows(ops: seq<InstallOperation>, p: InstallOperation, base: nat, src: Source, x: nat)
    returns (s: seq<InstallOperation>)
    requires AllAccepted(ops, base, src) && base <= |src.file| && p in ops
    requires Contribution(p, base, src, x).Some? && NoneAbove(ops, p.dataOffset, base, src, x)
    ensures IsSortOf(s, ops) && Some(ByteAt(ImageOf(s, base, src), x)) == Contribution(p, base, src, x)
  {
    hide Accepted, Contribution, ImageOf, SortedByOffset;
    var front, back := LastAmongTies(ops, p);
    s := front + [p] + back;
    SameMembers(ops, s, base, src);
    forall op | op in back ensures op in ops && op in s {
    }
    TopByte(front, p, back, base, src, x);
  }

  /** Whatever order sort.Slice picks among ties, the image is the same, exactly when ties agree wherever
      no operation with a larger offset hides them. */
  lemma TiesIff(ops: seq<InstallOperation>, base: nat, src: Source)
    requires AllAccepted(ops, base, src) && base <= |src.file|
    ensures TiesAgree(ops, base, src) <==>
            forall s, t | IsSortOf(s, ops) && IsSortOf(t, ops) :: ImageOf(s, base, src) == ImageOf(t, base, src)
  {
    hide Accepted, Contribution, ImageOf, IsSortOf;
    if TiesAgree(ops, base, src) {
      forall s, t | IsSortOf(s, ops) && IsSortOf(t, ops) ensures ImageOf(s, base, src) == ImageOf(t, base, src) {
        SortsAreAlike(ops, s, t, base, src);
      }
    } else {
      var p, q, x: nat :| p in ops && q in ops && p.dataOffset == q.dataOffset &&
                          NoneAbove(ops, p.dataOffset, base, src, x) && !AgreeAt(p, q, base, src, x);
      var s := TieShows(ops, p, base, src, x);
      var t := TieShows(ops, q, base, src, x);
      assert ImageOf(s, base, src) != ImageOf(t, base, src);
    }
  }

  /** Every image that Extract can leave, and what it is when ties agree. */
  lemma SortedRuns(ops: seq<InstallOperation>, sorted: seq<InstallOperation>, base: nat, src: Source)
    requires AllAccepted(ops, base, src) && base <= |src.file| && IsSortOf(sorted, ops)
    ensures ExecuteAll(Machine(base, 0, [], 0), sorted, src).outcome == Done
    ensures TiesAgree(ops, base, src) ==>
              forall s | IsSortOf(s, ops) ::
                ImageOf(s, base, src) == ExecuteAll(Machine(base, 0, [], 0), sorted, src).machine.image
  {
    hide ExecuteAll, TiesAgree, Accepted, SortedByOffset;
    SameMembers(ops, sorted, base, src);
    ExecuteAllWrites(Machine(base, 0, [], 0), sorted, base, src);
    TiesIff(ops, base, src);
  }

  /** From the sort to the end of the loop, on a fresh output file. */
  method Extract(reader: Reader, out: OutFile, operations: seq<InstallOperation>, src: Source)
    returns (outcome: Outcome, ghost sorted: seq<InstallOperation>)
    requires src.file == reader.content && out.content == [] && out.pos == 0
    modifies reader, out
    ensures IsSortOf(sorted, operations)
    ensures var s := ExecuteAll(Machine(old(reader.pos), 0, [], 0), sorted, src);
            outcome == s.outcome && out.content == s.machine.image
    ensures old(reader.pos) <= |src.file| && AllAccepted(operations, old(reader.pos), src) ==> outcome == Done
    ensures old(reader.pos) <= |src.file| && AllAccepted(operations, old(reader.pos), src) &&
            TiesAgree(operations, old(reader.pos), src) ==>
              forall s | IsSortOf(s, operations) :: out.content == ImageOf(s, old(reader.pos), src)
  {
    hide ExecuteAll, TiesAgree, AllAccepted, ImageOf, SortedByOffset;
    var inOrder := SortSlice(operations);
    sorted := inOrder;
    ghost var end;
    ghost var base := reader.pos;
    outcome, end := ExtractSorted(reader, out, inOrder, src);
    if base <= |src.file| && AllAccepted(operations, base, src) {
      SortedRuns(operations, sorted, base, src);
    }
  }
}
