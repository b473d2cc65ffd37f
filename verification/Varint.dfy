/** Base 128 varints: the encoder that fills a window of a buffer, the size formula,
    and the shift-by-7 decoder. */
module Varint {
  import opened Words

  /** Everything Unmarshal and skip can report. */
  datatype Error =
    | IntOverflow
    | UnexpectedEOF
    | InvalidLength
    | UnexpectedEndOfGroup
    | IllegalWireType
    | EndGroupForNonGroup
    | IllegalTag
    | WrongWireType
    | RequiredNotSet

  /** A value read from the front of a byte string, with the number of bytes it took. */
  datatype Scan<+T> = Got(value: T, len: nat) | Bad(error: Error) {
    function Map<U>(f: T -> U): Scan<U> {
      match this
      case Got(v, n) => Got(f(v), n)
      case Bad(e) => Bad(e)
    }
  }

  /** At most this many bytes: the loop stops once shift reaches 64. */
  const MAX_VARINT := 10

  // ---- Meaning of an encoding -------------------------------------------------

  /** The canonical encoding, least significant group of seven bits first. */
  function VarintBytes(v: nat): (s: Bytes)
    ensures |s| > 0
  {
    if v < 0x80 then [v] else [v % 0x80 + 0x80] + VarintBytes(v / 0x80)
  }

  /** The number held by the varint at the front of `s`, before truncation to 64 bits;
      `k` bytes of it have been read already. */
  function ScanVarint(s: Bytes, k: nat): (r: Scan<nat>)
    ensures r.Got? ==> 1 <= r.len <= |s| && k + r.len <= MAX_VARINT
    decreases |s|
  {
    if k >= MAX_VARINT then Bad(IntOverflow)
    else if s == [] then Bad(UnexpectedEOF)
    else if s[0] < 0x80 then Got(s[0], 1)
    else match ScanVarint(s[1..], k + 1)
      case Got(v, n) => Got(s[0] % 0x80 + 0x80 * v, n + 1)
      case Bad(e) => Bad(e)
  }

  /** What one decode loop reads. */
  function ReadVarint(s: Bytes): (r: Scan<uint64>)
    ensures r.Got? ==> 1 <= r.len <= |s| && r.len <= MAX_VARINT
  {
    match ScanVarint(s, 0)
    case Got(v, n) => Got(v % TWO64, n)
    case Bad(e) => Bad(e)
  }

  /** The shape of any varint, canonical or not. */
  predicate IsVarint(s: Bytes) {
    1 <= |s| <= MAX_VARINT && s[|s| - 1] < 0x80 && forall i :: 0 <= i < |s| - 1 ==> s[i] >= 0x80
  }

  // ---- Size -------------------------------------------------------------------

  /** bits.Len64 */
  function BitLen(x: nat): nat {
    if x == 0 then 0 else 1 + BitLen(x / 2)
  }

  /** x | 1 */
  function SetLowBit(x: nat): nat {
    if x % 2 == 1 then x else x + 1
  }

  function Sov(x: uint64): nat {
    (BitLen(SetLowBit(x)) + 6) / 7
  }

  function Pow2(n: nat): (p: nat)
    ensures p > 0
  {
    if n == 0 then 1 else 2 * Pow2(n - 1)
  }

  lemma {:induction false} BitLenBound(x: nat, n: nat)
    ensures BitLen(x) <= n <==> x < Pow2(n)
  {
    if x != 0 && n != 0 {
      BitLenBound(x / 2, n - 1);
    }
  }

  lemma {:induction false} BitLenByGroups(x: nat)
    requires x >= 0x80
    ensures BitLen(x) == 7 + BitLen(x / 0x80)
  {
    assert x / 2 / 2 == x / 4 && x / 4 / 2 == x / 8 && x / 8 / 2 == x / 16;
    assert x / 16 / 2 == x / 32 && x / 32 / 2 == x / 64 && x / 64 / 2 == x / 128;
    assert BitLen(x) == 1 + BitLen(x / 2) == 2 + BitLen(x / 4) == 3 + BitLen(x / 8);
    assert BitLen(x / 8) == 1 + BitLen(x / 16) == 2 + BitLen(x / 32) == 3 + BitLen(x / 64);
    assert BitLen(x / 64) == 1 + BitLen(x / 128);
  }

  lemma LowBitKeepsBitLen(x: nat)
    requires x > 0
    ensures BitLen(SetLowBit(x)) == BitLen(x)
  {
    assert SetLowBit(x) / 2 == x / 2;
  }

  lemma SovSmall(v: uint64)
    requires v < 0x80
    ensures Sov(v) == 1
  {
    var x := SetLowBit(v);
    assert Pow2(7) == 128 by { assert Pow2(3) == 8; assert Pow2(5) == 32; }
    BitLenBound(x, 7);
    BitLenBound(x, 0);
  }

  lemma SovLarge(v: uint64)
    requires v >= 0x80
    ensures Sov(v) == 1 + Sov(v / 0x80)
  {
    var x := SetLowBit(v);
    BitLenByGroups(x);
    assert x / 0x80 == v / 0x80;
    LowBitKeepsBitLen(v / 0x80);
  }

  /** The closed formula counts the bytes the encode loop writes. */
  lemma {:induction false} SovIsLength(v: uint64)
    ensures Sov(v) == |VarintBytes(v)|
    ensures 1 <= Sov(v) <= MAX_VARINT
    decreases v
  {
    hide Sov, Weight;
    if v < 0x80 {
      SovSmall(v);
    } else {
      SovLarge(v);
      SovIsLength(v / 0x80);
    }
    WeightNine();
    WeightUnfolds(9);
    CanonicalIsShort(v, MAX_VARINT);
  }

  // 128^k, the weight of group k
  function Weight(k: nat): (w: nat)
    ensures w > 0
  {
    if k == 0 then 1 else 0x80 * Weight(k - 1)
  }

  lemma WeightUnfolds(k: nat)
    ensures Weight(k + 1) == 0x80 * Weight(k)
  {
  }

  lemma WeightNine()
    ensures Weight(9) == TWO63
  {
    assert Weight(3) == 0x20_0000;
    assert Weight(6) == 0x80 * (0x80 * (0x80 * Weight(3)));
    assert Weight(9) == 0x80 * (0x80 * (0x80 * Weight(6)));
  }

  lemma {:induction false} CanonicalIsShort(v: nat, k: nat)
    requires v < Weight(k) && k > 0
    ensures |VarintBytes(v)| <= k
  {
    if v >= 0x80 {
      assert Weight(1) == 0x80;
      CanonicalIsShort(v / 0x80, k - 1);
    }
  }

  // ---- Round trip -------------------------------------------------------------

  /** The decode loop reads back what the encoder wrote and stops at its end, whatever follows. */
  lemma {:induction false} ScanCanonical(v: nat, k: nat, rest: Bytes)
    requires k + |VarintBytes(v)| <= MAX_VARINT
    ensures ScanVarint(VarintBytes(v) + rest, k) == Got(v, |VarintBytes(v)|)
    decreases v
  {
    var s := VarintBytes(v) + rest;
    if v >= 0x80 {
      assert s[1..] == VarintBytes(v / 0x80) + rest;
      ScanCanonical(v / 0x80, k + 1, rest);
    }
  }

  lemma VarintRoundTrip(v: uint64, rest: Bytes)
    ensures ReadVarint(VarintBytes(v) + rest) == Got(v, Sov(v))
  {
    hide ScanVarint, VarintBytes, Sov;
    SovIsLength(v);
    ScanCanonical(v, 0, rest);
  }

  /** Reading depends on nothing after the bytes it takes. */
  lemma {:induction false} ScanLocal(s: Bytes, rest: Bytes, k: nat)
    requires ScanVarint(s, k).Got?
    ensures ScanVarint(s + rest, k) == ScanVarint(s, k)
    decreases |s|
  {
    assert s != [];
    if s[0] >= 0x80 {
      assert (s + rest)[1..] == s[1..] + rest;
      ScanLocal(s[1..], rest, k + 1);
    }
  }

  lemma ReadLocal(s: Bytes, rest: Bytes)
    requires ReadVarint(s).Got?
    ensures ReadVarint(s + rest) == ReadVarint(s)
  {
    ScanLocal(s, rest, 0);
  }

  /** A varint is read exactly when its bytes have the varint shape. */
  lemma {:induction false} ScanTakesShape(s: Bytes, k: nat)
    requires ScanVarint(s, k).Got?
    ensures IsVarint(s[..ScanVarint(s, k).len])
    decreases |s|
  {
    var n := ScanVarint(s, k).len;
    if s[0] >= 0x80 {
      ScanTakesShape(s[1..], k + 1);
      var t := s[1..][..n - 1];
      assert s[..n] == [s[0]] + t;
      forall i | 0 <= i < n - 1 ensures s[..n][i] >= 0x80 {
        if i > 0 { assert s[..n][i] == t[i - 1]; }
      }
    }
  }

  lemma {:induction false} ScanAcceptsShape(s: Bytes, rest: Bytes, k: nat)
    requires IsVarint(s) && k + |s| <= MAX_VARINT
    ensures ScanVarint(s + rest, k).Got? && ScanVarint(s + rest, k).len == |s|
    decreases |s|
  {
    if |s| > 1 {
      assert (s + rest)[1..] == s[1..] + rest;
      assert s[0] >= 0x80;
      assert IsVarint(s[1..]);
      ScanAcceptsShape(s[1..], rest, k + 1);
    }
  }

  lemma ReadShape(s: Bytes)
    ensures ReadVarint(s).Got? ==> IsVarint(s[..ReadVarint(s).len])
  {
    if ReadVarint(s).Got? { ScanTakesShape(s, 0); }
  }

  lemma ReadVarintBytes(s: Bytes, rest: Bytes)
    requires IsVarint(s)
    ensures ReadVarint(s + rest).Got? && ReadVarint(s + rest).len == |s|
    ensures ReadVarint(s + rest) == ReadVarint(s)
  {
    ScanAcceptsShape(s, rest, 0);
    ScanAcceptsShape(s, [], 0);
    assert s + [] == s;
    ReadLocal(s, rest);
  }

  // ---- The number, and the errors ---------------------------------------------

  /** Seven bits of every byte, the first byte's lowest. */
  function GroupSum(s: Bytes): nat {
    if s == [] then 0 else GroupSum(s[..|s| - 1]) + s[|s| - 1] % 0x80 * Weight(|s| - 1)
  }

  lemma {:induction false} GroupSumCons(s: Bytes)
    requires s != []
    ensures GroupSum(s) == s[0] % 0x80 + 0x80 * GroupSum(s[1..])
  {
    var n := |s| - 1;
    if n == 0 {
      assert Weight(0) == 1 && GroupSum(s[..0]) == 0 && GroupSum(s[1..]) == 0;
      assert s[|s| - 1] == s[0];
    } else {
      var front, tail := s[..n], s[1..];
      GroupSumCons(front);
      assert front[1..] == tail[..n - 1] && tail[n - 1] == s[n];
      WeightUnfolds(n - 1);
      assert 0x80 * (s[n] % 0x80 * Weight(n - 1)) == s[n] % 0x80 * (0x80 * Weight(n - 1));
    }
  }

  lemma {:induction false} ScanValue(s: Bytes, k: nat)
    requires ScanVarint(s, k).Got?
    ensures ScanVarint(s, k).value == GroupSum(s[..ScanVarint(s, k).len])
    decreases |s|
  {
    var n := ScanVarint(s, k).len;
    GroupSumCons(s[..n]);
    if s[0] < 0x80 {
      assert s[..1][1..] == [] && GroupSum([]) == 0;
    } else {
      ScanValue(s[1..], k + 1);
      assert s[..n][1..] == s[1..][..n - 1];
    }
  }

  /** A varint of any shape holds the sum of its groups, cut to 64 bits. */
  lemma ReadVarintValue(s: Bytes, rest: Bytes)
    requires IsVarint(s)
    ensures ReadVarint(s + rest) == Got(GroupSum(s) % TWO64, |s|)
  {
    ReadVarintBytes(s, rest);
    ScanValue(s + rest, 0);
    assert (s + rest)[..|s|] == s;
  }

  lemma {:induction false} ScanFails(s: Bytes, k: nat)
    requires k <= MAX_VARINT
    ensures ScanVarint(s, k) == Bad(IntOverflow) <==>
            |s| >= MAX_VARINT - k && forall i :: 0 <= i < MAX_VARINT - k ==> s[i] >= 0x80
    ensures ScanVarint(s, k) == Bad(UnexpectedEOF) <==>
            |s| < MAX_VARINT - k && forall i :: 0 <= i < |s| ==> s[i] >= 0x80
    ensures ScanVarint(s, k).Bad? ==> ScanVarint(s, k).error in {IntOverflow, UnexpectedEOF}
    decreases |s|
  {
    if k < MAX_VARINT && s != [] && s[0] >= 0x80 {
      ScanFails(s[1..], k + 1);
      assert forall i :: 0 <= i < |s[1..]| ==> s[1..][i] == s[i + 1];
      assert forall i :: 1 <= i < |s| ==> s[i] == s[1..][i - 1];
    }
  }

  /** A varint is refused if ten bytes do not end it, or if the input ends first, and never else. */
  lemma ReadVarintFails(s: Bytes)
    ensures ReadVarint(s) == Bad(IntOverflow) <==> |s| >= 10 && forall i :: 0 <= i < 10 ==> s[i] >= 0x80
    ensures ReadVarint(s) == Bad(UnexpectedEOF) <==> |s| < 10 && forall i :: 0 <= i < |s| ==> s[i] >= 0x80
    ensures ReadVarint(s).Bad? ==> ReadVarint(s).error in {IntOverflow, UnexpectedEOF}
  {
    ScanFails(s, 0);
  }

  // ---- The loops --------------------------------------------------------------

  /** Numbers that share no bit: their disjunction is their sum. */
  lemma {:induction false} OrIsSum(a: nat, c: nat, n: nat)
    requires a < Pow2(n)
    ensures BitOr(a, c * Pow2(n)) == a + c * Pow2(n)
    decreases n, a + c
  {
    var b := c * Pow2(n);
    if n == 0 {
      assert b == c;
      if c > 0 { OrIsSum(0, c / 2, 0); }
    } else {
      assert b == 2 * (c * Pow2(n - 1));
      OrIsSum(a / 2, c, n - 1);
    }
  }

  lemma SevenMore(n: nat)
    ensures Pow2(n + 7) == 0x80 * Pow2(n) && Pow2(0) == 1
  {
    assert Pow2(n + 2) == 4 * Pow2(n);
    assert Pow2(n + 4) == 4 * Pow2(n + 2);
    assert Pow2(n + 6) == 4 * Pow2(n + 4);
    assert Pow2(n + 7) == 2 * Pow2(n + 6);
  }

  lemma {:induction false} WeightIsPow2(k: nat)
    ensures Weight(k) == Pow2(7 * k)
  {
    hide Pow2;
    if k > 0 {
      WeightIsPow2(k - 1);
      SevenMore(7 * k - 7);
    } else {
      SevenMore(0);
    }
  }

  /** Whatever of a group is left when it is cut at 64 bits begins at its own shift. */
  lemma CutGroup(x: nat, k: nat)
    requires k < MAX_VARINT && x < 0x80
    ensures (x * Weight(k)) % TWO64 == (if k == 9 then x % 2 else x) * Weight(k)
  {
    OrGroupFits(0, x, k);
    WeightNine();
    if k == 9 { assert x * TWO63 == x / 2 * TWO64 + x % 2 * TWO63; }
  }

  /** acc | uint64(b & 0x7f) << 7k: what is shifted beyond 64 bits is lost, and no bit is shared. */
  function OrGroup(acc: uint64, b: byte, k: nat): (r: uint64)
    requires k < MAX_VARINT && acc < Weight(k)
    ensures r == acc + (b % 0x80 * Weight(k)) % TWO64
  {
    var x := b % 0x80;
    CutGroup(x, k);
    WeightIsPow2(k);
    OrIsSum(acc, if k == 9 then x % 2 else x, 7 * k);
    OrGroupFits(acc, x, k);
    BitOr(acc, (x * Weight(k)) % TWO64)
  }

  lemma {:induction false} WeightGrows(k: nat, m: nat)
    requires k <= m
    ensures Weight(k) <= Weight(m)
  {
    if k < m { WeightGrows(k, m - 1); }
  }

  lemma OrGroupFits(acc: nat, x: nat, k: nat)
    requires k < MAX_VARINT && acc < Weight(k) && x < 0x80
    ensures acc + (x * Weight(k)) % TWO64 < TWO64
    ensures k < 9 ==> (x * Weight(k)) % TWO64 == x * Weight(k) && acc + x * Weight(k) < Weight(k + 1)
    ensures acc + (x * Weight(k)) % TWO64 == (acc + x * Weight(k)) % TWO64
  {
    WeightNine();
    if k == 9 {
      assert x * Weight(9) == x * TWO63;
      assert (x * TWO63) % TWO64 == x % 2 * TWO63 by {
        assert x * TWO63 == x / 2 * TWO64 + x % 2 * TWO63;
      }
    } else {
      WeightGrows(k + 1, 9);
      assert x * Weight(k) <= 0x7f * Weight(k);
    }
  }

  /** The result of a scan that has already gathered `acc` from `k` groups, cut to 64 bits. */
  function Resume(r: Scan<nat>, acc: nat, k: nat): Scan<uint64> {
    match r
    case Got(v, n) => Got((acc + Weight(k) * v) % TWO64, k + n)
    case Bad(e) => Bad(e)
  }

  lemma SwapFactors(a: nat, b: nat)
    ensures a * b == b * a
  {
  }

  lemma ResumeLast(s: Bytes, acc: uint64, k: nat)
    requires s != [] && s[0] < 0x80 && k < MAX_VARINT && acc < Weight(k)
    ensures Resume(ScanVarint(s, k), acc, k) == Got(OrGroup(acc, s[0], k), k + 1)
  {
    hide OrGroup, Weight, BitOr;
    OrGroupFits(acc, s[0], k);
    assert s[0] % 0x80 == s[0];
    SwapFactors(Weight(k), s[0]);
  }

  lemma GroupThenRest(acc: nat, x: nat, w: nat, v: nat)
    requires acc + (x * w) % TWO64 == (acc + x * w) % TWO64
    ensures (acc + w * (x + 0x80 * v)) % TWO64 == (acc + (x * w) % TWO64 + 0x80 * w * v) % TWO64
  {
    assert w * (x + 0x80 * v) == x * w + 0x80 * w * v;
    CutAnyTime(acc + x * w, 0x80 * w * v);
  }

  lemma CutAnyTime(a: nat, b: nat)
    ensures (a % TWO64 + b) % TWO64 == (a + b) % TWO64
  {
  }

  lemma ResumeMore(s: Bytes, acc: uint64, k: nat)
    requires s != [] && s[0] >= 0x80 && k < MAX_VARINT && acc < Weight(k)
    ensures OrGroup(acc, s[0], k) < Weight(k + 1)
    ensures Resume(ScanVarint(s, k), acc, k) == Resume(ScanVarint(s[1..], k + 1), OrGroup(acc, s[0], k), k + 1)
  {
    hide OrGroup, Weight;
    var x := s[0] % 0x80;
    OrGroupFits(acc, x, k);
    if k == 9 {
      WeightNine();
      WeightUnfolds(9);
      assert ScanVarint(s[1..], 10).Bad?;
    } else if ScanVarint(s[1..], k + 1).Got? {
      var v := ScanVarint(s[1..], k + 1).value;
      GroupThenRest(acc, x, Weight(k), v);
      assert Weight(k + 1) * v == 0x80 * Weight(k) * v by { WeightUnfolds(k); }
    }
  }

  /** The inlined loop of every Unmarshal: seven bits a turn, least significant first. */
  method DecodeVarint(dAtA: Bytes, iNdEx: nat) returns (r: Scan<uint64>)
    requires iNdEx <= |dAtA|
    ensures r == ReadVarint(dAtA[iNdEx..])
  {
    hide ScanVarint, Weight, OrGroup;
    var i, k, acc: uint64 := iNdEx, 0, 0;
    DecodeStart(dAtA[iNdEx..]);
    while true
      invariant iNdEx <= i <= |dAtA| && i == iNdEx + k && k <= MAX_VARINT
      invariant acc < Weight(k)
      invariant ReadVarint(dAtA[iNdEx..]) == Resume(ScanVarint(dAtA[i..], k), acc, k)
      decreases |dAtA| - i
    {
      DecodeEnds(dAtA[i..], k);
      if k >= MAX_VARINT { return Bad(IntOverflow); }
      if i >= |dAtA| { return Bad(UnexpectedEOF); }
      var b := dAtA[i];
      assert dAtA[i..][1..] == dAtA[i + 1..];
      if b < 0x80 {
        ResumeLast(dAtA[i..], acc, k);
      } else {
        ResumeMore(dAtA[i..], acc, k);
      }
      acc := OrGroup(acc, b, k);
      i := i + 1;
      k := k + 1;
      if b < 0x80 { return Got(acc, k); }
    }
  }

  lemma DecodeStart(s: Bytes)
    ensures 0 < Weight(0) && ReadVarint(s) == Resume(ScanVarint(s, 0), 0, 0)
  {
  }

  lemma DecodeEnds(s: Bytes, k: nat)
    ensures k >= MAX_VARINT ==> ScanVarint(s, k) == Bad(IntOverflow)
    ensures k < MAX_VARINT && s == [] ==> ScanVarint(s, k) == Bad(UnexpectedEOF)
  {
  }

  // ---- Writing into a buffer, back to front -------------------------------------

  /** `now` is `before` with `tail` written so that it ends at `end`. */
  ghost predicate Filled(now: Bytes, before: Bytes, i: int, end: nat, tail: Bytes) {
    && 0 <= i && i + |tail| == end <= |before| == |now|
    && now == before[..i] + tail + before[end..]
  }

  lemma VarintUnfolds(v: nat)
    ensures v < 0x80 ==> VarintBytes(v) == [v]
    ensures v >= 0x80 ==> VarintBytes(v) == [v % 0x80 + 0x80] + VarintBytes(v / 0x80)
  {
  }

  /** From `base` on, `done` has been written over `before`. */
  ghost predicate Written(now: Bytes, before: Bytes, base: nat, done: Bytes) {
    && base + |done| <= |before| == |now|
    && now == before[..base] + done + before[base + |done|..]
  }

  lemma WriteNext(now: Bytes, before: Bytes, base: nat, done: Bytes, b: byte)
    requires Written(now, before, base, done) && base + |done| < |before|
    ensures Written(now[base + |done| := b], before, base, done + [b])
  {
  }

  /** encodeVarintUpdateMetadata: fills exactly the window that ends at `offset`. */
  method EncodeVarint(dAtA: array<byte>, offset: nat, v: uint64) returns (base: nat)
    requires Sov(v) <= offset <= dAtA.Length
    modifies dAtA
    ensures base == offset - Sov(v)
    ensures Filled(dAtA[..], old(dAtA[..]), base, offset, VarintBytes(v))
  {
    hide VarintBytes, Sov, Written;
    SovIsLength(v);
    base := offset - Sov(v);
    var at, rest: nat := base, v;
    ghost var done: Bytes := [];
    ghost var before := dAtA[..];
    assert done + VarintBytes(rest) == VarintBytes(v);
    assert Written(dAtA[..], before, base, done) by { NothingWritten(before, base); }
    while rest >= 0x80
      invariant base <= at && at == base + |done| && at + |VarintBytes(rest)| == offset
      invariant done + VarintBytes(rest) == VarintBytes(v)
      invariant Written(dAtA[..], before, base, done)
      decreases rest
    {
      VarintUnfolds(rest);
      WriteNext(dAtA[..], before, base, done, rest % 0x80 + 0x80);
      ghost var now := dAtA[..][at := rest % 0x80 + 0x80];
      dAtA[at] := rest % 0x80 + 0x80;
      assert dAtA[..] == now;
      done := done + [rest % 0x80 + 0x80];
      rest := rest / 0x80;
      at := at + 1;
    }
    VarintUnfolds(rest);
    WriteNext(dAtA[..], before, base, done, rest);
    ghost var now := dAtA[..][at := rest];
    dAtA[at] := rest;
    assert dAtA[..] == now;
    WrittenFills(now, before, base, done + [rest]);
  }

  lemma NothingWritten(before: Bytes, base: nat)
    requires base <= |before|
    ensures Written(before, before, base, [])
  {
  }

  lemma WrittenFills(now: Bytes, before: Bytes, base: nat, done: Bytes)
    requires Written(now, before, base, done)
    ensures Filled(now, before, base, base + |done|, done)
  {
  }
}
