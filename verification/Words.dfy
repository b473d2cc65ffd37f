/** Machine words and byte strings shared by every part of the model.
    Go's fixed-width integers are ints with their range; wrap-around is written out. */
module Words {
  const TWO31: int := 0x8000_0000
  const TWO32: int := 0x1_0000_0000
  const TWO63: int := 0x8000_0000_0000_0000
  const TWO64: int := 0x1_0000_0000_0000_0000

  type byte = x: int | 0 <= x < 0x100
  type uint32 = x: int | 0 <= x < 0x1_0000_0000
  type uint64 = x: int | 0 <= x < 0x1_0000_0000_0000_0000
  type int32 = x: int | -0x8000_0000 <= x < 0x8000_0000
  type int64 = x: int | -0x8000_0000_0000_0000 <= x < 0x8000_0000_0000_0000

  type Bytes = seq<byte>

  datatype Option<+T> = None | Some(value: T)

  /** The bytes of a string literal. */
  function Ascii(s: string): (b: Bytes)
    requires forall i :: 0 <= i < |s| ==> s[i] < 128 as char
  {
    seq(|s|, i requires 0 <= i < |s| => s[i] as int)
  }

  /** make([]byte, n) */
  function Zeros(n: nat): (s: Bytes)
    ensures |s| == n
  {
    seq(n, _ => 0)
  }

  /** The uint64 with the same bits as a Go signed value (sign extension included). */
  function ToUint64(x: int64): (u: uint64) {
    if x < 0 then x + TWO64 else x
  }

  /** Go's int(u) on a 64-bit platform. */
  function ToInt64(u: uint64): (x: int64) {
    if u < TWO63 then u else u - TWO64
  }

  /** Go's uint32(u): the low 32 bits. */
  function ToUint32(u: uint64): (x: uint32) {
    u % TWO32
  }

  /** Go's int32(u): the low 32 bits, read as a signed number. */
  function ToInt32(u: uint64): (x: int32) {
    var low := u % TWO32;
    if low < TWO31 then low else low - TWO32
  }

  /** Signed 64-bit addition with wrap-around. */
  function AddInt64(a: int64, b: int64): (c: int64) {
    var sum := a + b;
    if sum >= TWO63 then sum - TWO64
    else if sum < -TWO63 then sum + TWO64
    else sum
  }

  /** Unsigned 64-bit subtraction with wrap-around. */
  function SubUint64(a: uint64, b: uint64): (c: uint64) {
    if a >= b then a - b else a - b + TWO64
  }

  /** Unsigned 64-bit multiplication with wrap-around. */
  function MulUint64(a: uint64, b: uint64): (c: uint64) {
    (a * b) % TWO64
  }

  /** The bitwise disjunction. */
  function BitOr(a: nat, b: nat): nat
    decreases a + b
  {
    if a == 0 && b == 0 then 0
    else (if a % 2 == 1 || b % 2 == 1 then 1 else 0) + 2 * BitOr(a / 2, b / 2)
  }

  lemma Int32SurvivesSignExtension(x: int32)
    ensures ToInt32(ToUint64(x)) == x
  {
    if x < 0 {
      assert ToUint64(x) == (TWO32 - 1) * TWO32 + (x + TWO32);
    }
  }

  /** Every conversion and every wrapping operation keeps the number modulo the size of its result; that and
      the range of the result's type leave it no choice. */
  lemma WordsWrap(u: uint64, v: uint64, x: int64, y: int64)
    ensures ToUint64(x) % TWO64 == x % TWO64 && ToInt64(u) % TWO64 == u
    ensures ToUint32(u) == u % TWO32 && ToInt32(u) % TWO32 == u % TWO32
    ensures AddInt64(x, y) % TWO64 == (x + y) % TWO64
    ensures SubUint64(u, v) == (u - v) % TWO64
    ensures MulUint64(u, v) == (u * v) % TWO64
  {
    assert (u % TWO32 - TWO32) % TWO32 == u % TWO32;
  }
}
