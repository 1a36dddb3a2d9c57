/**
 Machine arithmetic of the storage engine: the 16-bit signed offsets, the alignment template and the
 checked addition of include/base/tdb_base.h, and the little-endian byte, bit and 16-bit accessors that
 the record codec uses on a payload.
 */
module Base {

  datatype Option<T> = None | Some(value: T)

  type Byte = x: int | 0 <= x < 0x100

  const I16_MAX := 0x7fff
  const U32_MAX := 0xffff_ffff
  const U64 := 0x1_0000_0000_0000_0000

  function Min(a: nat, b: nat): nat { if a < b then a else b }

  /** Conversion of an integer to `int16_t` (two's complement wrap-around). */
  function I16(x: int): (r: int)
    ensures -0x8000 <= r <= I16_MAX
    ensures -0x8000 <= x <= I16_MAX ==> r == x
  {
    if -0x8000 <= x <= I16_MAX then x else Wrap16(x)
  }

  function Wrap16(x: int): (r: int)
    ensures -0x8000 <= r <= I16_MAX
  {
    var u := x % 0x1_0000;
    if u <= I16_MAX then u else u - 0x1_0000
  }

  /** The legal alignments. */
  type Alignment = a: int | a == 1 || a == 2 || a == 4 || a == 8 witness 1

  /** `x` is a multiple of `a`. */
  predicate Aligned(a: Alignment, x: int)
  {
    if a == 1 then true else if a == 2 then x % 2 == 0 else if a == 4 then x % 4 == 0 else x % 8 == 0
  }

  /** Rounding up to a multiple of `a` over the unbounded integers. */
  function AlignUp(a: Alignment, x: int): (r: int)
    ensures x <= r < x + a
    ensures Aligned(a, r)
    ensures Aligned(a, x) ==> r == x
  {
    if a == 1 then x
    else if a == 2 then (x + 1) / 2 * 2
    else if a == 4 then (x + 3) / 4 * 4
    else (x + 7) / 8 * 8
  }

  lemma AlignUpMonotone(a: Alignment, x: int, y: int)
    requires x <= y
    ensures AlignUp(a, x) <= AlignUp(a, y)
  {
  }

  /** A multiple of 8 is a multiple of every legal alignment. */
  lemma AlignedEight(a: Alignment, x: int)
    requires x % 8 == 0
    ensures Aligned(a, x) && AlignUp(a, x) == x
  {
    var q := x / 8;
    assert x == 8 * q == 4 * (2 * q) == 2 * (4 * q);
  }

  /** Conversion of an integer to `uint64_t`. */
  function Wrap64(x: int): (r: int)
    ensures 0 <= r < U64
    ensures -U64 <= x < 0 ==> r == x + U64
    ensures 0 <= x < U64 ==> r == x
    ensures U64 <= x < 2 * U64 ==> r == x - U64
  {
    x % U64
  }

  /** What `TYPEALIGN<int16_t>` amounts to (`AlignTemplate.TemplateIsTypeAlign`): rounding up, then wrapping at 16 bits. */
  function TypeAlign(a: Alignment, x: int): (r: int)
    ensures -0x8000 <= r <= I16_MAX
    ensures AlignUp(a, x) <= I16_MAX && x >= -0x8000 ==> r == AlignUp(a, x)
  {
    I16(AlignUp(a, x))
  }

  lemma I16OfRemainder(x: int)
    ensures I16(x % 0x1_0000) == I16(x)
  {
    assert x % 0x1_0000 % 0x1_0000 == x % 0x1_0000;
  }

  lemma I16DropsU64(x: int)
    ensures I16(x + U64) == I16(x)
  {
    assert (x + U64) % 0x1_0000 == x % 0x1_0000;
  }

  /** `AddWithCheck<int16_t>`: the flag it returns and the new value of its reference argument. */
  function AddWithCheck(left: int, right: int): (r: (bool, int))
    requires -0x8000 <= left <= I16_MAX
  {
    var right16 := I16(right);
    if (left > 0 && right16 > I16_MAX - left) || (left < 0 && right16 < left + 0x8000)
    then (false, left)
    else (true, I16(left + right16))
  }

  /** For non-negative 16-bit operands the check is exact and the sum does not wrap. */
  lemma AddWithCheckExact(left: int, right: int)
    requires 0 <= left <= I16_MAX && 0 <= right <= I16_MAX
    ensures AddWithCheck(left, right).0 <==> left + right <= I16_MAX
    ensures AddWithCheck(left, right).0 ==> AddWithCheck(left, right).1 == left + right
  {
  }

  // ---------------------------------------------------------------- byte ranges

  function Zeros(n: nat): (r: seq<Byte>)
    ensures |r| == n
    ensures forall i :: 0 <= i < n ==> r[i] == 0
  {
    seq(n, i => 0)
  }

  predicate InRange(b: seq<Byte>, at: int, len: int) {
    0 <= at && 0 <= len && at + len <= |b|
  }

  /** Overwriting `v` at offset `at`. */
  function Put(b: seq<Byte>, at: int, v: seq<Byte>): (r: seq<Byte>)
    requires InRange(b, at, |v|)
    ensures |r| == |b|
    ensures forall i {:trigger r[i]} :: 0 <= i < |b| ==> r[i] == if at <= i < at + |v| then v[i - at] else b[i]
  {
    seq(|b|, i requires 0 <= i < |b| => if at <= i < at + |v| then v[i - at] else b[i])
  }

  /** `std::vector<char>::resize`: cuts the tail or appends zeros. */
  function Resize(b: seq<Byte>, n: nat): (r: seq<Byte>)
    ensures |r| == n
    ensures forall i {:trigger r[i]} :: 0 <= i < n ==> r[i] == if i < |b| then b[i] else 0
  {
    seq(n, i requires 0 <= i < n => if i < |b| then b[i] else 0)
  }

  /** The range `[at, at + |v|)` of `b` holds `v`. */
  predicate HoldsAt(b: seq<Byte>, at: int, v: seq<Byte>) {
    InRange(b, at, |v|) && forall i :: 0 <= i < |v| ==> b[at + i] == v[i]
  }

  lemma HeldSlice(b: seq<Byte>, at: int, v: seq<Byte>)
    requires HoldsAt(b, at, v)
    ensures b[at..at + |v|] == v
  {
  }

  // ---------------------------------------------------------------- bits

  function Pow2(n: nat): (r: int)
    ensures r >= 1
  {
    if n == 0 then 1 else 2 * Pow2(n - 1)
  }

  /** `x & (1 << k)` is non-zero. */
  predicate BitOf(x: nat, k: nat) {
    if k == 0 then x % 2 == 1 else BitOf(x / 2, k - 1)
  }

  /** `x | (1 << k)`. */
  function OrBit(x: nat, k: nat): nat {
    if k == 0 then x / 2 * 2 + 1 else 2 * OrBit(x / 2, k - 1) + x % 2
  }

  lemma {:induction false} OrBitBound(x: nat, k: nat, n: nat)
    requires x < Pow2(n) && k < n
    ensures OrBit(x, k) < Pow2(n)
  {
    if k > 0 {
      OrBitBound(x / 2, k - 1, n - 1);
    }
  }

  lemma {:induction false} OrBitBits(x: nat, k: nat, j: nat)
    ensures BitOf(OrBit(x, k), j) <==> j == k || BitOf(x, j)
  {
    if k > 0 && j > 0 {
      OrBitBits(x / 2, k - 1, j - 1);
    }
  }

  /** Setting a bit that is clear adds its value. */
  lemma {:induction false} OrBitAdds(x: nat, k: nat)
    ensures OrBit(x, k) == if BitOf(x, k) then x else x + Pow2(k)
  {
    if k > 0 {
      OrBitAdds(x / 2, k - 1);
    }
  }

  /** A number below `2^n` is determined by its `n` low bits. */
  lemma {:induction false} BitsDetermine(x: nat, y: nat, n: nat)
    requires x < Pow2(n) && y < Pow2(n)
    requires forall k :: 0 <= k < n ==> BitOf(x, k) == BitOf(y, k)
    ensures x == y
  {
    if n > 0 {
      assert BitOf(x, 0) == BitOf(y, 0);
      forall k | 0 <= k < n - 1
        ensures BitOf(x / 2, k) == BitOf(y / 2, k)
      {
        assert BitOf(x, k + 1) == BitOf(y, k + 1);
      }
      BitsDetermine(x / 2, y / 2, n - 1);
    }
  }

  lemma ByteIsEightBits()
    ensures Pow2(8) == 0x100
  {
    assert Pow2(4) == 16;
  }

  /** Bit `i` of the bitmap that starts at byte `at`: `bitmap[i >> 3] & (1 << (i & 7))`. */
  predicate GetBit(b: seq<Byte>, at: int, i: int)
    requires 0 <= at + i / 8 < |b|
  {
    BitOf(b[at + i / 8], i % 8)
  }

  /** `bitmap[i >> 3] |= 1 << (i & 7)`. The shift of a negative number rounds down, as `/` does here. */
  function SetBit(b: seq<Byte>, at: int, i: int): (r: seq<Byte>)
    requires 0 <= at + i / 8 < |b|
    ensures |r| == |b|
    ensures forall x {:trigger r[x]} :: 0 <= x < |b| && x != at + i / 8 ==> r[x] == b[x]
  {
    ByteIsEightBits();
    OrBitBound(b[at + i / 8], i % 8, 8);
    b[at + i / 8 := OrBit(b[at + i / 8], i % 8)]
  }

  lemma SetBitBits(b: seq<Byte>, at: int, i: int, j: int)
    requires 0 <= at + i / 8 < |b| && 0 <= at + j / 8 < |b|
    ensures GetBit(SetBit(b, at, i), at, j) <==> j == i || GetBit(b, at, j)
  {
    if at + i / 8 == at + j / 8 {
      OrBitBits(b[at + i / 8], i % 8, j % 8);
    }
  }

  // ---------------------------------------------------------------- 16-bit little-endian cells

  function Get16(b: seq<Byte>, at: int): (r: int)
    requires InRange(b, at, 2)
    ensures -0x8000 <= r <= I16_MAX
  {
    I16(b[at] as int + 0x100 * (b[at + 1] as int))
  }

  function Put16(b: seq<Byte>, at: int, v: int): (r: seq<Byte>)
    requires InRange(b, at, 2)
    ensures |r| == |b|
    ensures forall i {:trigger r[i]} :: 0 <= i < |b| && !(at <= i < at + 2) ==> r[i] == b[i]
    ensures Get16(r, at) == I16(v)
  {
    var u := v % 0x1_0000;
    b[at := u % 0x100][at + 1 := u / 0x100]
  }

  /** The low byte of a cell comes first. */
  lemma CellBytes(b: seq<Byte>, at: int, v: int)
    requires InRange(b, at, 2)
    ensures Put16(b, at, v)[at] == v % 256 && Put16(b, at, v)[at + 1] == v / 256 % 256
  {
    assert v % 0x1_0000 % 256 == v % 256;
    assert v % 0x1_0000 / 256 == v / 256 % 256;
  }

  lemma I16OfWord(x: nat)
    requires x < 0x1_0000
    ensures I16(x) == if x <= I16_MAX then x else x - 0x1_0000
  {
    assert x % 0x1_0000 == x;
  }

  lemma WordInjective(a: nat, b: nat, c: nat, d: nat)
    requires a < 0x100 && b < 0x100 && c < 0x100 && d < 0x100 && I16(a + 0x100 * b) == I16(c + 0x100 * d)
    ensures a == c && b == d
  {
    I16OfWord(a + 0x100 * b);
    I16OfWord(c + 0x100 * d);
  }

  /** A cell is determined by the value read from it. */
  lemma Get16Injective(b: seq<Byte>, c: seq<Byte>, at: int)
    requires InRange(b, at, 2) && InRange(c, at, 2) && Get16(b, at) == Get16(c, at)
    ensures b[at] == c[at] && b[at + 1] == c[at + 1]
  {
    WordInjective(b[at], b[at + 1], c[at], c[at + 1]);
  }

  // ---------------------------------------------------------------- definitions behind a key

  /**
   A large definition about some `x` can be stated behind a key, as `forall k :: Key(k, x) ==> ...`: proofs that
   only pass such a fact on do not look inside, and a proof that needs the inside mentions a key.
   */
  predicate Key<T>(k: int, about: T) { true }
}
