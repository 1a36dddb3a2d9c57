/**
 By-value data as bytes: the little-endian digits of a number, and the number that digits make.
 */
module Digits {
  import opened Base

  /** The `len` low bytes of a 64-bit representation, least significant first. */
  function LowBytes(rep: nat, len: nat): (r: seq<Byte>)
    ensures |r| == len
  {
    if len == 0 then [] else [rep % 0x100] + LowBytes(rep / 0x100, len - 1)
  }

  function FromBytes(b: seq<Byte>): nat {
    if b == [] then 0 else b[0] as nat + 0x100 * FromBytes(b[1..])
  }

  function Pow256(n: nat): (r: nat)
    ensures r >= 1
  {
    if n == 0 then 1 else 0x100 * Pow256(n - 1)
  }

  /** Writing and reading a by-value datum keeps its low bytes and clears the others. */
  lemma {:induction false} LowBytesRead(rep: nat, len: nat)
    ensures FromBytes(LowBytes(rep, len)) == rep % Pow256(len)
  {
    if len > 0 {
      var b := LowBytes(rep, len);
      assert b[1..] == LowBytes(rep / 0x100, len - 1);
      LowBytesRead(rep / 0x100, len - 1);
      ModSplit(rep, Pow256(len - 1));
    }
  }

  /** The bytes are the digits of the number to the base 256, the lowest one first. */
  lemma {:induction false} LowByteAt(rep: nat, len: nat, k: nat)
    requires k < len
    ensures LowBytes(rep, len)[k] == rep / Pow256(k) % 256
  {
    if k > 0 {
      LowByteAt(rep / 0x100, len - 1, k - 1);
      DivTwice(rep, Pow256(k - 1));
    }
  }

  lemma DivTwice(x: nat, m: nat)
    requires m > 0
    ensures x / 0x100 / m == x / (0x100 * m)
  {
    var q, r := x / 0x100 / m, x / 0x100 % m;
    assert x / 0x100 == m * q + r;
    assert x == (0x100 * m) * q + (0x100 * r + x % 0x100);
    assert 0 <= 0x100 * r + x % 0x100 < 0x100 * m;
    QuotientUnique(x, 0x100 * m, q, 0x100 * r + x % 0x100);
  }

  lemma QuotientUnique(x: nat, m: nat, q: nat, r: nat)
    requires r < m && x == m * q + r
    ensures x / m == q
  {
    RemainderUnique(m, q, r, x / m, x % m);
  }

  lemma {:induction false} BitWeight(x: nat, k: nat)
    ensures BitOf(x, k) <==> x / Pow2(k) % 2 == 1
  {
    if k > 0 {
      BitWeight(x / 2, k - 1);
      HalfFirst(x, Pow2(k - 1));
    }
  }

  lemma HalfFirst(x: nat, m: nat)
    requires m > 0
    ensures x / 2 / m == x / (2 * m)
  {
    var q, r := x / 2 / m, x / 2 % m;
    assert x / 2 == m * q + r;
    assert x == (2 * m) * q + (2 * r + x % 2);
    assert 0 <= 2 * r + x % 2 < 2 * m;
    QuotientUnique(x, 2 * m, q, 2 * r + x % 2);
  }

  /** Bit `i` of a bitmap has the weight `2^(i % 8)` in byte `i / 8`. */
  lemma BitPlace(b: seq<Byte>, at: int, i: nat)
    requires 0 <= at && at + i / 8 < |b|
    ensures GetBit(b, at, i) <==> b[at + i / 8] as int / Pow2(i % 8) % 2 == 1
  {
    BitWeight(b[at + i / 8], i % 8);
  }

  lemma ModSplit(x: nat, m: nat)
    requires m > 0
    ensures x % (0x100 * m) == x % 0x100 + 0x100 * (x / 0x100 % m)
  {
    var q, r := x / 0x100 / m, x / 0x100 % m;
    assert x / 0x100 == m * q + r;
    assert x == (0x100 * m) * q + (0x100 * r + x % 0x100);
    assert 0 <= 0x100 * r + x % 0x100 < 0x100 * m;
    ModUnique(x, 0x100 * m, q, 0x100 * r + x % 0x100);
  }

  lemma ModUnique(x: nat, m: nat, q: nat, r: nat)
    requires r < m && x == m * q + r
    ensures x % m == r
  {
    RemainderUnique(m, q, r, x / m, x % m);
  }

  lemma RemainderUnique(m: nat, q: nat, r: nat, q': nat, r': nat)
    requires r < m && r' < m && m * q + r == m * q' + r'
    ensures r == r' && q == q'
  {
    if q < q' {
      MulGap(m, q, q');
    } else if q' < q {
      MulGap(m, q', q);
    }
  }

  lemma {:induction false} MulGap(m: nat, a: nat, b: nat)
    requires a < b
    ensures m * a + m <= m * b
  {
    assert m * b == m * (b - 1) + m;
    if a < b - 1 {
      MulGap(m, a, b - 1);
    }
  }

  lemma ByteSplit(c: Byte, y: nat)
    ensures (c + 0x100 * y) % 0x100 == c && (c + 0x100 * y) / 0x100 == y
  {
  }

  /** The value that comes back occupies the same bytes. */
  lemma {:induction false} LowBytesOfRead(b: seq<Byte>)
    ensures LowBytes(FromBytes(b), |b|) == b
  {
    if b != [] {
      LowBytesOfRead(b[1..]);
      ByteSplit(b[0], FromBytes(b[1..]));
      assert b == [b[0]] + b[1..];
    }
  }
}
