/**
 The alignment template of include/base/tdb_base.h as it is written, with its detour over unsigned 64-bit numbers.
 */
module AlignTemplate {
  import opened Base

  /** `x & ~(a - 1)` on an unsigned 64-bit number when `a` is a power of two. */
  function ClearLow(a: Alignment, x: int): int
  {
    if a == 1 then x else if a == 2 then x - x % 2 else if a == 4 then x - x % 4 else x - x % 8
  }

  /**
   `TYPEALIGN<int16_t>` as written: the argument is sign-extended to 64 bits, the sum wraps at 64 bits, the low
   bits are cleared and the result is cut back to 16 bits.
   */
  function TypeAlignTemplate(a: Alignment, x: int): int {
    I16(ClearLow(a, Wrap64(Wrap64(x) + (a - 1))))
  }

  lemma ClearLowDropsU64(a: Alignment, y: int)
    ensures ClearLow(a, y + U64) == ClearLow(a, y) + U64
  {
    assert (y + 2 * 0x8000_0000_0000_0000) % 2 == y % 2;
    assert (y + 4 * 0x4000_0000_0000_0000) % 4 == y % 4;
    assert (y + 8 * 0x2000_0000_0000_0000) % 8 == y % 8;
  }

  lemma ClearLowRoundsUp(a: Alignment, x: int)
    ensures ClearLow(a, x + (a - 1)) == AlignUp(a, x)
  {
  }

  /** The 64-bit detour is harmless for 16-bit arguments. */
  lemma TemplateIsTypeAlign(a: Alignment, x: int)
    requires -0x8000 <= x <= I16_MAX
    ensures TypeAlignTemplate(a, x) == TypeAlign(a, x)
  {
    var w := Wrap64(Wrap64(x) + (a - 1));
    assert w == x + (a - 1) || w == x + (a - 1) + U64;
    ClearLowDropsU64(a, x + (a - 1));
    ClearLowRoundsUp(a, x);
    I16DropsU64(AlignUp(a, x));
  }
}
