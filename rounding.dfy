/** The three rounding helpers of the arena (src/main.cpp:32-43), written with
    the same bit masks as the source on `size_t` values, and what they compute. */
module Rounding {
  import opened Bits

  /** The commit granularity (`PAGE_SIZE`). */
  const PageSize: nat := 4096

  /** The alignment the demo driver passes (`DEFAULT_ALIGNMENT`, a pointer's size). */
  const DefaultAlignment: nat := 8

  /** `is_power_of_two`: `(x & (x - 1)) == 0`, where `x - 1` wraps at 0. */
  predicate IsPowerOfTwo(x: nat)
    requires x < WORD
  {
    BitAnd(x, Predecessor(x)) == 0
  }

  /** `align_forward`: `(size + align - 1) & ~(align - 1)`. The sum must not
      wrap around. */
  function AlignForward(size: nat, align: nat): nat
    requires 0 < align < WORD && size + align - 1 < WORD
  {
    BitAnd(size + align - 1, Complement(align - 1))
  }

  /** `commit_size`: the gap `allocEnd - committed` (`allocEnd` is the
      source's `allocated`) rounded with the page mask; the source spells out
      the same expression as `align_forward` with `PAGE_SIZE`. The gap must
      not be negative and the rounding sum must not wrap around. */
  function CommitSize(committed: nat, allocEnd: nat): nat
    requires committed <= allocEnd && allocEnd - committed + PageSize - 1 < WORD
  {
    AlignForward(allocEnd - committed, PageSize)
  }

  // ---------------------------------------------------------------------
  // is_power_of_two

  /** The test accepts exactly the words with at most one bit set (0 included). */
  lemma IsPowerOfTwoIffAtMostOneBit(x: nat)
    requires x < WORD
    ensures IsPowerOfTwo(x) <==> PopCount(x) <= 1
  {
    if x > 0 {
      BitAndPredecessor(x);
    }
  }

  /** On positive words the test accepts exactly the powers of two `2^k`. */
  lemma IsPowerOfTwoIffPow2(x: nat)
    requires 0 < x < WORD
    ensures IsPowerOfTwo(x) <==> exists k: nat :: Pow2(k) == x
  {
    IsPowerOfTwoIffAtMostOneBit(x);
    PopCountZero(x);
    if IsPowerOfTwo(x) {
      var k := Log2(x);
      assert Pow2(k) == x;
    }
    if exists k: nat :: Pow2(k) == x {
      var k: nat :| Pow2(k) == x;
      PopCountPow2(k);
    }
  }

  /** The exponent of a positive word the test accepts; it fits the word. */
  ghost function Exponent(align: nat): (k: nat)
    requires 0 < align < WORD && IsPowerOfTwo(align)
    ensures Pow2(k) == align && k <= 64 && Pow2(k) <= Pow2(64)
  {
    IsPowerOfTwoIffAtMostOneBit(align);
    PopCountZero(align);
    var k := Log2(align);
    Pow2Word();
    Pow2Below(k, 64);
    Pow2Monotone(k, 64);
    k
  }

  // ---------------------------------------------------------------------
  // align_forward and commit_size

  /** `(n / a) * a` is the largest multiple of `a` not above `n`. */
  lemma RoundDown(n: nat, a: nat)
    requires a > 0
    ensures (n / a) * a % a == 0
    ensures (n / a) * a <= n < (n / a) * a + a
  {
    DivUnique((n / a) * a, a, n / a, 0);
  }

  /** Two multiples of `a` less than `a` apart are equal. */
  lemma SameWindowMultiples(x: nat, y: nat, a: nat)
    requires a > 0 && x % a == 0 && y % a == 0 && x <= y < x + a
    ensures x == y
  {
    DivUnique(y, a, x / a, y - x);
  }

  /** `r` is the smallest multiple of `a` that is at least `size`. */
  ghost predicate IsRoundUp(r: nat, size: nat, a: nat)
    requires a > 0
  {
    && r % a == 0
    && size <= r
    && forall m: nat :: m % a == 0 && size <= m ==> r <= m
  }

  /** `((size + a - 1) / a) * a`, the largest multiple of `a` not above
      `size + a - 1`, is the only multiple of `a` in `[size, size + a)`. */
  lemma RoundDownWindow(size: nat, a: nat)
    requires a > 0
    ensures var r := ((size + a - 1) / a) * a; r % a == 0 && size <= r < size + a
  {
    RoundDown(size + a - 1, a);
  }

  /** A multiple of `a` in `[size, size + a)` is the smallest multiple at
      least `size`. */
  lemma WindowIsRoundUp(r: nat, size: nat, a: nat)
    requires a > 0 && r % a == 0 && size <= r < size + a
    ensures IsRoundUp(r, size, a)
  {
    forall m: nat | m % a == 0 && size <= m
      ensures r <= m
    {
      if m < r {
        SameWindowMultiples(m, r, a);
      }
    }
  }

  /** For a power-of-two alignment that does not overflow, `align_forward`
      returns a multiple of `align` in `[size, size + align)`. */
  lemma AlignForwardWindow(size: nat, align: nat)
    requires 0 < align < WORD && IsPowerOfTwo(align) && size + align - 1 < WORD
    ensures var r := AlignForward(size, align); r % align == 0 && size <= r < size + align
  {
    var k := Exponent(align);
    Pow2Word();
    assert Complement(align - 1) == Pow2(64) - Pow2(k);
    BitAndHighMask(size + align - 1, 64, k);
    RoundDownWindow(size, align);
  }

  /** For a power-of-two alignment that does not overflow, `align_forward`
      returns the smallest multiple of `align` that is at least `size`, and
      it is less than `size + align`. */
  lemma AlignForwardRoundsUp(size: nat, align: nat)
    requires 0 < align < WORD && IsPowerOfTwo(align) && size + align - 1 < WORD
    ensures IsRoundUp(AlignForward(size, align), size, align)
    ensures AlignForward(size, align) < size + align
  {
    AlignForwardWindow(size, align);
    WindowIsRoundUp(AlignForward(size, align), size, align);
  }

  /** On a multiple of `align` in `[size, size + align)`, `align_forward`
      agrees. */
  lemma AlignForwardIs(size: nat, align: nat, r: nat)
    requires 0 < align < WORD && IsPowerOfTwo(align) && size + align - 1 < WORD
    requires r % align == 0 && size <= r < size + align
    ensures AlignForward(size, align) == r
  {
    var af := AlignForward(size, align);
    AlignForwardWindow(size, align);
    if af <= r {
      SameWindowMultiples(af, r, align);
    } else {
      SameWindowMultiples(r, af, align);
    }
  }

  lemma PageSizeIsPowerOfTwo()
    ensures PageSize == Pow2(12) && IsPowerOfTwo(PageSize)
  {
    PopCountPow2(12);
    IsPowerOfTwoIffAtMostOneBit(PageSize);
  }

  /** `commit_size` is the gap rounded up to whole pages: a multiple of the
      page size, at least the gap and less than one page more. */
  lemma CommitSizeRoundsUp(committed: nat, allocEnd: nat)
    requires committed <= allocEnd && allocEnd - committed + PageSize - 1 < WORD
    ensures var r := CommitSize(committed, allocEnd);
      r % PageSize == 0 && allocEnd - committed <= r < allocEnd - committed + PageSize
  {
    PageSizeIsPowerOfTwo();
    AlignForwardWindow(allocEnd - committed, PageSize);
  }

  /** On a page multiple in the window above the gap, `commit_size` agrees. */
  lemma CommitSizeIs(committed: nat, allocEnd: nat, r: nat)
    requires committed <= allocEnd && allocEnd - committed + PageSize - 1 < WORD
    requires r % PageSize == 0 && allocEnd - committed <= r < allocEnd - committed + PageSize
    ensures CommitSize(committed, allocEnd) == r
  {
    PageSizeIsPowerOfTwo();
    AlignForwardIs(allocEnd - committed, PageSize, r);
  }
}
