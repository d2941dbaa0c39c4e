/** Machine words of the arena's platform, modelled on unbounded naturals.
    A `size_t` is a natural below `WORD`; the bitwise operators the rounding
    helpers use are defined here bit by bit, and the lemmas say what they
    compute on the masks those helpers build. */
module Bits {

  /** One past the largest `size_t` (64-bit target). */
  const WORD: nat := 0x1_0000_0000_0000_0000

  function Pow2(k: nat): (r: nat)
    ensures r >= 1
  {
    if k == 0 then 1 else 2 * Pow2(k - 1)
  }

  /** `x & y` on naturals, one bit at a time from the least significant. */
  function BitAnd(x: nat, y: nat): nat
  {
    if x == 0 || y == 0 then 0
    else 2 * BitAnd(x / 2, y / 2) + (if x % 2 == 1 && y % 2 == 1 then 1 else 0)
  }

  /** `~x` on a `size_t`. */
  function Complement(x: nat): (r: nat)
    requires x < WORD
    ensures r < WORD && x + r == WORD - 1
  {
    WORD - 1 - x
  }

  /** `x - 1` on a `size_t`: 0 wraps around to the largest word. */
  function Predecessor(x: nat): (r: nat)
    requires x < WORD
    ensures r < WORD
    ensures x == 0 ==> r == WORD - 1
    ensures x > 0 ==> r + 1 == x
  {
    if x == 0 then WORD - 1 else x - 1
  }

  /** The number of one bits of `x`. */
  function PopCount(x: nat): nat
  {
    if x == 0 then 0 else x % 2 + PopCount(x / 2)
  }

  // ---------------------------------------------------------------------
  // Powers of two

  lemma {:induction false} Pow2Add(a: nat, b: nat)
    ensures Pow2(a + b) == Pow2(a) * Pow2(b)
  {
    if a > 0 {
      Pow2Add(a - 1, b);
    }
  }

  lemma Pow2Word()
    ensures Pow2(64) == WORD
  {
    Pow2Add(32, 32);
    Pow2Add(16, 16);
    Pow2Add(8, 8);
    assert Pow2(8) == 0x100;
    WordIsSquares(Pow2(8), Pow2(16), Pow2(32));
  }

  lemma WordIsSquares(x: nat, y: nat, z: nat)
    requires x == 0x100 && y == x * x && z == y * y
    ensures z * z == WORD
  {
  }

  lemma {:induction false} Pow2Monotone(a: nat, b: nat)
    requires a <= b
    ensures Pow2(a) <= Pow2(b)
  {
    if a < b {
      Pow2Monotone(a, b - 1);
    }
  }

  lemma Pow2Below(k: nat, w: nat)
    requires Pow2(k) < Pow2(w)
    ensures k < w
  {
    if w <= k {
      Pow2Monotone(w, k);
    }
  }

  lemma {:induction false} PopCountZero(x: nat)
    ensures PopCount(x) == 0 <==> x == 0
  {
    if x > 0 && x % 2 == 0 {
      PopCountZero(x / 2);
    }
  }

  lemma {:induction false} PopCountPow2(k: nat)
    ensures PopCount(Pow2(k)) == 1
  {
    if k > 0 {
      PopCountPow2(k - 1);
      assert Pow2(k) / 2 == Pow2(k - 1);
    }
  }

  /** The position of the only one bit of `x`. */
  ghost function Log2(x: nat): (k: nat)
    requires PopCount(x) == 1
    ensures Pow2(k) == x
  {
    PopCountZero(x);
    PopCountZero(x / 2);
    if x % 2 == 1 then 0 else 1 + Log2(x / 2)
  }

  // ---------------------------------------------------------------------
  // Division helpers

  lemma DivUnique(n: nat, d: nat, q: nat, r: nat)
    requires 0 < d && r < d && n == q * d + r
    ensures n / d == q && n % d == r
  {
    var q', r' := n / d, n % d;
    assert n == q' * d + r';
    if q' < q {
      assert q' * d + d <= q * d by {
        MulLe(q' + 1, q, d);
      }
    } else if q < q' {
      assert q * d + d <= q' * d by {
        MulLe(q + 1, q', d);
      }
    }
  }

  lemma MulLe(a: nat, b: nat, d: nat)
    requires a <= b
    ensures a * d <= b * d
  {
  }

  lemma MulSwap(a: nat, b: nat, c: nat)
    ensures a * (b * c) == b * (a * c)
  {
  }

  lemma Distribute(q: nat, b: nat, r: nat, a: nat)
    ensures (q * b + r) * a == q * (a * b) + r * a
  {
  }

  lemma {:induction false} DivDiv(n: nat, a: nat, b: nat)
    requires 0 < a && 0 < b
    ensures n / a / b == n / (a * b)
  {
    var q, r := n / a, n % a;
    var q2, r2 := q / b, q % b;
    assert n == q * a + r;
    assert q == q2 * b + r2;
    assert n == (q2 * b + r2) * a + r;
    Distribute(q2, b, r2, a);
    assert r2 * a <= (b - 1) * a by {
      MulLe(r2, b - 1, a);
    }
    Distribute(1, b - 1, 1, a);
    assert r2 * a + r < a * b;
    DivUnique(n, a * b, q2, r2 * a + r);
  }

  // ---------------------------------------------------------------------
  // Bitwise AND on the masks the rounding helpers build

  lemma {:induction false} BitAndSelf(x: nat)
    ensures BitAnd(x, x) == x
  {
    if x > 0 {
      BitAndSelf(x / 2);
    }
  }

  /** For a positive `x`, `x & (x - 1)` clears the lowest one bit, so it is
      zero exactly when `x` has a single one bit. */
  lemma {:induction false} BitAndPredecessor(x: nat)
    requires x > 0
    ensures BitAnd(x, x - 1) == 0 <==> PopCount(x) <= 1
  {
    if x == 1 {
    } else if x % 2 == 1 {
      assert (x - 1) / 2 == x / 2;
      BitAndSelf(x / 2);
      PopCountZero(x / 2);
      assert BitAnd(x, x - 1) == 2 * (x / 2);
    } else {
      assert (x - 1) / 2 == x / 2 - 1;
      BitAndPredecessor(x / 2);
      assert BitAnd(x, x - 1) == 2 * BitAnd(x / 2, x / 2 - 1);
    }
  }

  /** A mask of `w` one bits keeps every `w`-bit number. */
  lemma {:induction false} BitAndLowOnes(n: nat, w: nat)
    requires n < Pow2(w)
    ensures BitAnd(n, Pow2(w) - 1) == n
  {
    if w > 0 && n > 0 {
      assert (Pow2(w) - 1) / 2 == Pow2(w - 1) - 1;
      assert (Pow2(w) - 1) % 2 == 1;
      BitAndLowOnes(n / 2, w - 1);
    }
  }

  /** Halving both sides of an even mask. */
  lemma BitAndEvenMask(n: nat, m: nat)
    requires m > 0 && m % 2 == 0
    ensures BitAnd(n, m) == 2 * BitAnd(n / 2, m / 2)
  {
  }

  lemma HalveRoundDown(n: nat, p: nat)
    requires p > 0
    ensures 2 * ((n / 2 / p) * p) == (n / (2 * p)) * (2 * p)
  {
    DivDiv(n, 2, p);
    MulSwap(2, n / (2 * p), p);
  }

  /** The mask with bits `k .. w-1` set rounds a `w`-bit number down to a
      multiple of `2^k`. */
  lemma {:induction false} BitAndHighMask(n: nat, w: nat, k: nat)
    requires k <= w && n < Pow2(w)
    requires Pow2(k) <= Pow2(w)
    ensures BitAnd(n, Pow2(w) - Pow2(k)) == (n / Pow2(k)) * Pow2(k)
  {
    if k == 0 {
      BitAndLowOnes(n, w);
    } else if k == w {
      DivUnique(n, Pow2(k), 0, n);
    } else {
      var p, P := Pow2(k - 1), Pow2(w - 1);
      assert Pow2(k) == 2 * p && Pow2(w) == 2 * P;
      Pow2Monotone(k, w - 1);
      var m := Pow2(w) - Pow2(k);
      assert m > 0 && m / 2 == P - p && m % 2 == 0;
      BitAndEvenMask(n, m);
      BitAndHighMask(n / 2, w - 1, k - 1);
      HalveRoundDown(n, p);
    }
  }
}
