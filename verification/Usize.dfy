/** The machine word of the modelled target: a 64-bit `usize`, kept as a natural number
    below 2^64, with the checked, saturating, wrapping and bitwise operations the runtime uses. */
module Usize {

  datatype Option<+T> = None | Some(value: T)

  const WORD: nat := 0x1_0000_0000_0000_0000
  const MAX: nat := WORD - 1
  const ISIZE_MAX: nat := 0x7FFF_FFFF_FFFF_FFFF

  type usize = x: nat | x < 0x1_0000_0000_0000_0000 witness 0

  function CheckedAdd(x: usize, y: usize): Option<usize> {
    if x + y <= MAX then Some(x + y) else None
  }

  function SaturatingSub(x: usize, y: usize): usize {
    if x >= y then x - y else 0
  }

  function WrappingNeg(x: usize): usize {
    (WORD - x) % WORD
  }

  /** Bitwise complement of a 64-bit word. */
  function Not(x: usize): usize {
    MAX - x
  }

  /** Bitwise conjunction, bit by bit from the least significant end. */
  function And(x: nat, y: nat): nat {
    if x == 0 || y == 0 then 0
    else 2 * And(x / 2, y / 2) + (x % 2) * (y % 2)
  }

  function Pow2(k: nat): (p: nat)
    ensures p >= 1
  {
    if k == 0 then 1 else 2 * Pow2(k - 1)
  }

  ghost predicate IsPow2(x: nat) {
    exists k: nat :: x == Pow2(k)
  }

  lemma {:induction false} AndBounded(x: nat, y: nat)
    ensures And(x, y) <= x && And(x, y) <= y
  {
    if x != 0 && y != 0 {
      AndBounded(x / 2, y / 2);
      assert (x % 2) * (y % 2) <= x % 2 && (x % 2) * (y % 2) <= y % 2;
    }
  }

  function Times(q: int, a: int): int { q * a }

  /** `x` is a multiple of `a`. */
  ghost predicate Multiple(x: int, a: int) {
    exists q: int :: Times(q, a) == x
  }

  lemma MulSign(k: int, a: nat)
    requires a > 0
    ensures k >= 1 ==> Times(k, a) >= a
    ensures k == 0 ==> Times(k, a) == 0
    ensures k <= -1 ==> Times(k, a) + a <= 0
  {
  }

  lemma MulDiff(p: int, q: int, a: int)
    ensures Times(p - q, a) == Times(p, a) - Times(q, a)
    ensures Times(p + q, a) == Times(p, a) + Times(q, a)
  {
  }

  lemma MultipleAlgebra(x: int, y: int, a: nat)
    requires Multiple(x, a) && Multiple(y, a)
    ensures Multiple(x + y, a) && Multiple(x - y, a)
  {
    var p :| Times(p, a) == x;
    var q :| Times(q, a) == y;
    MulDiff(p, q, a);
  }

  lemma MultipleOfItself(a: nat)
    ensures Multiple(a, a) && Multiple(0, a)
  {
    assert Times(1, a) == a && Times(0, a) == 0;
  }

  /** Distinct multiples are at least one step apart. */
  lemma MultiplesApart(x: int, y: int, a: nat)
    requires a > 0 && Multiple(x, a) && Multiple(y, a) && x < y
    ensures x + a <= y
  {
    var p :| Times(p, a) == x;
    var q :| Times(q, a) == y;
    MulDiff(q, p, a);
    MulSign(q - p, a);
  }

  lemma DivMod(x: int, a: nat)
    requires a > 0
    ensures x == Times(x / a, a) + x % a && 0 <= x % a < a
  {
  }

  /** Being a multiple is leaving no remainder, and subtracting the remainder leaves a multiple. */
  lemma MultipleRemainder(x: int, a: nat)
    requires a > 0
    ensures Multiple(x, a) <==> x % a == 0
    ensures Multiple(x - x % a, a)
  {
    DivMod(x, a);
    assert Times(x / a, a) == x - x % a;
    if Multiple(x, a) && x % a != 0 {
      MultiplesApart(x - x % a, x, a);
      assert false;
    }
  }

  /** A remainder is determined by its distance to a multiple. */
  lemma RemainderUnique(x: int, a: nat, r: nat)
    requires a > 0 && r < a && Multiple(x - r, a)
    ensures x % a == r
  {
    MultipleRemainder(x, a);
    DivMod(x, a);
    if x % a < r { MultiplesApart(x - r, x - x % a, a); }
    if x % a > r { MultiplesApart(x - x % a, x - r, a); }
  }

  /** Divisibility is transitive: it carries an alignment down to a smaller one. */
  lemma MultipleThrough(x: int, b: int, a: int)
    requires Multiple(x, b) && Multiple(b, a)
    ensures Multiple(x, a)
  {
    var q :| Times(q, b) == x;
    var p :| Times(p, a) == b;
    assert Times(q * p, a) == x by {
      assert q * (p * a) == (q * p) * a;
    }
  }

  lemma {:induction false} Pow2Monotonic(j: nat, k: nat)
    requires j <= k
    ensures Pow2(j) <= Pow2(k)
    ensures Multiple(Pow2(k), Pow2(j))
    ensures j < k ==> 2 * Pow2(j) <= Pow2(k)
  {
    if j < k {
      Pow2Monotonic(j, k - 1);
      MultipleAlgebra(Pow2(k - 1), Pow2(k - 1), Pow2(j));
    } else {
      MultipleOfItself(Pow2(j));
    }
  }

  /** Powers of two divide one another in the order of their sizes. */
  lemma Pow2Divides(a: nat, b: nat)
    requires IsPow2(a) && IsPow2(b) && a <= b
    ensures a > 0 && Multiple(b, a)
    ensures a < b ==> 2 * a <= b
  {
    var j: nat :| a == Pow2(j);
    var k: nat :| b == Pow2(k);
    if j <= k {
      Pow2Monotonic(j, k);
    } else {
      Pow2Monotonic(k, j);
      MultipleOfItself(a);
    }
  }

  /** Masking with 2^k - 1 leaves what is above the largest multiple of 2^k. */
  lemma {:induction false} MaskIsRemainder(x: nat, k: nat)
    ensures And(x, Pow2(k) - 1) < Pow2(k)
    ensures Multiple(x - And(x, Pow2(k) - 1), Pow2(k))
  {
    if k == 0 {
      assert Times(x, 1) == x;
    } else {
      MaskIsRemainder(x / 2, k - 1);
      MaskStep(x, Pow2(k - 1));
      assert Pow2(k) == 2 * Pow2(k - 1);
      hide And, Multiple, Pow2;
    }
  }

  lemma MaskStep(x: nat, h: nat)
    requires h >= 1 && And(x / 2, h - 1) < h && Multiple(x / 2 - And(x / 2, h - 1), h)
    ensures And(x, 2 * h - 1) < 2 * h && Multiple(x - And(x, 2 * h - 1), 2 * h)
  {
    hide And, Times;
    AndOdd(x, h);
    var low, y := And(x / 2, h - 1), x / 2;
    DoubleMultiple(y - low, h);
    assert x == 2 * y + x % 2;
    assert x - And(x, 2 * h - 1) == 2 * (y - low);
  }

  lemma AndOdd(x: nat, h: nat)
    requires h >= 1
    ensures And(x, 2 * h - 1) == 2 * And(x / 2, h - 1) + x % 2
  {
    var y := 2 * h - 1;
    assert y / 2 == h - 1 && y % 2 == 1;
    AndUnfold(x, y);
    assert (x % 2) * 1 == x % 2;
  }

  lemma DoubleMultiple(y: int, h: int)
    requires Multiple(y, h)
    ensures Multiple(2 * y, 2 * h)
  {
    var q :| Times(q, h) == y;
    assert Times(q, 2 * h) == 2 * Times(q, h);
  }

  /** The bits of a value split between a mask and the mask's complement within n bits. */
  lemma {:induction false} AndSplits(x: nat, m: nat, n: nat)
    requires x < Pow2(n) && m < Pow2(n)
    ensures And(x, m) + And(x, Pow2(n) - 1 - m) == x
  {
    if n > 0 {
      var c := Pow2(n) - 1 - m;
      AndUnfold(x, m);
      AndUnfold(x, c);
      hide And;
      assert c / 2 == Pow2(n - 1) - 1 - m / 2 && c % 2 == 1 - m % 2;
      AndSplits(x / 2, m / 2, n - 1);
      assert (x % 2) * (m % 2) + (x % 2) * (1 - m % 2) == x % 2;
    }
  }

  lemma AndUnfold(x: nat, y: nat)
    ensures And(x, y) == 2 * And(x / 2, y / 2) + (x % 2) * (y % 2)
  {
    if x == 0 || y == 0 {
      assert And(x / 2, y / 2) == 0;
    }
  }

  lemma WordIsPow2()
    ensures Pow2(64) == WORD
  {
    assert Pow2(4) == 16;
    hide Pow2;
    assert Pow2(8) == 256 by { Pow2Sum(4, 4); }
    assert Pow2(16) == 0x1_0000 by { Pow2Sum(8, 8); }
    assert Pow2(32) == 0x1_0000_0000 by { Pow2Sum(16, 16); }
    Pow2Sum(32, 32);
  }

  lemma {:induction false} Pow2Sum(j: nat, k: nat)
    ensures Pow2(j + k) == Pow2(j) * Pow2(k)
  {
    if k > 0 {
      Pow2Sum(j, k - 1);
      assert j + k - 1 == j + (k - 1);
      assert 2 * (Pow2(j) * Pow2(k - 1)) == Pow2(j) * (2 * Pow2(k - 1));
    }
  }

  /** A power of two that fits in a word is a power with exponent below 64. */
  lemma WordPow2(a: usize) returns (k: nat)
    requires IsPow2(a)
    ensures a == Pow2(k) && k < 64
  {
    k :| a == Pow2(k);
    if k >= 64 {
      Pow2Monotonic(64, k);
      WordIsPow2();
      assert false;
    }
  }

  /** Clearing the low bits rounds down to a multiple of a power of two. */
  lemma MaskRoundsDown(x: usize, a: usize)
    requires IsPow2(a)
    ensures a >= 1
    ensures And(x, a - 1) == x % a
    ensures And(x, Not(a - 1)) == x - x % a
  {
    var k := WordPow2(a);
    WordIsPow2();
    MaskIsRemainder(x, k);
    RemainderUnique(x, a, And(x, a - 1));
    AndSplits(x, a - 1, 64);
  }

  /** Rust's `checked_next_power_of_two`: the least power of two not below `x`, if it fits. */
  function NextPow2(x: usize): (r: Option<usize>)
    ensures r.Some? ==> x <= r.value && IsPow2(r.value) && (r.value < 2 * x || r.value == 1)
    ensures r.None? <==> x > 0x8000_0000_0000_0000
  {
    NextPow2From(x, 0)
  }

  function NextPow2From(x: usize, k: nat): (r: Option<usize>)
    requires k <= 63 && (k == 0 || Pow2(k - 1) < x)
    ensures r.Some? ==> x <= r.value && IsPow2(r.value) && (r.value < 2 * x || r.value == 1)
    ensures r.None? <==> x > 0x8000_0000_0000_0000
    decreases 63 - k
  {
    WordIsPow2();
    Pow2Monotonic(k, 63);
    assert Pow2(64) == 2 * Pow2(63);
    if x <= Pow2(k) then Some(Pow2(k))
    else if k == 63 then None
    else NextPow2From(x, k + 1)
  }

  /** A power of two is its own next power of two. */
  lemma NextPow2OfPow2(x: usize)
    requires IsPow2(x)
    ensures NextPow2(x) == Some(x)
  {
    var k := WordPow2(x);
    WordIsPow2();
    assert Pow2(64) == 2 * Pow2(63);
    Pow2Monotonic(k, 63);
    Pow2Divides(x, NextPow2(x).value);
  }
}
