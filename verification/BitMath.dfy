/** Bitwise facts about natural numbers that the table and the encoders rely on. */
module BitMath {

  /** Bitwise "and" of two naturals, bit by bit from the low end. */
  function BitAnd(a: nat, b: nat): nat
    decreases a + b
  {
    if a == 0 || b == 0 then 0
    else (if a % 2 == 1 && b % 2 == 1 then 1 else 0) + 2 * BitAnd(a / 2, b / 2)
  }

  /** The runtime's test `(x & (x - 1)) == 0`; zero, which that test lets through, is excluded. */
  predicate IsPowerOfTwo(x: nat) {
    x > 0 && BitAnd(x, x - 1) == 0
  }

  lemma {:induction false} AndSelf(a: nat)
    ensures BitAnd(a, a) == a
  {
    if a > 0 { AndSelf(a / 2); }
  }

  lemma PowerOfTwoHalves(x: nat)
    requires IsPowerOfTwo(x) && x > 1
    ensures x % 2 == 0 && IsPowerOfTwo(x / 2)
  {
    if x % 2 == 1 {
      AndSelf(x / 2);
    }
  }

  lemma PowerOfTwoDoubles(x: nat)
    requires IsPowerOfTwo(x)
    ensures IsPowerOfTwo(2 * x)
  {
    assert (2 * x) / 2 == x && (2 * x - 1) / 2 == x - 1;
  }

  lemma SplitMod(h: nat, a: nat)
    requires a > 0
    ensures h % (2 * a) == h % 2 + 2 * ((h / 2) % a)
  {
    var q, r := (h / 2) / a, (h / 2) % a;
    var rest := h % 2 + 2 * r;
    assert h == (2 * a) * q + rest by {
      assert h / 2 == a * q + r;
      assert 2 * (a * q) == (2 * a) * q;
    }
    ModUnique(h, 2 * a, q, rest);
  }

  lemma ModUnique(h: nat, n: nat, q: nat, r: nat)
    requires n > 0 && r < n && h == n * q + r
    ensures h % n == r && h / n == q
  {
    var q', r' := h / n, h % n;
    assert n * (q' - q) == r - r';
    NoSmallMultiple(n, q' - q);
  }

  /** The only multiple of n strictly between -n and n is zero. */
  lemma NoSmallMultiple(n: int, d: int)
    requires n > 0
    ensures -n < n * d < n ==> d == 0
  {
    if d >= 1 { MulAtLeast(n, d); } else if d <= -1 { MulAtLeast(n, -d); }
  }

  lemma {:induction false} MulAtLeast(n: nat, d: nat)
    requires d >= 1
    ensures n * d >= n
  {
    if d > 1 { MulAtLeast(n, d - 1); }
  }

  /** Masking with a power of two less one is reduction modulo that power. */
  lemma {:induction false} MaskIsMod(h: nat, n: nat)
    requires IsPowerOfTwo(n)
    ensures BitAnd(h, n - 1) == h % n
    decreases n
  {
    if n > 1 {
      PowerOfTwoHalves(n);
      MaskIsMod(h / 2, n / 2);
      SplitMod(h, n / 2);
      assert (n - 1) / 2 == n / 2 - 1 && (n - 1) % 2 == 1;
    }
  }
}
