/** Unsigned machine-word arithmetic on naturals: powers of two, the bitwise
    AND of two naturals, and the facts about masks that the power-of-two
    alignment trick relies on. */
module Bits {

  /** 2^64: one more than the largest `size_t` / `uintptr_t` value. */
  const WORD: nat := 0x1_0000_0000_0000_0000

  /** n is a power of two (1, 2, 4, ...). */
  predicate IsPow2(n: nat)
    decreases n
  {
    if n <= 1 then n == 1 else n % 2 == 0 && IsPow2(n / 2)
  }

  /** Bitwise AND of two naturals, one bit at a time from the low end. */
  function BitAnd(x: nat, y: nat): nat
    decreases x
  {
    if x == 0 || y == 0 then 0
    else 2 * BitAnd(x / 2, y / 2) + (if x % 2 == 1 && y % 2 == 1 then 1 else 0)
  }

  lemma Double(n: nat)
    requires IsPow2(n)
    ensures IsPow2(2 * n)
  {
    assert (2 * n) / 2 == n;
  }

  lemma ProdDouble(h: nat, b: nat)
    ensures (2 * h) * b == 2 * (h * b)
  {
  }

  lemma {:induction false} Pow2Product(a: nat, b: nat)
    requires IsPow2(a) && IsPow2(b)
    ensures IsPow2(a * b)
    decreases a
  {
    if a > 1 {
      var h := a / 2;
      assert a == 2 * h;
      Pow2Product(h, b);
      Double(h * b);
      ProdDouble(h, b);
    }
  }

  /** 2^64 is a power of two, by squaring 2 six times. */
  lemma WordIsPow2()
    ensures IsPow2(WORD)
  {
    Double(1);
    Pow2Product(2, 2);
    Pow2Product(4, 4);
    Pow2Product(16, 16);
    Pow2Product(256, 256);
    Pow2Product(0x1_0000, 0x1_0000);
    Pow2Product(0x1_0000_0000, 0x1_0000_0000);
  }

  /** A power of two strictly below another power of two is at most half of it. */
  lemma {:induction false} Pow2Below(a: nat, n: nat)
    requires IsPow2(a) && IsPow2(n) && a < n
    ensures 2 * a <= n
    decreases n
  {
    if a > 1 {
      Pow2Below(a / 2, n / 2);
    }
  }

  /** ANDing with an all-ones mask below the top bit keeps the value. */
  lemma {:induction false} AndAllOnes(x: nat, n: nat)
    requires IsPow2(n) && x < n
    ensures BitAnd(x, n - 1) == x
    decreases x
  {
    if x != 0 {
      assert n >= 2 && n % 2 == 0;
      assert (n - 1) % 2 == 1 && (n - 1) / 2 == n / 2 - 1;
      AndAllOnes(x / 2, n / 2);
    }
  }

  /** Dividing by a power of two halves: splitting x into its low bit and the
      rest, x % a is the low bit plus twice the remainder of the rest. */
  lemma ModHalving(x: nat, a: nat)
    requires a >= 2 && a % 2 == 0
    ensures x % a == x % 2 + 2 * ((x / 2) % (a / 2))
  {
    var h := a / 2;
    var q, b := x / 2, x % 2;
    var m, r := q / h, q % h;
    assert x == a * m + (2 * r + b) by {
      assert x == 2 * q + b;
      assert q == h * m + r;
      assert 2 * (h * m) == a * m;
    }
    DivModUnique(x, a, m, 2 * r + b);
  }

  lemma DivModUnique(x: nat, a: nat, m: nat, t: nat)
    requires 0 <= t < a && x == a * m + t
    ensures x % a == t && x / a == m
  {
    var q, s := x / a, x % a;
    assert a * q + s == a * m + t;
    if q > m {
      assert a * q >= a * (m + 1) by { MulMonotone(a, m + 1, q); }
      assert false;
    } else if q < m {
      assert a * m >= a * (q + 1) by { MulMonotone(a, q + 1, m); }
      assert false;
    }
  }

  lemma MulMonotone(a: nat, i: nat, j: nat)
    requires i <= j
    ensures a * i <= a * j
  {
  }

  /** The alignment mask: for power-of-two a and N, and x below N,
      x & (N - a) clears the bits below a, giving x rounded down to a
      multiple of a. (N - a is ~(a - 1) in an N-wide word.) */
  lemma {:induction false} AndClearsLow(x: nat, n: nat, a: nat)
    requires IsPow2(n) && IsPow2(a) && a <= n && x < n
    ensures BitAnd(x, n - a) == x - x % a
    decreases a
  {
    if a == 1 {
      AndAllOnes(x, n);
    } else if x == 0 {
    } else if a == n {
      DivModUnique(x, a, 0, x);
    } else {
      var h, m := a / 2, n / 2;
      Pow2Below(a, n);
      assert a % 2 == 0 && IsPow2(h);
      assert n % 2 == 0 && IsPow2(m);
      var y := x / 2;
      assert y < m && h <= m;
      AndClearsLow(y, m, h);
      assert (n - a) % 2 == 0 && (n - a) / 2 == m - h;
      assert BitAnd(x, n - a) == 2 * BitAnd(y, m - h);
      ModHalving(x, a);
      assert x == 2 * y + x % 2;
    }
  }

  /** x with its remainder modulo a removed is a multiple of a. */
  lemma RoundDownIsMultiple(x: nat, a: nat)
    requires a > 0
    ensures x % a <= x && (x - x % a) % a == 0
  {
    DivModUnique(x - x % a, a, x / a, 0);
  }

  /** Two multiples of a that are less than a apart are equal. */
  lemma MultiplesApart(i: nat, j: nat, a: nat)
    requires a > 0 && i % a == 0 && j % a == 0 && i <= j < i + a
    ensures i == j
  {
    var p := i / a;
    assert i == a * p;
    DivModUnique(j, a, p, j - i);
  }
}
