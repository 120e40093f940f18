/** Facts about products, quotients and remainders that several models share. */
module Arithmetic {

  lemma Monotone(a: nat, b: nat, n: nat)
    ensures a <= b ==> a * n <= b * n
  {
  }

  lemma DivMod(k: nat, i: nat, n: nat)
    requires i < n
    ensures (k * n + i) / n == k && (k * n + i) % n == i
  {
    var x := k * n + i;
    assert x == (x / n) * n + x % n;
    if x / n < k { Monotone(x / n + 1, k, n); }
    if x / n > k { Monotone(k + 1, x / n, n); }
  }

  lemma ModShift(r: nat, k: nat, n: nat)
    requires n > 0
    ensures (r + k * n) % n == r % n
  {
    var q, m := r / n, r % n;
    assert r + k * n == (q + k) * n + m;
    DivMod(q + k, m, n);
  }

  /** Numbers less than `n` apart have different remainders. */
  lemma ModDiffers(i: nat, j: nat, n: nat)
    requires n > 0 && i < j < i + n
    ensures i % n != j % n
  {
    var q, p := i / n, j / n;
    assert i == q * n + i % n && j == p * n + j % n;
    if i % n == j % n {
      if p <= q { Monotone(p, q, n); } else { Monotone(q + 1, p, n); }
    }
  }

  /** Reducing first by a multiple of `n` does not change the remainder. */
  lemma ModMod(i: nat, m: nat, n: nat)
    requires n > 0 && m > 0 && m % n == 0
    ensures (i % m) % n == i % n
  {
    var q, k := i / m, m / n;
    assert i == q * m + i % m && m == k * n;
    assert q * m == (q * k) * n;
    ModShift(i % m, q * k, n);
  }

  predicate IsPow2(n: nat)
  {
    n == 1 || (n > 0 && n % 2 == 0 && IsPow2(n / 2))
  }

  lemma {:induction false} Pow2Divides(n: nat, m: nat)
    requires IsPow2(n) && IsPow2(m) && n <= m
    ensures n > 0 && m % n == 0
  {
    if n > 1 {
      Pow2Divides(n / 2, m / 2);
      var h, g := n / 2, m / 2;
      assert g == (g / h) * h;
      assert m == (g / h) * n + 0;
      DivMod(g / h, 0, n);
    }
  }

  lemma TimesFour(n: nat)
    requires IsPow2(n)
    ensures IsPow2(4 * n)
  {
    assert 4 * n / 2 == 2 * n && 2 * n / 2 == n;
  }

  lemma WordIsPow2()
    ensures IsPow2(0x1_0000_0000)
  {
    TimesFour(1);
    TimesFour(4);
    TimesFour(0x10);
    TimesFour(0x40);
    TimesFour(0x100);
    TimesFour(0x400);
    TimesFour(0x1000);
    TimesFour(0x4000);
    TimesFour(0x1_0000);
    TimesFour(0x4_0000);
    TimesFour(0x10_0000);
    TimesFour(0x40_0000);
    TimesFour(0x100_0000);
    TimesFour(0x400_0000);
    TimesFour(0x1000_0000);
    TimesFour(0x4000_0000);
  }
}
