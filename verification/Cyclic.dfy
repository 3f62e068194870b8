/** Facts about residues that the ring buffers and the virtqueue share. */
module Cyclic {
  lemma ProductAtLeast(d: int, n: int)
    requires n >= 0
    requires d >= 1
    ensures d * n >= n
  {
    assert (d - 1) * n >= 0;
  }

  /** Zero is the only multiple of `n` strictly between `-n` and `n`. */
  lemma SmallMultiple(d: int, n: int)
    requires -n < d * n < n
    ensures d == 0
  {
    if d >= 1 {
      ProductAtLeast(d, n);
    } else if d <= -1 {
      ProductAtLeast(-d, n);
    }
  }

  /** Quotient and remainder are determined by the division equation. */
  lemma DivModUnique(x: nat, q: nat, m: nat, n: nat)
    requires m < n && x == q * n + m
    ensures x / n == q && x % n == m
  {
    var p := x / n;
    assert (p - q) * n == p * n - q * n;
    assert x == p * n + x % n;
    SmallMultiple(p - q, n);
  }

  /** Stepping to the next slot commutes with taking the residue. */
  lemma ModSuccessor(x: nat, n: nat)
    requires n > 0
    ensures (x + 1) % n == if x % n + 1 == n then 0 else x % n + 1
  {
    var q, m := x / n, x % n;
    assert x == q * n + m;
    if m + 1 == n {
      assert (q + 1) * n == q * n + n;
      DivModUnique(x + 1, q + 1, 0, n);
    } else {
      DivModUnique(x + 1, q, m + 1, n);
    }
  }

  lemma ModSmall(x: nat, n: nat)
    requires x < n
    ensures x % n == x && x / n == 0
  {
    DivModUnique(x, 0, x, n);
  }

  /** Adding a whole turn does not change the slot. */
  lemma ModAddTurn(x: nat, n: nat)
    requires n > 0
    ensures (x + n) % n == x % n && (x + n) / n == x / n + 1
  {
    var q := x / n;
    assert (q + 1) * n == q * n + n;
    DivModUnique(x + n, q + 1, x % n, n);
  }

  /** Two numbers less than a turn apart share a residue only when they are equal. */
  lemma ModInjective(x: nat, y: nat, n: nat)
    requires n > 0 && x <= y < x + n
    requires x % n == y % n
    ensures x == y
  {
    var p, q := x / n, y / n;
    assert x == p * n + x % n && y == q * n + y % n;
    assert (q - p) * n == q * n - p * n;
    SmallMultiple(q - p, n);
  }

  lemma DivMonotone(x: nat, y: nat, n: nat)
    requires n > 0 && x <= y
    ensures x / n <= y / n
  {
    var p, q := x / n, y / n;
    assert x == p * n + x % n && y == q * n + y % n;
    if p > q {
      assert (p - q) * n == p * n - q * n;
      ProductAtLeast(p - q, n);
    }
  }
}
