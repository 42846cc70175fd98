/** Masking with a power of two minus one is taking the remainder. */
module Bits {

  function Pow2(k: nat): (p: nat)
    ensures p > 0
  {
    if k == 0 then 1 else 2 * Pow2(k - 1)
  }

  ghost predicate IsPow2(n: nat) {
    exists k: nat :: n == Pow2(k)
  }

  /** Bitwise and. */
  function And(a: nat, b: nat): nat {
    if a == 0 || b == 0 then 0 else 2 * And(a / 2, b / 2) + (if a % 2 == 1 && b % 2 == 1 then 1 else 0)
  }

  lemma MulAtLeast(m: nat, d: nat)
    requires d > 0
    ensures m * d >= m
  {
    assert m * d == m + m * (d - 1);
  }

  /** Quotient and remainder are unique. */
  lemma DivUnique(m: nat, q: nat, s: nat, q': nat, s': nat)
    requires s < m && s' < m && m * q + s == m * q' + s'
    ensures s == s'
  {
    if q > q' {
      MulAtLeast(m, q - q');
    } else if q < q' {
      MulAtLeast(m, q' - q);
    }
  }

  function Quo(h: nat, n: nat): nat
    requires n > 0
  {
    h / n
  }

  function Rem(h: nat, n: nat): nat
    requires n > 0
  {
    h % n
  }

  lemma DivMod(h: nat, n: nat)
    requires n > 0
    ensures h == n * Quo(h, n) + Rem(h, n) && Rem(h, n) < n
  {
  }

  lemma HalfMod(a: nat, c: nat, m: nat, n: nat)
    requires m > 0 && n == m + m && c < 2
    ensures Rem(2 * a + c, n) == 2 * Rem(a, m) + c
  {
    hide Quo, Rem;
    var h := 2 * a + c;
    DivMod(a, m);
    DivMod(h, n);
    HalfSum(a, c, m, Quo(a, m), Rem(a, m), Quo(h, n), Rem(h, n), n);
  }

  /** The remainder of 2a + c by 2m, from the remainder of a by m. */
  lemma HalfSum(a: nat, c: nat, m: nat, q: nat, r: nat, q2: nat, r2: nat, n: nat)
    requires c < 2 && r < m && a == m * q + r
    requires n == m + m && r2 < n && 2 * a + c == n * q2 + r2
    ensures r2 == 2 * r + c
  {
    Twice(m, q, n);
    DivUnique(n, q, 2 * r + c, q2, r2);
  }

  lemma Twice(m: nat, q: nat, n: nat)
    requires n == 2 * m
    ensures n * q == 2 * (m * q)
  {
  }

  lemma AndOdd(h: nat, m: nat)
    requires m > 0
    ensures And(h, 2 * m - 1) == 2 * And(h / 2, m - 1) + h % 2
  {
    assert (2 * m - 1) / 2 == m - 1 && (2 * m - 1) % 2 == 1;
    if h == 0 { assert And(0, m - 1) == 0; }
  }

  /** The mask of a power-of-two table selects the remainder. */
  lemma {:induction false} AndMask(h: nat, k: nat)
    ensures And(h, Pow2(k) - 1) == Rem(h, Pow2(k))
  {
    hide And, Rem;
    if k == 0 {
      AndZero(h);
    } else {
      var m := Pow2(k - 1);
      AndOdd(h, m);
      AndMask(h / 2, k - 1);
      Halves(h);
      HalfMod(h / 2, h % 2, m, Pow2(k));
    }
  }

  lemma Halves(h: nat)
    ensures 2 * (h / 2) + h % 2 == h
  {
  }

  lemma AndZero(h: nat)
    ensures And(h, Pow2(0) - 1) == 0 == Rem(h, Pow2(0))
  {
  }

  lemma AndBelow(h: nat, size: nat)
    requires IsPow2(size)
    ensures And(h, size - 1) == h % size < size
  {
    hide And;
    var k: nat :| size == Pow2(k);
    AndMask(h, k);
  }

  lemma DoublePow2(n: nat)
    requires IsPow2(n)
    ensures IsPow2(2 * n)
  {
    var k: nat :| n == Pow2(k);
    assert 2 * n == Pow2(k + 1);
  }

  lemma {:induction false} Pow2Grows(j: nat, k: nat)
    requires j <= k
    ensures Pow2(j) <= Pow2(k)
    decreases k - j
  {
    if j < k { Pow2Grows(j, k - 1); }
  }

  /** Nothing lies between a power of two and its double. */
  lemma NextPow2(a: nat, b: nat)
    requires IsPow2(a) && IsPow2(b) && a < b
    ensures 2 * a <= b
  {
    var j: nat :| a == Pow2(j);
    var k: nat :| b == Pow2(k);
    if k <= j { Pow2Grows(k, j); }
    Pow2Grows(j + 1, k);
  }
}
