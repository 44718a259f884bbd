/** Facts about products and quotients that the solver does not find by itself. */
module Arithmetic {
  function Pow2(k: nat): (r: nat)
    ensures r > 0
  {
    if k == 0 then 1 else 2 * Pow2(k - 1)
  }

  lemma {:induction false} NonNegative(x: int, y: int)
    ensures x >= 0 && y >= 0 ==> x * y >= 0
    decreases x
  {
    if x > 0 {
      NonNegative(x - 1, y);
      assert x * y == (x - 1) * y + y;
    }
  }

  lemma Times(a: nat, b: nat, c: nat)
    ensures a < b ==> a * c + c <= b * c
  {
    if a < b {
      NonNegative(b - a - 1, c);
      assert (b - a - 1) * c == b * c - a * c - c;
    }
  }

  lemma Distribute(a: nat, b: nat, c: nat)
    ensures (a + b) * c == a * c + b * c
  {
  }

  lemma Swap(a: nat, b: nat, c: nat)
    ensures (a * b) * c == (a * c) * b
  {
  }

  lemma Quotient(x: nat, m: nat, q: nat, r: nat)
    requires m > 0 && r < m && x == q * m + r
    ensures x / m == q && x % m == r
  {
    QuotientBelow(x, m);
    var p := x / m;
    assert x == p * m + x % m;
    Times(q, p, m);
    Times(p, q, m);
  }

  lemma QuotientBelow(x: nat, m: nat)
    requires m > 0
    ensures 0 <= x / m <= x
  {
    var q := x / m;
    assert x == q * m + x % m;
    NonNegative(-q - 1, m);
    assert (-q - 1) * m == -(q * m) - m;
    NonNegative(q, m - 1);
    assert q * (m - 1) == q * m - q;
  }

  /** `k` steps of `w`: a product, without multiplying. */
  function Steps(w: nat, k: nat): nat {
    if k == 0 then 0 else Steps(w, k - 1) + w
  }

  lemma {:induction false} StepsMultiply(w: nat, k: nat)
    ensures Steps(w, k) == k * w
  {
    if k > 0 {
      StepsMultiply(w, k - 1);
      assert k * w == (k - 1) * w + w;
    }
  }

  lemma {:induction false} StepsAdd(w: nat, a: nat, b: nat)
    ensures Steps(w, a + b) == Steps(w, a) + Steps(w, b)
    decreases b
  {
    if b > 0 { StepsAdd(w, a, b - 1); }
  }

  lemma StepsGrow(w: nat, a: nat, b: nat)
    requires a <= b
    ensures Steps(w, a) <= Steps(w, b)
  {
    StepsAdd(w, a, b - a);
  }

  lemma StepsSwap(a: nat, b: nat)
    ensures Steps(a, b) == Steps(b, a)
  {
    StepsMultiply(a, b);
    StepsMultiply(b, a);
  }

  lemma {:induction false} StepsOfSteps(w: nat, n: nat, k: nat)
    ensures Steps(Steps(w, n), k) == Steps(w, Steps(n, k))
    decreases k
  {
    if k > 0 {
      StepsOfSteps(w, n, k - 1);
      StepsAdd(w, Steps(n, k - 1), n);
    }
  }

  /** Quotient and remainder, without dividing. */
  function Quot(x: nat, m: nat): nat
    requires m > 0
  {
    if x < m then 0 else Quot(x - m, m) + 1
  }

  function Rem(x: nat, m: nat): nat
    requires m > 0
  {
    if x < m then x else Rem(x - m, m)
  }

  lemma {:induction false} QuotRem(x: nat, m: nat)
    requires m > 0
    ensures x == Steps(m, Quot(x, m)) + Rem(x, m) && Rem(x, m) < m && Quot(x, m) <= x
    decreases x
  {
    if x >= m { QuotRem(x - m, m); }
  }

  /** They are the quotient and remainder of division. */
  lemma QuotDivides(x: nat, m: nat)
    requires m > 0
    ensures x / m == Quot(x, m) && x % m == Rem(x, m)
  {
    QuotRem(x, m);
    StepsMultiply(m, Quot(x, m));
    Quotient(x, m, Quot(x, m), Rem(x, m));
  }

  /** Whole steps further on, the quotient is as many larger and the remainder the same. */
  lemma {:induction false} QuotSteps(x: nat, m: nat, k: nat)
    requires m > 0
    ensures Quot(x + Steps(m, k), m) == Quot(x, m) + k && Rem(x + Steps(m, k), m) == Rem(x, m)
    decreases k
  {
    if k > 0 { QuotSteps(x, m, k - 1); }
  }

  lemma QuotOf(m: nat, q: nat, r: nat)
    requires r < m
    ensures Quot(Steps(m, q) + r, m) == q && Rem(Steps(m, q) + r, m) == r
  {
    QuotSteps(r, m, q);
  }

  /** Below `n` steps are the numbers with quotient below `n`. */
  lemma QuotBound(x: nat, m: nat, n: nat)
    requires m > 0
    ensures x < Steps(m, n) <==> Quot(x, m) < n
  {
    QuotRem(x, m);
    if Quot(x, m) < n { StepsGrow(m, Quot(x, m) + 1, n); } else { StepsGrow(m, n, Quot(x, m)); }
  }

  lemma QuotMonotone(x: nat, y: nat, m: nat)
    requires m > 0 && x <= y
    ensures Quot(x, m) <= Quot(y, m)
  {
    QuotBound(x, m, Quot(y, m) + 1);
    QuotBound(y, m, Quot(y, m) + 1);
  }
}
