/**
 The saturating binomial of the prompt analyser: multiply, then divide, with
 every product cut off at the largest u64.
 */
module Combinations {
  const U64_MAX: nat := 0xFFFF_FFFF_FFFF_FFFF

  function Min(a: nat, b: nat): nat {
    if a <= b then a else b
  }

  function SaturatingMul(a: nat, b: nat): nat {
    Min(a * b, U64_MAX)
  }

  /** The number of ways to choose `k` of `n`, by Pascal's rule. */
  function Choose(n: nat, k: nat): nat {
    if k == 0 then 1 else if n == 0 then 0 else Choose(n - 1, k - 1) + Choose(n - 1, k)
  }

  /** The product formed when the fold reaches C(n, i), before dividing by `i`. */
  function Product(n: nat, i: nat): nat {
    Choose(n, i) * i
  }

  /** Multiply, saturating, then divide. */
  function FoldStep(acc: nat, factor: nat, divisor: nat): nat
    requires divisor > 0
  {
    SaturatingMul(acc, factor) / divisor
  }

  /** No product saturates: the largest one is the last. */
  predicate Exact(n: nat, k: nat) {
    k > n || Product(n, Min(k, n - k)) <= U64_MAX
  }

  /** What the accumulator says about C(n, i). */
  predicate Accumulated(n: nat, i: nat, acc: nat) {
    acc <= Choose(n, i) && (acc == Choose(n, i) <==> Product(n, i) <= U64_MAX)
  }

  method CombSat(n: nat, k: nat) returns (r: nat)
    ensures r <= Choose(n, k)
    ensures r == Choose(n, k) <==> Exact(n, k)
  {
    ChooseFacts(n, k);
    if k > n {
      return 0;
    }
    var k' := Min(k, n - k);
    r := 1;
    for i := 0 to k'
      invariant Accumulated(n, i, r)
    {
      CombStep(n, i, r);
      r := FoldStep(r, n - i, i + 1);
    }
  }

  // ----- The multiply-then-divide rule -----

  /** C(n, k) (n - k) = C(n, k + 1) (k + 1), so every division is exact. */
  lemma {:induction false} Absorption(n: nat, k: nat)
    requires k <= n
    ensures Choose(n, k) * (n - k) == Choose(n, k + 1) * (k + 1)
  {
    if n == 0 {
    } else if k == 0 {
      ChooseOne(n);
    } else if k == n {
      ChooseTooMany(n, n + 1);
    } else {
      var a, b, c := Choose(n - 1, k - 1), Choose(n - 1, k), Choose(n - 1, k + 1);
      Absorption(n - 1, k - 1);
      Absorption(n - 1, k);
      assert a * (n - k) == b * k;
      assert b * (n - 1 - k) == c * (k + 1);
      AbsorbSums(a, b, c, n - k, k);
    }
  }

  lemma AbsorbSums(a: nat, b: nat, c: nat, m: nat, k: nat)
    requires m > 0 && a * m == b * k && b * (m - 1) == c * (k + 1)
    ensures (a + b) * m == (b + c) * (k + 1)
  {
    calc {
      (a + b) * m;
      a * m + b * m;
      b * k + (b * (m - 1) + b);
      b * (k + 1) + c * (k + 1);
      (b + c) * (k + 1);
    }
  }

  lemma {:induction false} ChooseOne(n: nat)
    ensures Choose(n, 1) == n
  {
    if n > 0 {
      ChooseOne(n - 1);
    }
  }

  lemma {:induction false} ChooseTooMany(n: nat, k: nat)
    requires k > n
    ensures Choose(n, k) == 0
  {
    if n > 0 {
      ChooseTooMany(n - 1, k - 1);
      ChooseTooMany(n - 1, k);
    }
  }

  lemma {:induction false} ChoosePositive(n: nat, k: nat)
    requires k <= n
    ensures Choose(n, k) > 0
  {
    if k > 0 {
      ChoosePositive(n - 1, k - 1);
    }
  }

  lemma {:induction false} ChooseSymmetric(n: nat, k: nat)
    requires k <= n
    ensures Choose(n, k) == Choose(n, n - k)
  {
    if k == n {
      ChooseAll(n);
    } else if k == 0 {
      ChooseAll(n);
    } else {
      ChooseSymmetric(n - 1, k - 1);
      ChooseSymmetric(n - 1, k);
    }
  }

  lemma {:induction false} ChooseAll(n: nat)
    ensures Choose(n, n) == 1
  {
    if n > 0 {
      ChooseAll(n - 1);
      ChooseTooMany(n - 1, n);
    }
  }

  lemma ChooseFacts(n: nat, k: nat)
    ensures k > n ==> Choose(n, k) == 0
    ensures k <= n ==> Choose(n, k) == Choose(n, Min(k, n - k))
  {
    if k > n {
      ChooseTooMany(n, k);
    } else {
      ChooseSymmetric(n, k);
    }
  }

  // ----- A product that does not fit -----

  function Power(n: nat): nat {
    if n == 0 then 1 else 2 * Power(n - 1)
  }

  lemma {:induction false} PowerAdds(m: nat, n: nat)
    ensures Power(m + n) == Power(m) * Power(n)
  {
    if m > 0 {
      PowerAdds(m - 1, n);
      assert 2 * (Power(m - 1) * Power(n)) == 2 * Power(m - 1) * Power(n);
    }
  }

  /** The middle of the triangle at least doubles from one even row to the next. */
  lemma {:induction false} MiddleGrows(k: nat)
    ensures Choose(2 * k, k) >= Power(k)
  {
    if k > 0 {
      MiddleGrows(k - 1);
      ChooseSymmetric(2 * k - 1, k);
      assert Choose(2 * k - 1, k) >= Choose(2 * (k - 1), k - 1);
    }
  }

  lemma Squared(n: nat, m: nat, p: nat)
    requires Power(n) == p && m == n + n
    ensures Power(m) == p * p
  {
    PowerAdds(n, n);
  }

  lemma {:induction false} PowerLarge(k: nat, m: nat)
    requires k >= m
    ensures Power(k) >= Power(m)
  {
    if k > m {
      PowerLarge(k - 1, m);
    }
  }

  lemma PowerExceeds(m: nat)
    requires m == 64
    ensures Power(m) > U64_MAX
  {
    var two, four, eight, sixteen, half := m / 32, m / 16, m / 8, m / 4, m / 2;
    Squared(two, four, 4);
    Squared(four, eight, 16);
    Squared(eight, sixteen, 0x100);
    Squared(sixteen, half, 0x1_0000);
    Squared(half, m, 0x1_0000_0000);
  }

  /** So from 128 alternatives on, to pick half of them the product saturates, and the result is too small. */
  lemma HalfSaturates(k: nat)
    requires k >= 64
    ensures !Exact(2 * k, k)
  {
    MiddleGrows(k);
    PowerLarge(k, 64);
    PowerExceeds(64);
    Monotone(Choose(2 * k, k), 1, k);
  }

  // ----- One step of the loop -----

  /** The products grow up to the middle, so once one saturates all later ones would. */
  lemma ProductsGrow(n: nat, i: nat)
    requires 2 * (i + 1) <= n
    ensures Product(n, i) <= Product(n, i + 1)
  {
    Absorption(n, i);
    Monotone(Choose(n, i), i, n - i);
  }

  lemma Monotone(c: nat, a: nat, b: nat)
    requires a <= b
    ensures c * a <= c * b
  {
  }

  lemma CombStep(n: nat, i: nat, acc: nat)
    requires 2 * (i + 1) <= n && Accumulated(n, i, acc)
    ensures Accumulated(n, i + 1, FoldStep(acc, n - i, i + 1))
  {
    var exact, d := Choose(n, i + 1), i + 1;
    Absorption(n, i);
    ProductsGrow(n, i);
    if acc == Choose(n, i) {
      if exact * d <= U64_MAX {
        DivideExact(exact, d);
      } else {
        DivideLess(U64_MAX, exact, d);
      }
    } else {
      StrictlyLess(acc, Choose(n, i), n - i);
      DivideLess(SaturatingMul(acc, n - i), exact, d);
    }
  }

  lemma StrictlyLess(a: nat, b: nat, c: nat)
    requires a < b && c > 0
    ensures a * c < b * c
  {
  }

  lemma DivideLess(p: nat, q: nat, d: nat)
    requires d > 0 && p < q * d
    ensures p / d < q
  {
    if p / d >= q {
      Monotone(d, q, p / d);
    }
  }

  lemma DivideExact(q: nat, d: nat)
    requires d > 0
    ensures q * d / d == q
  {
    var p := q * d;
    DivideLess(p, q + 1, d);
    if p / d < q {
      Monotone(d, p / d + 1, q);
    }
  }
}
