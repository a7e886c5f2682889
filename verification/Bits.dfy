/**
 Exclusive or, right shift and low-bit masking on unsigned words, as
 functions on natural numbers read in binary.
 */
module Bits {
  function Xor(a: nat, b: nat): (r: nat)
    decreases a + b
  {
    if a == 0 && b == 0 then 0 else (if a % 2 == b % 2 then 0 else 1) + 2 * Xor(a / 2, b / 2)
  }

  /** `n >> count`. */
  function Shr(n: nat, count: nat): nat
    decreases n, count
  {
    if count == 0 then n else Shr(n / 2, count - 1)
  }

  /** The `count` lowest bits of `n`. */
  function Low(n: nat, count: nat): nat
    decreases n, count
  {
    if count == 0 then 0 else n % 2 + 2 * Low(n / 2, count - 1)
  }

  lemma {:induction false} XorZero(a: nat)
    ensures Xor(a, 0) == a && Xor(0, a) == a
  {
    if a > 0 {
      XorZero(a / 2);
    }
  }

  lemma {:induction false} XorSelf(a: nat)
    ensures Xor(a, a) == 0
  {
    if a > 0 {
      XorSelf(a / 2);
    }
  }

  lemma {:induction false} XorCommutes(a: nat, b: nat)
    ensures Xor(a, b) == Xor(b, a)
    decreases a + b
  {
    if a > 0 || b > 0 {
      XorCommutes(a / 2, b / 2);
    }
  }

  lemma {:induction false} XorAssociates(a: nat, b: nat, c: nat)
    ensures Xor(Xor(a, b), c) == Xor(a, Xor(b, c))
    decreases a + b + c
  {
    if a > 0 || b > 0 || c > 0 {
      XorAssociates(a / 2, b / 2, c / 2);
      XorHalves(a, b);
      XorHalves(b, c);
      XorHalves(Xor(a, b), c);
      XorHalves(a, Xor(b, c));
      SameHalves(Xor(Xor(a, b), c), Xor(a, Xor(b, c)));
    }
  }

  /** Exclusive or works on the lowest bit and on the rest separately. */
  lemma XorHalves(a: nat, b: nat)
    ensures Xor(a, b) / 2 == Xor(a / 2, b / 2)
    ensures Xor(a, b) % 2 == if a % 2 == b % 2 then 0 else 1
  {
    DoubleAndBit(if a % 2 == b % 2 then 0 else 1, Xor(a / 2, b / 2));
  }

  lemma DoubleAndBit(bit: nat, n: nat)
    requires bit < 2
    ensures (bit + 2 * n) / 2 == n
    ensures (bit + 2 * n) % 2 == bit
  {
  }

  /** Words with the same lowest bit and the same rest are equal. */
  lemma SameHalves(x: nat, y: nat)
    requires x / 2 == y / 2 && x % 2 == y % 2
    ensures x == y
  {
  }

  /** Two exclusive ors regroup in any order. */
  lemma XorSwap(a: nat, b: nat, c: nat, d: nat)
    ensures Xor(Xor(a, b), Xor(c, d)) == Xor(Xor(a, c), Xor(b, d))
  {
    XorAssociates(a, b, Xor(c, d));
    XorAssociates(b, c, d);
    XorCommutes(b, c);
    XorAssociates(c, b, d);
    XorAssociates(a, c, Xor(b, d));
  }

  /** Exclusive or with the same word is undone by repeating it. */
  lemma XorCancels(a: nat, b: nat)
    ensures Xor(Xor(a, b), b) == a
  {
    XorAssociates(a, b, b);
    XorSelf(b);
    XorZero(a);
  }

  lemma {:induction false} XorShr(a: nat, b: nat, count: nat)
    ensures Shr(Xor(a, b), count) == Xor(Shr(a, count), Shr(b, count))
    decreases count
  {
    if count > 0 {
      XorHalves(a, b);
      XorShr(a / 2, b / 2, count - 1);
    }
  }

  /** Words that have no bit beyond the `count` lowest keep that property. */
  lemma XorFits(a: nat, b: nat, count: nat)
    requires Shr(a, count) == 0 && Shr(b, count) == 0
    ensures Shr(Xor(a, b), count) == 0
  {
    XorShr(a, b, count);
  }

  lemma {:induction false} ShrAdds(n: nat, i: nat, j: nat)
    ensures Shr(Shr(n, i), j) == Shr(n, i + j)
    decreases i
  {
    if i > 0 {
      ShrAdds(n / 2, i - 1, j);
    }
  }

  /** Shifting by eight is division by 256, masking eight bits the remainder. */
  lemma EightBits(n: nat)
    ensures Shr(n, 8) == n / 0x100
    ensures Low(n, 8) == n % 0x100
  {
    var m := n / 0x10;
    FourBits(n);
    FourBits(m);
    ShrAdds(n, 4, 4);
    LowFourMore(n, 4);
  }

  lemma FourBits(n: nat)
    ensures Shr(n, 4) == n / 0x10
    ensures Low(n, 4) == n % 0x10
  {
    assert Shr(n / 8, 1) == Shr(n / 0x10, 0);
    assert Shr(n / 4, 2) == Shr(n / 8, 1);
    assert Shr(n, 4) == Shr(n / 2, 3) == Shr(n / 4, 2);
    LowFourMore(n, 0);
  }

  lemma LowFourMore(n: nat, count: nat)
    ensures Low(n, count + 4) == n % 0x10 + 0x10 * Low(n / 0x10, count)
  {
    var n1, n2, n3 := n / 2, n / 4, n / 8;
    assert Low(n3, count + 1) == n3 % 2 + 2 * Low(n / 0x10, count);
    assert Low(n2, count + 2) == n2 % 2 + 2 * Low(n3, count + 1);
    assert Low(n1, count + 3) == n1 % 2 + 2 * Low(n2, count + 2);
    assert Low(n, count + 4) == n % 2 + 2 * Low(n1, count + 3);
  }

  /** Where the bits do not overlap, adding is exclusive or. */
  lemma {:induction false} XorWithHigh(low: nat, high: nat, count: nat)
    requires Shr(low, count) == 0
    requires Low(high, count) == 0
    ensures Xor(low, high) == low + high
    decreases count
  {
    if count == 0 {
      XorZero(high);
    } else {
      XorHalves(low, high);
      XorWithHigh(low / 2, high / 2, count - 1);
    }
  }

  /** A word fits in 32 bits exactly when it is below two to the power 32. */
  lemma ThirtyTwoBits(n: nat)
    ensures Shr(n, 32) == 0 <==> n < 0x1_0000_0000
  {
    ShrAdds(n, 8, 24);
    ShrAdds(n / 0x100, 8, 16);
    ShrAdds(n / 0x100 / 0x100, 8, 8);
    EightBits(n);
    EightBits(n / 0x100);
    EightBits(n / 0x100 / 0x100);
    EightBits(n / 0x100 / 0x100 / 0x100);
  }
}
