/**
 The parts of the hash as RFC 7693 has them, bit by bit: its constants (sections 2.6 and
 2.7), the mixing function (3.1) and what goes into and out of the rounds (3.2).
 */
module Blake2bReference {
  import Bits
  import opened Blake2b
  import opened BlockHashing
  import opened Bytes
  import opened Folds
  import opened Words

  // ----- Bits of words -----

  function Power(n: nat): nat {
    if n == 0 then 1 else 2 * Power(n - 1)
  }

  /** Bit `k` of a number. */
  function Bit(n: nat, k: nat): nat {
    Bits.Shr(n, k) % 2
  }

  lemma {:induction false} PowerAdds(i: nat, j: nat)
    ensures Power(i + j) == Power(i) * Power(j)
    decreases i
  {
    if i > 0 {
      PowerAdds(i - 1, j);
      assert Power(i + j) == 2 * Power(i - 1 + j);
    }
  }

  lemma {:induction false} PowerPositive(n: nat)
    ensures Power(n) > 0
  {
    if n > 0 {
      PowerPositive(n - 1);
    }
  }

  lemma DivideTwice(n: nat, p: nat)
    requires p > 0
    ensures n / 2 / p == n / (2 * p)
  {
    var q, r := n / 2 / p, n / 2 % p;
    var low, twice := 2 * r + n % 2, 2 * p;
    assert n / 2 == p * q + r;
    assert n == 2 * (p * q) + low;
    Doubled(p, q);
    Divided(low, q, twice);
  }

  lemma Doubled(p: nat, q: nat)
    ensures 2 * (p * q) == q * (2 * p)
  {
  }

  /** Shifting to the right is dividing by a power of two. */
  lemma {:induction false} ShrDivides(n: nat, k: nat)
    ensures Power(k) > 0 && Bits.Shr(n, k) == n / Power(k)
    decreases k
  {
    PowerPositive(k);
    if k > 0 {
      PowerPositive(k - 1);
      ShrDivides(n / 2, k - 1);
      DivideTwice(n, Power(k - 1));
    }
  }

  /** Shifting away a multiple of the power leaves the rest, up to an even number. */
  lemma {:induction false} ShrOfSum(q: nat, r: nat, n: nat, k: nat)
    requires k < n
    ensures Bit(q * Power(n) + r, k) == Bit(r, k)
    decreases k
  {
    var p := Power(n - 1);
    assert q * Power(n) == 2 * (q * p);
    if k == 0 {
    } else {
      assert (q * Power(n) + r) / 2 == q * p + r / 2;
      ShrOfSum(q, r / 2, n - 1, k - 1);
    }
  }

  lemma {:induction false} ShrPast(q: nat, r: nat, n: nat, k: nat)
    requires r < Power(n)
    ensures Bit(q * Power(n) + r, n + k) == Bit(q, k)
  {
    Bits.ShrAdds(q * Power(n) + r, n, k);
    ShrDivides(q * Power(n) + r, n);
    Divided(r, q, Power(n));
  }

  /** Exclusive or, bit by bit. */
  lemma XorBit(a: nat, b: nat, k: nat)
    ensures Bit(Bits.Xor(a, b), k) == (Bit(a, k) + Bit(b, k)) % 2
  {
    Bits.XorShr(a, b, k);
    Bits.XorHalves(Bits.Shr(a, k), Bits.Shr(b, k));
  }

  /** A turn to the right by `n` places. */
  predicate TurnsBy(t: Turn, n: nat) {
    0 < n < 64 && t.low == Power(n) && t.high == Power(64 - n)
  }

  lemma TurnedBit(q: nat, r: nat, n: nat, k: nat)
    requires 0 < n < 64 && k < 64 && q < Power(64 - n) && r < Power(n)
    ensures Bit(r * Power(64 - n) + q, k) == Bit(q * Power(n) + r, (k + n) % 64)
  {
    if k < 64 - n {
      ShrOfSum(r, q, 64 - n, k);
      ShrPast(q, r, n, k);
    } else {
      ShrPast(r, q, 64 - n, k - (64 - n));
      ShrOfSum(q, r, n, k - (64 - n));
    }
  }

  /** A rotation to the right moves every bit. */
  lemma RotateBit(a: Word, t: Turn, n: nat, k: nat)
    requires TurnsBy(t, n) && Turns(t) && k < 64
    ensures Bit(RotateRight(a, t), k) == Bit(a, (k + n) % 64)
  {
    var q, r := a / t.low, a % t.low;
    RotateFits(a, t);
    Parts(a, t.low);
    TurnedBit(q, r, n, k);
  }

  lemma Parts(a: nat, p: nat)
    requires p > 0
    ensures a == a / p * p + a % p
  {
  }

  // ----- The mixing function: section 3.1 -----

  /** `r` is the exclusive or of `a` and `b`, rotated to the right by `n` places. */
  predicate Rotated(r: Word, a: Word, b: Word, n: nat) {
    forall k: nat | k < 64 :: Bit(r, k) == (Bit(a, (k + n) % 64) + Bit(b, (k + n) % 64)) % 2
  }

  /** Four assignments: two sums that wrap around, and two rotations. */
  predicate HalfMixed(q: Quad, x: Word, h: Quad, m: nat, n: nat) {
    && h.a == (q.a + q.b + x) % 0x1_0000_0000_0000_0000
    && Rotated(h.d, q.d, h.a, m)
    && h.c == (q.c + h.d) % 0x1_0000_0000_0000_0000
    && Rotated(h.b, q.b, h.c, n)
  }

  lemma TurnIs(t: Turn, n: nat, a: Word, b: Word)
    requires TurnsBy(t, n) && Turns(t)
    ensures Rotated(RotateRight(Xor(a, b), t), a, b, n)
  {
    forall k: nat | k < 64
      ensures Bit(RotateRight(Xor(a, b), t), k) == (Bit(a, (k + n) % 64) + Bit(b, (k + n) % 64)) % 2
    {
      RotateBit(Xor(a, b), t, n, k);
      XorBit(a, b, (k + n) % 64);
    }
  }

  lemma Wraps(n: nat, times: nat)
    requires times * LIMIT <= n < (times + 1) * LIMIT
    ensures n % LIMIT == n - times * LIMIT
  {
  }

  lemma AddThree(a: Word, b: Word, x: Word)
    ensures Add(Add(a, b), x) == (a + b + x) % LIMIT
  {
    var once := if a + b < LIMIT then 0 else 1;
    Wraps(a + b, once);
    var sum := Add(a, b) + x;
    var twice := if sum < LIMIT then 0 else 1;
    Wraps(sum, twice);
    Wraps(a + b + x, once + twice);
  }

  lemma SumsMean(q: Quad, x: Word, s: Turn, t: Turn)
    requires Turns(s) && Turns(t)
    ensures var h := Half(q, x, s, t);
            && h.a == (q.a + q.b + x) % 0x1_0000_0000_0000_0000 && h.c == (q.c + h.d) % 0x1_0000_0000_0000_0000
            && h.d == RotateRight(Xor(q.d, h.a), s) && h.b == RotateRight(Xor(q.b, h.c), t)
  {
    AddThree(q.a, q.b, x);
  }

  lemma HalfMeans(q: Quad, x: Word, s: Turn, m: nat, t: Turn, n: nat)
    requires Turns(s) && Turns(t) && TurnsBy(s, m) && TurnsBy(t, n)
    ensures HalfMixed(q, x, Half(q, x, s, t), m, n)
  {
    var h := Half(q, x, s, t);
    SumsMean(q, x, s, t);
    TurnIs(s, m, q.d, h.a);
    TurnIs(t, n, q.b, h.c);
  }

  lemma Powers()
    ensures Power(8) == 0x100 && Power(16) == 0x1_0000 && Power(24) == 0x100_0000 && Power(32) == 0x1_0000_0000
    ensures Power(40) == 0x100_0000_0000 && Power(48) == 0x1_0000_0000_0000
    ensures Power(63) == 0x8000_0000_0000_0000 && Power(1) == 2
  {
    assert Power(8) == 0x100;
    assert Power(16) == 0x1_0000;
    assert Power(24) == 0x100_0000;
    assert Power(32) == 0x1_0000_0000;
    assert Power(40) == 0x100_0000_0000;
    assert Power(48) == 0x1_0000_0000_0000;
    assert Power(56) == 0x100_0000_0000_0000;
  }

  /** The rotations are by 32, 24, 16 and 63 places, in this order. */
  lemma MixMeans(q: Quad, x: Word, y: Word) returns (half: Quad)
    ensures HalfMixed(q, x, half, 32, 24) && HalfMixed(half, y, Mix(q, x, y), 16, 63)
  {
    AllTurn();
    Powers();
    half := Half(q, x, R32, R24);
    HalfMeans(q, x, R32, 32, R24, 24);
    HalfMeans(half, y, R16, 16, R63, 63);
  }

  // ----- The rounds: section 3.2 -----

  /** The words of a mixing: first the columns of the square, then its diagonals. */
  function PlacesOf(i: nat): Places {
    if i < 4 then Places(i, 4 + i, 8 + i, 12 + i)
    else Places(i % 4, 4 + (i + 1) % 4, 8 + (i + 2) % 4, 12 + (i + 3) % 4)
  }

  /** Mixing `i` of a round takes the next two message words of its row. */
  lemma RoundMeans(m: Words16, s: seq<nat>, i: nat)
    requires Row(s) && i < 8
    ensures |RoundSteps(m, s)| == 8
    ensures RoundSteps(m, s)[i].lane == PlacesOf(i)
    ensures RoundSteps(m, s)[i].x == m[s[2 * i]] && RoundSteps(m, s)[i].y == m[s[2 * i + 1]]
  {
  }

  /** All rounds, one after the other. */
  lemma {:induction false} StepsMean(sigma: Table, m: Words16, n: nat, round: nat, i: nat)
    requires round < n <= 12 && i < 8
    ensures |Steps(sigma, m, n)| == 8 * n && Steps(sigma, m, n)[8 * round + i] == RoundSteps(m, sigma[round])[i]
    decreases n
  {
    if round < n - 1 {
      StepsMean(sigma, m, n - 1, round, i);
    } else {
      StepsLength(sigma, m, n - 1);
    }
  }

  lemma {:induction false} StepsLength(sigma: Table, m: Words16, n: nat)
    requires n <= 12
    ensures |Steps(sigma, m, n)| == 8 * n
  {
    if n > 0 {
      StepsLength(sigma, m, n - 1);
    }
  }

  /** What goes in: the chain and the constants, with the counter, and all bits of one word flipped at the end. */
  lemma WorkingMeans(iv: Chain, h: Chain, counter: nat, last: bool, i: nat, k: nat)
    requires i < 16 && k < 64
    ensures Bit(Working(iv, h, counter, last)[i], k)
         == if i < 8 then Bit(h[i], k)
            else if i == 12 then (Bit(iv[4], k) + Bit(counter % 0x1_0000_0000_0000_0000, k)) % 2
            else if i == 13 then
              (Bit(iv[5], k) + Bit(counter / 0x1_0000_0000_0000_0000 % 0x1_0000_0000_0000_0000, k)) % 2
            else if i == 14 && last then 1 - Bit(iv[6], k)
            else Bit(iv[i - 8], k)
  {
    XorBit(iv[4], counter % LIMIT, k);
    XorBit(iv[5], counter / LIMIT % LIMIT, k);
    NotBit(iv[6], k);
  }

  lemma {:induction false} ComplementBit(n: nat, width: nat, k: nat)
    requires n < Power(width) && k < width
    ensures Bit(Power(width) - 1 - n, k) == 1 - Bit(n, k)
  {
    var p := Power(width - 1);
    assert (2 * p - 1 - n) / 2 == p - 1 - n / 2;
    if k > 0 {
      ComplementBit(n / 2, width - 1, k - 1);
    }
  }

  lemma NotBit(a: Word, k: nat)
    requires k < 64
    ensures Bit(Not(a), k) == 1 - Bit(a, k)
  {
    Powers();
    ComplementBit(a, 64, k);
  }

  /** What comes out: each word of the chain with both halves of the working vector. */
  lemma FedBackMeans(h: Chain, v: Words16, i: nat, k: nat)
    requires i < 8
    ensures Bit(FedBack(h, v)[i], k) == (Bit(h[i], k) + Bit(v[i], k) + Bit(v[i + 8], k)) % 2
  {
    XorBit(v[i], v[i + 8], k);
    XorBit(h[i], Xor(v[i], v[i + 8]), k);
  }

  // ----- The constants: sections 2.5 to 2.7 -----

  /** The fraction of a square root, in 64 bits. */
  predicate RootFraction(word: Word, prime: nat, whole: nat) {
    var n := whole * 0x1_0000_0000_0000_0000 + word;
    n * n <= prime * 0x1_0000_0000_0000_0000 * 0x1_0000_0000_0000_0000 < (n + 1) * (n + 1)
  }

  /** The initial words are those of the first eight primes. */
  lemma InitialWords()
    ensures RootFraction(IV[0], 2, 1) && RootFraction(IV[1], 3, 1) && RootFraction(IV[2], 5, 2)
    ensures RootFraction(IV[3], 7, 2) && RootFraction(IV[4], 11, 3) && RootFraction(IV[5], 13, 3)
    ensures RootFraction(IV[6], 17, 4) && RootFraction(IV[7], 19, 4)
  {
  }

  function DigitOf(c: char): int {
    if c <= '9' then c as int - '0' as int else c as int - 'a' as int + 10
  }

  /** A row of the schedule, written as digits. */
  predicate Written(row: seq<nat>, digits: string) {
    |row| == |digits| && forall i | 0 <= i < |row| :: row[i] == DigitOf(digits[i])
  }

  /** The rows of the schedule; the last two are the first two again. */
  lemma RowZero()
    ensures |SIGMA| == 12 && Written(SIGMA[0], "0123456789abcdef")
  {
  }

  lemma RowOne()
    ensures |SIGMA| == 12 && Written(SIGMA[1], "ea489fd61c02b753")
  {
  }

  lemma RowTwo()
    ensures |SIGMA| == 12 && Written(SIGMA[2], "b8c052fdae367194")
  {
  }

  lemma RowThree()
    ensures |SIGMA| == 12 && Written(SIGMA[3], "7931dcbe265a40f8")
  {
  }

  lemma RowFour()
    ensures |SIGMA| == 12 && Written(SIGMA[4], "905724afe1bc683d")
  {
  }

  lemma RowFive()
    ensures |SIGMA| == 12 && Written(SIGMA[5], "2c6a0b834d75fe19")
  {
  }

  lemma RowSix()
    ensures |SIGMA| == 12 && Written(SIGMA[6], "c51fed4a0763928b")
  {
  }

  lemma RowSeven()
    ensures |SIGMA| == 12 && Written(SIGMA[7], "db7ec13950f4862a")
  {
  }

  lemma RowEight()
    ensures |SIGMA| == 12 && Written(SIGMA[8], "6fe9b308c2d714a5")
  {
  }

  lemma RowNine()
    ensures |SIGMA| == 12 && Written(SIGMA[9], "a2847615fb9e3cd0")
  {
  }

  /** The parameters: a digest of 16 bytes, no key, a fanout and a depth of one. */
  lemma ParameterBytes()
    ensures ToLe(PARAMETERS, 8) == [16, 0, 1, 1, 0, 0, 0, 0]
  {
  }
}
