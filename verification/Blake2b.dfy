/**
 Words of 64 bits: addition that wraps around, exclusive or and rotation.
 */
module Words {
  import Bits

  const LIMIT := 0x1_0000_0000_0000_0000

  type Word = w: int | 0 <= w < LIMIT

  function Add(a: Word, b: Word): Word {
    (a + b) % LIMIT
  }

  /** What `Add` of the same word undoes. */
  function Sub(a: Word, b: Word): Word {
    (a - b) % LIMIT
  }

  function Xor(a: Word, b: Word): Word {
    XorFits(a, b);
    Bits.Xor(a, b)
  }

  function Not(a: Word): Word {
    LIMIT - 1 - a
  }

  /** A rotation to the right, by the powers of two of its two sides. */
  datatype Turn = Turn(low: nat, high: nat)

  predicate Turns(t: Turn) {
    t.low > 0 && t.high > 0 && t.low * t.high == LIMIT
  }

  const R32 := Turn(0x1_0000_0000, 0x1_0000_0000)
  const R24 := Turn(0x100_0000, 0x100_0000_0000)
  const R16 := Turn(0x1_0000, 0x1_0000_0000_0000)
  const R63 := Turn(0x8000_0000_0000_0000, 2)

  function RotateRight(a: Word, t: Turn): Word
    requires Turns(t)
  {
    RotateFits(a, t);
    a / t.low + a % t.low * t.high
  }

  lemma RotateFits(a: Word, t: Turn)
    requires Turns(t)
    ensures a / t.low < t.high
    ensures 0 <= a / t.low + a % t.low * t.high < LIMIT
  {
    var q, r := a / t.low, a % t.low;
    assert a == q * t.low + r;
    assert q >= t.high ==> q * t.low >= t.high * t.low;
    assert r * t.high <= (t.low - 1) * t.high;
    assert (t.low - 1) * t.high == LIMIT - t.high;
    assert r * t.high >= 0;
  }

  lemma XorFits(a: Word, b: Word)
    ensures Bits.Xor(a, b) < LIMIT
  {
    SixtyFourBits(a);
    SixtyFourBits(b);
    Bits.XorFits(a, b, 64);
    SixtyFourBits(Bits.Xor(a, b));
  }

  lemma SixtyFourBits(n: nat)
    ensures Bits.Shr(n, 64) == 0 <==> n < LIMIT
  {
    Bits.ShrAdds(n, 32, 32);
    UpperHalf(n);
    Bits.ThirtyTwoBits(n / 0x1_0000_0000);
  }

  lemma UpperHalf(n: nat)
    ensures Bits.Shr(n, 32) == n / 0x1_0000_0000
  {
    var n1, n2, n3 := n / 0x100, n / 0x1_0000, n / 0x100_0000;
    assert n2 == n1 / 0x100 && n3 == n2 / 0x100;
    Bits.ShrAdds(n, 8, 24);
    Bits.ShrAdds(n1, 8, 16);
    Bits.ShrAdds(n2, 8, 8);
    Bits.EightBits(n);
    Bits.EightBits(n1);
    Bits.EightBits(n2);
    Bits.EightBits(n3);
  }

  // ----- Each operation can be undone -----

  lemma AddSub(a: Word, b: Word)
    ensures Sub(Add(a, b), b) == a
    ensures Add(Sub(a, b), b) == a
  {
  }

  lemma XorXor(a: Word, b: Word)
    ensures Xor(Xor(a, b), b) == a
  {
    Bits.XorCancels(a, b);
  }

  function Back(t: Turn): Turn {
    Turn(t.high, t.low)
  }

  lemma RotateBack(a: Word, t: Turn)
    requires Turns(t)
    ensures Turns(Back(t)) && RotateRight(RotateRight(a, t), Back(t)) == a
  {
    var q, r := a / t.low, a % t.low;
    RotateFits(a, t);
    Divided(q, r, t.high);
  }

  lemma Divided(q: nat, r: nat, high: nat)
    requires q < high
    ensures (q + r * high) / high == r && (q + r * high) % high == q
  {
    var n := q + r * high;
    var k := n / high;
    assert n == k * high + n % high;
    assert k < r ==> (k + 1) * high <= r * high;
    assert k > r ==> k * high >= (r + 1) * high;
  }

  lemma AllTurn()
    ensures Turns(R32) && Turns(R24) && Turns(R16) && Turns(R63)
  {
  }
}

/** Steps taken one after the other. */
module Folds {
  function Fold<S, I>(f: (S, I) -> S, s: S, items: seq<I>): S
    decreases |items|
  {
    if items == [] then s else Fold(f, f(s, items[0]), items[1..])
  }

  /** The steps taken from the last to the first. */
  function Unfold<S, I>(g: (S, I) -> S, s: S, items: seq<I>): S
    decreases |items|
  {
    if items == [] then s else g(Unfold(g, s, items[1..]), items[0])
  }

  lemma {:induction false} Undone<S(!new), I(!new)>(f: (S, I) -> S, g: (S, I) -> S, s: S, items: seq<I>)
    requires forall s, i :: g(f(s, i), i) == s
    ensures Unfold(g, Fold(f, s, items), items) == s
    decreases |items|
  {
    if items != [] {
      Undone(f, g, f(s, items[0]), items[1..]);
    }
  }

  lemma {:induction false} Redone<S(!new), I(!new)>(f: (S, I) -> S, g: (S, I) -> S, s: S, items: seq<I>)
    requires forall s, i :: f(g(s, i), i) == s
    ensures Fold(f, Unfold(g, s, items), items) == s
    decreases |items|
  {
    if items != [] {
      Redone(f, g, s, items[1..]);
    }
  }

  lemma {:induction false} FoldAppend<S, I>(f: (S, I) -> S, s: S, a: seq<I>, b: seq<I>)
    ensures Fold(f, s, a + b) == Fold(f, Fold(f, s, a), b)
    decreases |a|
  {
    if a == [] {
      assert a + b == b;
    } else {
      assert (a + b)[1..] == a[1..] + b;
      FoldAppend(f, f(s, a[0]), a[1..], b);
    }
  }

  lemma FoldMore<S, I>(f: (S, I) -> S, s: S, a: seq<I>, i: I)
    ensures Fold(f, s, a + [i]) == f(Fold(f, s, a), i)
  {
    FoldAppend(f, s, a, [i]);
    assert [i][1..] == [];
  }
}

/**
 Hashing a message block by block: section 3.3 of RFC 7693, for any compression
 function.
 */
module BlockHashing {
  import opened Bytes

  type Block = b: seq<byte> | |b| == 128 witness seq(128, i => 0)

  /** From the chain, a block, the number of bytes up to its end and whether it is the last. */
  type Compressor<!H> = (H, Block, nat, bool) -> H

  /** The number of blocks: at least one, and no more than the input fills. */
  function BlockCount(n: nat): nat {
    if n == 0 then 1 else (n + 127) / 128
  }

  /** Block `i` of the input, with zeros after its end. */
  function BlockAt(input: seq<byte>, i: nat): Block {
    seq(128, j requires 0 <= j < 128 => if 128 * i + j < |input| then input[128 * i + j] else 0)
  }

  /** The chain after the first `i` blocks, none of them the last. */
  function ChainAfter<H>(f: Compressor<H>, first: H, input: seq<byte>, i: nat): H {
    if i == 0 then first
    else f(ChainAfter(f, first, input, i - 1), BlockAt(input, i - 1), 128 * i, false)
  }

  /** All blocks, the last one flagged, with the bytes taken in so far counted. */
  function Hashed<H>(f: Compressor<H>, first: H, input: seq<byte>): H {
    var last := BlockCount(|input|) - 1;
    f(ChainAfter(f, first, input, last), BlockAt(input, last), |input|, true)
  }

  /** The bytes, with zeros after them. */
  function Padded(bytes: seq<byte>): Block
    requires |bytes| <= 128
  {
    bytes + seq(128 - |bytes|, j => 0)
  }

  /** The blocks from `offset` on, as a loop takes them. */
  function HashedFrom<H>(f: Compressor<H>, h: H, input: seq<byte>, offset: nat): H
    requires offset <= |input|
    decreases |input| - offset
  {
    if |input| - offset > 128 then
      HashedFrom(f, f(h, input[offset..offset + 128], offset + 128, false), input, offset + 128)
    else
      f(h, Padded(input[offset..]), |input|, true)
  }

  lemma FullBlock(input: seq<byte>, i: nat)
    requires 128 * i + 128 < |input|
    ensures input[128 * i..128 * i + 128] == BlockAt(input, i)
    ensures i + 1 < BlockCount(|input|)
  {
  }

  lemma LastPadded(input: seq<byte>, i: nat)
    requires i == BlockCount(|input|) - 1
    ensures 128 * i <= |input| <= 128 * i + 128 && Padded(input[128 * i..]) == BlockAt(input, i)
  {
  }

  /** A loop over the input takes the blocks one by one and stops with the last. */
  lemma {:induction false} LoopHashes<H>(f: Compressor<H>, first: H, input: seq<byte>, i: nat)
    requires i < BlockCount(|input|)
    ensures 128 * i <= |input|
    ensures HashedFrom(f, ChainAfter(f, first, input, i), input, 128 * i) == Hashed(f, first, input)
    decreases BlockCount(|input|) - i
  {
    if 128 * i + 128 < |input| {
      FullBlock(input, i);
      LoopHashes(f, first, input, i + 1);
    } else {
      LastPadded(input, i);
    }
  }

  /** Exactly the input is hashed: its blocks hold its bytes, with zeros only after its end. */
  lemma BlocksCover(input: seq<byte>)
    ensures 128 * (BlockCount(|input|) - 1) <= |input| <= 128 * BlockCount(|input|)
    ensures |input| > 0 ==> 128 * (BlockCount(|input|) - 1) < |input|
    ensures forall k | 0 <= k < |input| ::
              k / 128 < BlockCount(|input|) && BlockAt(input, k / 128)[k % 128] == input[k]
  {
    forall k | 0 <= k < |input|
      ensures k / 128 < BlockCount(|input|) && BlockAt(input, k / 128)[k % 128] == input[k]
    {
      assert 128 * (k / 128) + k % 128 == k;
    }
  }
}

/** The BLAKE2b hash of RFC 7693, without a key and with a digest of 16 bytes. */
module Blake2b {
  import opened BlockHashing
  import opened Bytes
  import opened Folds
  import opened Words

  const IV: seq<Word> := [
    0x6a09e667f3bcc908, 0xbb67ae8584caa73b, 0x3c6ef372fe94f82b, 0xa54ff53a5f1d36f1,
    0x510e527fade682d1, 0x9b05688c2b3e6c1f, 0x1f83d9abfb41bd6b, 0x5be0cd19137e2179]

  /** The schedule, with its first two rows repeated at the end. */
  const SIGMA: seq<seq<nat>> := [
    [0, 1, 2, 3, 4, 5, 6, 7, 8, 9, 10, 11, 12, 13, 14, 15],
    [14, 10, 4, 8, 9, 15, 13, 6, 1, 12, 0, 2, 11, 7, 5, 3],
    [11, 8, 12, 0, 5, 2, 15, 13, 10, 14, 3, 6, 7, 1, 9, 4],
    [7, 9, 3, 1, 13, 12, 11, 14, 2, 6, 5, 10, 4, 0, 15, 8],
    [9, 0, 5, 7, 2, 4, 10, 15, 14, 1, 11, 12, 6, 8, 3, 13],
    [2, 12, 6, 10, 0, 11, 8, 3, 4, 13, 7, 5, 15, 14, 1, 9],
    [12, 5, 1, 15, 14, 13, 4, 10, 0, 7, 6, 3, 9, 2, 8, 11],
    [13, 11, 7, 14, 12, 1, 3, 9, 5, 0, 15, 4, 8, 6, 2, 10],
    [6, 15, 14, 9, 11, 3, 0, 8, 12, 2, 13, 7, 1, 4, 10, 5],
    [10, 2, 8, 4, 7, 6, 1, 5, 15, 11, 9, 14, 3, 12, 13, 0],
    [0, 1, 2, 3, 4, 5, 6, 7, 8, 9, 10, 11, 12, 13, 14, 15],
    [14, 10, 4, 8, 9, 15, 13, 6, 1, 12, 0, 2, 11, 7, 5, 3]]

  predicate Row(s: seq<nat>) {
    |s| == 16 && forall i | 0 <= i < 16 :: s[i] < 16
  }

  /** A schedule for the twelve rounds. */
  type Table = s: seq<seq<nat>> | |s| == 12 && forall i | 0 <= i < 12 :: Row(s[i])
    witness seq(12, i => seq(16, j => 0))

  /** Round `i` uses row `i mod 10`, as section 2.7 of RFC 7693 has it. */
  lemma Schedule(i: nat)
    requires i < 12
    ensures |SIGMA| == 12 && SIGMA[i] == SIGMA[i % 10] && Row(SIGMA[i])
  {
    if i < 4 {
      if i < 2 { if i == 0 {} else {} } else { if i == 2 {} else {} }
    } else if i < 8 {
      if i < 6 { if i == 4 {} else {} } else { if i == 6 {} else {} }
    } else {
      if i < 10 { if i == 8 {} else {} } else { if i == 10 {} else {} }
    }
  }

  type Chain = h: seq<Word> | |h| == 8 witness seq(8, i => 0)

  /** The constants of the hash: the schedule, the initial chain and the parameter block. */
  datatype Setup = Setup(sigma: Table, iv: Chain, parameters: Word)

  lemma Schedules()
    ensures |SIGMA| == 12 && forall i | 0 <= i < 12 :: Row(SIGMA[i])
  {
    forall i | 0 <= i < 12 ensures Row(SIGMA[i]) {
      Schedule(i);
    }
  }

  // ----- The mixing function: section 3.1 -----

  /** Half of the mixing of four words with one word of the message. */
  datatype Quad = Quad(a: Word, b: Word, c: Word, d: Word)

  function Half(q: Quad, x: Word, s: Turn, t: Turn): Quad
    requires Turns(s) && Turns(t)
  {
    var a := Add(Add(q.a, q.b), x);
    var d := RotateRight(Xor(q.d, a), s);
    var c := Add(q.c, d);
    var b := RotateRight(Xor(q.b, c), t);
    Quad(a, b, c, d)
  }

  function Unhalf(q: Quad, x: Word, s: Turn, t: Turn): Quad
    requires Turns(s) && Turns(t) && Turns(Back(s)) && Turns(Back(t))
  {
    var b := Xor(RotateRight(q.b, Back(t)), q.c);
    var c := Sub(q.c, q.d);
    var d := Xor(RotateRight(q.d, Back(s)), q.a);
    var a := Sub(Sub(q.a, x), b);
    Quad(a, b, c, d)
  }

  function Mix(q: Quad, x: Word, y: Word): Quad {
    AllTurn();
    Half(Half(q, x, R32, R24), y, R16, R63)
  }

  function Unmix(q: Quad, x: Word, y: Word): Quad {
    AllTurn();
    Unhalf(Unhalf(q, y, R16, R63), x, R32, R24)
  }

  lemma HalfUndone(q: Quad, x: Word, s: Turn, t: Turn)
    requires Turns(s) && Turns(t) && Turns(Back(s)) && Turns(Back(t))
    ensures Unhalf(Half(q, x, s, t), x, s, t) == q
  {
    var h := Half(q, x, s, t);
    RotateBack(Xor(q.b, h.c), t);
    XorXor(q.b, h.c);
    AddSub(q.c, h.d);
    RotateBack(Xor(q.d, h.a), s);
    XorXor(q.d, h.a);
    AddSub(Add(q.a, q.b), x);
    AddSub(q.a, q.b);
  }

  lemma HalfRedone(q: Quad, x: Word, s: Turn, t: Turn)
    requires Turns(s) && Turns(t) && Turns(Back(s)) && Turns(Back(t))
    ensures Half(Unhalf(q, x, s, t), x, s, t) == q
  {
    var u := Unhalf(q, x, s, t);
    AddSub(Sub(q.a, x), u.b);
    AddSub(q.a, x);
    XorXor(RotateRight(q.d, Back(s)), q.a);
    RotateBack(q.d, Back(s));
    AddSub(q.c, q.d);
    XorXor(RotateRight(q.b, Back(t)), q.c);
    RotateBack(q.b, Back(t));
  }

  /** For fixed message words, the mixing of four words is a bijection. */
  lemma MixBijective(q: Quad, x: Word, y: Word)
    ensures Unmix(Mix(q, x, y), x, y) == q && Mix(Unmix(q, x, y), x, y) == q
  {
    HalfUndone(Half(q, x, R32, R24), y, R16, R63);
    HalfUndone(q, x, R32, R24);
    HalfRedone(Unhalf(q, y, R16, R63), x, R32, R24);
    HalfRedone(q, y, R16, R63);
  }

  // ----- Rounds on the sixteen words -----

  type Words16 = v: seq<Word> | |v| == 16 witness seq(16, i => 0)

  /** The four different places that a mixing works on. */
  datatype Places = Places(a: nat, b: nat, c: nat, d: nat)

  predicate Separate(l: Places) {
    && l.a < 16 && l.b < 16 && l.c < 16 && l.d < 16
    && l.a != l.b && l.a != l.c && l.a != l.d && l.b != l.c && l.b != l.d && l.c != l.d
  }

  type Lane = l: Places | Separate(l) witness Places(0, 4, 8, 12)

  datatype Mixing = Mixing(lane: Lane, x: Word, y: Word)

  function Take(v: Words16, l: Lane): Quad {
    Quad(v[l.a], v[l.b], v[l.c], v[l.d])
  }

  function Put(v: Words16, l: Lane, q: Quad): Words16 {
    v[l.a := q.a][l.b := q.b][l.c := q.c][l.d := q.d]
  }

  function Mixed(v: Words16, m: Mixing): Words16 {
    Put(v, m.lane, Mix(Take(v, m.lane), m.x, m.y))
  }

  function Unmixed(v: Words16, m: Mixing): Words16 {
    Put(v, m.lane, Unmix(Take(v, m.lane), m.x, m.y))
  }

  lemma PutTake(v: Words16, l: Lane, q: Quad, r: Quad)
    ensures Take(Put(v, l, q), l) == q
    ensures Put(Put(v, l, q), l, r) == Put(v, l, r)
    ensures Put(v, l, Take(v, l)) == v
  {
  }

  lemma MixedBijective(v: Words16, m: Mixing)
    ensures Unmixed(Mixed(v, m), m) == v && Mixed(Unmixed(v, m), m) == v
  {
    var q := Take(v, m.lane);
    MixBijective(q, m.x, m.y);
    PutTake(v, m.lane, Mix(q, m.x, m.y), q);
    PutTake(v, m.lane, Unmix(q, m.x, m.y), q);
  }

  /** The mixings, one after the other. */
  function MixAll(v: Words16, steps: seq<Mixing>): Words16 {
    Fold<Words16, Mixing>(Mixed, v, steps)
  }

  lemma MixAppend(v: Words16, a: seq<Mixing>, b: seq<Mixing>)
    ensures MixAll(v, a + b) == MixAll(MixAll(v, a), b)
  {
    FoldAppend<Words16, Mixing>(Mixed, v, a, b);
  }

  lemma MixMore(v: Words16, a: seq<Mixing>, m: Mixing)
    ensures MixAll(v, a + [m]) == Mixed(MixAll(v, a), m)
  {
    FoldMore<Words16, Mixing>(Mixed, v, a, m);
  }

  /** The mixings of one round: the columns, then the diagonals. */
  function RoundSteps(m: Words16, s: seq<nat>): seq<Mixing>
    requires Row(s)
  {
    [Mixing(Places(0, 4, 8, 12), m[s[0]], m[s[1]]),
     Mixing(Places(1, 5, 9, 13), m[s[2]], m[s[3]]),
     Mixing(Places(2, 6, 10, 14), m[s[4]], m[s[5]]),
     Mixing(Places(3, 7, 11, 15), m[s[6]], m[s[7]]),
     Mixing(Places(0, 5, 10, 15), m[s[8]], m[s[9]]),
     Mixing(Places(1, 6, 11, 12), m[s[10]], m[s[11]]),
     Mixing(Places(2, 7, 8, 13), m[s[12]], m[s[13]]),
     Mixing(Places(3, 4, 9, 14), m[s[14]], m[s[15]])]
  }

  /** The mixings of the first `n` rounds. */
  function Steps(sigma: Table, m: Words16, n: nat): seq<Mixing>
    requires n <= 12
  {
    if n == 0 then [] else Steps(sigma, m, n - 1) + RoundSteps(m, sigma[n - 1])
  }

  /** For a fixed message block, the twelve rounds are a bijection. */
  lemma RoundsBijective(sigma: Table, v: Words16, m: Words16)
    ensures Unfold(Unmixed, MixAll(v, Steps(sigma, m, 12)), Steps(sigma, m, 12)) == v
    ensures MixAll(Unfold(Unmixed, v, Steps(sigma, m, 12)), Steps(sigma, m, 12)) == v
  {
    forall w: Words16, i: Mixing ensures Unmixed(Mixed(w, i), i) == w && Mixed(Unmixed(w, i), i) == w {
      MixedBijective(w, i);
    }
    Undone(Mixed, Unmixed, v, Steps(sigma, m, 12));
    Redone(Mixed, Unmixed, v, Steps(sigma, m, 12));
  }

  method HalfInPlace(v: array<Word>, l: Lane, x: Word, s: Turn, t: Turn)
    requires v.Length == 16 && Turns(s) && Turns(t)
    modifies v
    ensures v[..] == Put(old(v[..]), l, Half(Take(old(v[..]), l), x, s, t))
  {
    v[l.a] := Add(Add(v[l.a], v[l.b]), x);
    v[l.d] := RotateRight(Xor(v[l.d], v[l.a]), s);
    v[l.c] := Add(v[l.c], v[l.d]);
    v[l.b] := RotateRight(Xor(v[l.b], v[l.c]), t);
  }

  method MixInPlace(v: array<Word>, l: Lane, x: Word, y: Word)
    requires v.Length == 16
    modifies v
    ensures v[..] == Mixed(old(v[..]), Mixing(l, x, y))
  {
    AllTurn();
    ghost var before := v[..];
    ghost var half := Half(Take(before, l), x, R32, R24);
    HalfInPlace(v, l, x, R32, R24);
    HalfInPlace(v, l, y, R16, R63);
    PutTake(before, l, half, Half(half, y, R16, R63));
  }

  /** One mixing more of those since `start`. */
  method MixNext(v: array<Word>, l: Lane, x: Word, y: Word, ghost start: Words16, ghost done: seq<Mixing>)
    requires v.Length == 16 && v[..] == MixAll(start, done)
    modifies v
    ensures v[..] == MixAll(start, done + [Mixing(l, x, y)])
  {
    MixMore(start, done, Mixing(l, x, y));
    MixInPlace(v, l, x, y);
  }

  method RoundInPlace(v: array<Word>, m: Words16, s: seq<nat>)
    requires v.Length == 16 && Row(s)
    modifies v
    ensures v[..] == MixAll(old(v[..]), RoundSteps(m, s))
  {
    ghost var start: Words16, steps: seq<Mixing> := v[..], RoundSteps(m, s);
    assert steps[..0] == [];
    MixNext(v, Places(0, 4, 8, 12), m[s[0]], m[s[1]], start, steps[..0]);
    assert steps[..0] + [steps[0]] == steps[..1];
    MixNext(v, Places(1, 5, 9, 13), m[s[2]], m[s[3]], start, steps[..1]);
    assert steps[..1] + [steps[1]] == steps[..2];
    MixNext(v, Places(2, 6, 10, 14), m[s[4]], m[s[5]], start, steps[..2]);
    assert steps[..2] + [steps[2]] == steps[..3];
    MixNext(v, Places(3, 7, 11, 15), m[s[6]], m[s[7]], start, steps[..3]);
    assert steps[..3] + [steps[3]] == steps[..4];
    MixNext(v, Places(0, 5, 10, 15), m[s[8]], m[s[9]], start, steps[..4]);
    assert steps[..4] + [steps[4]] == steps[..5];
    MixNext(v, Places(1, 6, 11, 12), m[s[10]], m[s[11]], start, steps[..5]);
    assert steps[..5] + [steps[5]] == steps[..6];
    MixNext(v, Places(2, 7, 8, 13), m[s[12]], m[s[13]], start, steps[..6]);
    assert steps[..6] + [steps[6]] == steps[..7];
    MixNext(v, Places(3, 4, 9, 14), m[s[14]], m[s[15]], start, steps[..7]);
    assert steps[..7] + [steps[7]] == steps;
  }

  // ----- The compression function: section 3.2 -----

  function WordAt(block: Block, i: nat): Word
    requires i < 16
  {
    EightBytes(block[8 * i..8 * i + 8]);
    FromLe(block[8 * i..8 * i + 8])
  }

  lemma EightBytes(s: seq<byte>)
    requires |s| == 8
    ensures FromLe(s) < LIMIT
  {
    LeRoundTripBytes(s);
    assert Capacity(3) == 0x100_0000;
    assert Capacity(6) == 0x1_0000_0000_0000;
    assert Capacity(8) == LIMIT;
  }

  /** The sixteen words of a message block. */
  function MessageWords(block: Block): Words16 {
    seq(16, i requires 0 <= i < 16 => WordAt(block, i))
  }

  /** The working vector before the first round. */
  function Working(iv: Chain, h: Chain, counter: nat, last: bool): Words16
  {
    h + iv[..4] + [Xor(iv[4], counter % LIMIT), Xor(iv[5], counter / LIMIT % LIMIT),
                   if last then Not(iv[6]) else iv[6], iv[7]]
  }

  /** Both halves of the working vector go into the chain. */
  function FedBack(h: Chain, v: Words16): Chain {
    seq(8, i requires 0 <= i < 8 => Xor(h[i], Xor(v[i], v[i + 8])))
  }

  function Compressed(k: Setup, h: Chain, block: Block, counter: nat, last: bool): Chain
  {
    FedBack(h, MixAll(Working(k.iv, h, counter, last), Steps(k.sigma, MessageWords(block), 12)))
  }

  function CompressWith(k: Setup): Compressor<Chain> {
    (h: Chain, block: Block, counter: nat, last: bool) => Compressed(k, h, block, counter, last)
  }

  method Load(block: Block) returns (m: array<Word>)
    ensures fresh(m) && m[..] == MessageWords(block)
  {
    m := new Word[16](_ => 0);
    for i := 0 to 16
      invariant m[..i] == MessageWords(block)[..i]
    {
      m[i] := WordAt(block, i);
    }
  }

  method Prepare(iv: Chain, h: array<Word>, counter: nat, last: bool) returns (v: array<Word>)
    requires h.Length == 8
    ensures fresh(v) && v.Length == 16 && v[..] == Working(iv, h[..], counter, last)
  {
    v := new Word[16](i requires 0 <= i < 16 reads h => if i < 8 then h[i] else iv[i - 8]);
    v[12] := Xor(v[12], counter % LIMIT);
    v[13] := Xor(v[13], counter / LIMIT % LIMIT);
    if last {
      v[14] := Not(v[14]);
    }
  }

  method RoundsInPlace(sigma: Table, v: array<Word>, m: Words16)
    requires v.Length == 16
    modifies v
    ensures v[..] == MixAll(old(v[..]), Steps(sigma, m, 12))
  {
    ghost var start: Words16 := v[..];
    for i := 0 to 12
      invariant v[..] == MixAll(start, Steps(sigma, m, i))
    {
      MixAppend(start, Steps(sigma, m, i), RoundSteps(m, sigma[i]));
      RoundInPlace(v, m, sigma[i]);
    }
  }

  method FeedBack(h: array<Word>, v: array<Word>)
    requires h.Length == 8 && v.Length == 16 && h != v
    modifies h
    ensures h[..] == FedBack(old(h[..]), v[..])
  {
    for i := 0 to 8
      invariant forall k | 0 <= k < 8 :: h[k] == if k < i then FedBack(old(h[..]), v[..])[k] else old(h[..])[k]
    {
      h[i] := Xor(h[i], Xor(v[i], v[i + 8]));
    }
  }

  method Compress(k: Setup, h: array<Word>, block: Block, counter: nat, last: bool)
    requires h.Length == 8
    modifies h
    ensures h[..] == Compressed(k, old(h[..]), block, counter, last)
  {
    var m := Load(block);
    var v := Prepare(k.iv, h, counter, last);
    RoundsInPlace(k.sigma, v, m[..]);
    FeedBack(h, v);
  }

  // ----- The hash -----

  /** The parameter block of an unkeyed hash with a digest of 16 bytes. */
  const PARAMETERS: Word := 0x0101_0010

  function TheSetup(): Setup {
    Schedules();
    Setup(SIGMA, IV, PARAMETERS)
  }

  function FirstChain(k: Setup): Chain {
    k.iv[0 := Xor(k.iv[0], k.parameters)]
  }

  function Digest(input: seq<byte>): (d: seq<byte>)
    ensures |d| == 16
  {
    var k := TheSetup();
    var h := Hashed(CompressWith(k), FirstChain(k), input);
    ToLe(h[0], 8) + ToLe(h[1], 8)
  }

  /** A buffer of zeros with some bytes copied to its start. */
  method FillBlock(bytes: seq<byte>) returns (block: Block)
    requires |bytes| <= 128
    ensures block == Padded(bytes)
  {
    var buffer := new byte[128](_ => 0);
    for j := 0 to |bytes|
      invariant forall k | 0 <= k < 128 :: buffer[k] == if k < j then bytes[k] else 0
    {
      buffer[j] := bytes[j];
    }
    return buffer[..];
  }

  method StartChain(k: Setup) returns (h: array<Word>)
    ensures fresh(h) && h.Length == 8 && h[..] == FirstChain(k)
  {
    h := new Word[8](i requires 0 <= i < 8 => k.iv[i]);
    h[0] := Xor(h[0], k.parameters);
  }

  /** The compression of a block, as the hash of any message uses it. */
  method TakeBlock(k: Setup, ghost f: Compressor<Chain>, h: array<Word>, bytes: seq<byte>, counter: nat, last: bool)
    requires h.Length == 8 && |bytes| <= 128 && f == CompressWith(k)
    modifies h
    ensures h[..] == f(old(h[..]), Padded(bytes), counter, last)
  {
    var block := FillBlock(bytes);
    Compress(k, h, block, counter, last);
  }

  /** The loop over the blocks. */
  method HashBlocks(k: Setup, ghost f: Compressor<Chain>, input: seq<byte>) returns (h: array<Word>)
    requires f == CompressWith(k)
    ensures h.Length == 8 && h[..] == HashedFrom<Chain>(f, FirstChain(k), input, 0)
  {
    h := StartChain(k);
    var offset := 0;
    ghost var goal := HashedFrom<Chain>(f, FirstChain(k), input, 0);
    while |input| - offset > 128
      invariant offset <= |input|
      invariant HashedFrom<Chain>(f, h[..], input, offset) == goal
    {
      assert Padded(input[offset..offset + 128]) == input[offset..offset + 128];
      TakeBlock(k, f, h, input[offset..offset + 128], offset + 128, false);
      offset := offset + 128;
    }
    TakeBlock(k, f, h, input[offset..], |input|, true);
  }

  method Blake2b128(input: seq<byte>) returns (out: seq<byte>)
    ensures out == Digest(input)
  {
    var k := TheSetup();
    LoopHashes(CompressWith(k), FirstChain(k), input, 0);
    var h := HashBlocks(k, CompressWith(k), input);
    return ToLe(h[0], 8) + ToLe(h[1], 8);
  }
}
