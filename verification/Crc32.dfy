/**
 The CRC-32 of PNG chunks: the source keeps a 256-entry table and consumes a
 byte at a time; section 3.4 of RFC 2083 defines a shift register fed one bit
 at a time. This module proves them equal on every input, and that the
 checksum detects every error burst of at most 32 bits.
 */
module Crc32 {
  import opened Bits
  import opened Bytes

  const ALL_ONES: nat := 0xFFFF_FFFF

  /** The CRC-32 polynomial, reflected. */
  const POLYNOMIAL: nat := 0xEDB8_8320

  function PowerOfTwo(n: nat): nat {
    if n == 0 then 1 else 2 * PowerOfTwo(n - 1)
  }

  lemma Powers()
    ensures PowerOfTwo(8) == 0x100 && PowerOfTwo(16) == 0x1_0000 && PowerOfTwo(24) == 0x100_0000
    ensures PowerOfTwo(32) == 0x1_0000_0000
  {
    assert PowerOfTwo(8) == 0x100;
    assert PowerOfTwo(16) == 0x1_0000;
    assert PowerOfTwo(24) == 0x100_0000;
  }

  /** The powers of the polynomial of section 3.4 of RFC 2083 but the 32nd, each at its place from the top. */
  lemma PolynomialTerms()
    ensures POLYNOMIAL
         == PowerOfTwo(31 - 26) + PowerOfTwo(31 - 23) + PowerOfTwo(31 - 22) + PowerOfTwo(31 - 16) + PowerOfTwo(31 - 12)
            + PowerOfTwo(31 - 11) + PowerOfTwo(31 - 10) + PowerOfTwo(31 - 8) + PowerOfTwo(31 - 7) + PowerOfTwo(31 - 5)
            + PowerOfTwo(31 - 4) + PowerOfTwo(31 - 2) + PowerOfTwo(31 - 1) + PowerOfTwo(31)
    ensures ALL_ONES == PowerOfTwo(32) - 1
  {
    Powers();
  }

  /** One shift of the register. */
  function Shift(c: nat): nat {
    if c % 2 != 0 then Xor(POLYNOMIAL, c / 2) else c / 2
  }

  function ShiftBy(c: nat, count: nat): nat
    decreases c, count
  {
    if count == 0 then c else Shift(ShiftBy(c, count - 1))
  }

  // ----- The reference: the register of RFC 2083, one bit at a time -----

  /** Feed the `count` low bits of `bits` into the register, least significant first. */
  function FeedBits(c: nat, bits: nat, count: nat): nat
    decreases bits, count
  {
    if count == 0 then c else FeedBits(Shift(Xor(c, bits % 2)), bits / 2, count - 1)
  }

  function FeedByte(c: nat, b: byte): nat {
    FeedBits(c, b, 8)
  }

  function FeedAll(c: nat, data: seq<byte>): nat
    decreases |data|
  {
    if data == [] then c else FeedAll(FeedByte(c, data[0]), data[1..])
  }

  /** The checksum: the register started with all ones, complemented. */
  function Checksum(data: seq<byte>): nat {
    Xor(FeedAll(ALL_ONES, data), ALL_ONES)
  }

  // ----- The table-driven code -----

  method Crc32Table() returns (t: array<nat>)
    ensures fresh(t) && t.Length == 0x100
    ensures forall n: nat :: n < 0x100 ==> t[n] == ShiftBy(n, 8)
  {
    t := new nat[0x100];
    for n := 0 to 0x100
      invariant forall m: nat :: m < n ==> t[m] == ShiftBy(m, 8)
    {
      var c: nat := n;
      for k := 0 to 8
        invariant c == ShiftBy(n, k)
      {
        c := if c % 2 != 0 then Xor(POLYNOMIAL, c / 2) else c / 2;
      }
      t[n] := c;
    }
  }

  method ComputeCrc32(data: seq<byte>) returns (r: nat)
    ensures r == Checksum(data)
  {
    var t := Crc32Table();
    var c := ALL_ONES;
    ghost var register := FeedAll(c, data);
    for i := 0 to |data|
      invariant FeedAll(c, data[i..]) == register
    {
      ghost var before := c;
      c := Xor(t[Xor(c, data[i]) % 0x100], c / 0x100);
      assert c == FeedByte(before, data[i]) by {
        LookupFeedsByte(before, data[i]);
      }
      assert data[i..][1..] == data[i + 1..];
    }
    r := Xor(c, ALL_ONES);
  }

  // ----- Linearity of the register over exclusive or -----

  lemma ShiftLinear(a: nat, b: nat)
    ensures Shift(Xor(a, b)) == Xor(Shift(a), Shift(b))
  {
    XorHalves(a, b);
    var p, x, y := POLYNOMIAL, a / 2, b / 2;
    XorAssociates(p, x, y);
    XorAssociates(x, p, y);
    XorCommutes(x, p);
    XorSwap(p, x, p, y);
    XorSelf(p);
    XorZero(Xor(x, y));
  }

  lemma {:induction false} ShiftByLinear(a: nat, b: nat, count: nat)
    ensures ShiftBy(Xor(a, b), count) == Xor(ShiftBy(a, count), ShiftBy(b, count))
  {
    if count > 0 {
      ShiftByLinear(a, b, count - 1);
      ShiftLinear(ShiftBy(a, count - 1), ShiftBy(b, count - 1));
    }
  }

  lemma {:induction false} ShiftByAdds(c: nat, i: nat, j: nat)
    ensures ShiftBy(ShiftBy(c, i), j) == ShiftBy(c, i + j)
    decreases j
  {
    if j > 0 {
      ShiftByAdds(c, i, j - 1);
    }
  }

  /** Bits above the `count` lowest only move down. */
  lemma {:induction false} HighBitsOnlyMove(h: nat, count: nat)
    requires Low(h, count) == 0
    ensures ShiftBy(h, count) == Shr(h, count)
    decreases count
  {
    if count > 0 {
      HighBitsOnlyMove(h / 2, count - 1);
      ShiftByAdds(h, 1, count - 1);
      assert ShiftBy(h, 1) == Shift(ShiftBy(h, 0)) == h / 2;
    }
  }

  // ----- One lookup does the work of eight shift/xor steps -----

  /** Feeding bits one by one is xoring them in at once and shifting. */
  lemma {:induction false} FeedBitsShifts(c: nat, bits: nat, count: nat)
    requires Shr(bits, count) == 0
    ensures FeedBits(c, bits, count) == ShiftBy(Xor(c, bits), count)
    decreases count
  {
    if count == 0 {
      XorZero(c);
    } else {
      FeedBitsShifts(Shift(Xor(c, bits % 2)), bits / 2, count - 1);
      ShiftByAdds(Xor(c, bits), 1, count - 1);
      assert ShiftBy(Xor(c, bits), 1) == Shift(ShiftBy(Xor(c, bits), 0));
      SplitLowBit(c, bits);
    }
  }

  lemma SplitLowBit(c: nat, bits: nat)
    ensures Shift(Xor(c, bits)) == Xor(Shift(Xor(c, bits % 2)), bits / 2)
  {
    var low, high := bits % 2, 2 * (bits / 2);
    LowBitAlone(low, high);
    XorAssociates(c, low, high);
    ShiftLinear(Xor(c, low), high);
    ShiftEven(bits / 2);
  }

  lemma ShiftEven(n: nat)
    ensures Shift(2 * n) == n
  {
  }

  lemma LowBitAlone(low: nat, high: nat)
    requires low < 2 && high % 2 == 0
    ensures Xor(low, high) == low + high
  {
    XorHalves(low, high);
    XorZero(high / 2);
  }

  lemma FeedByteShifts(c: nat, b: byte)
    ensures FeedByte(c, b) == ShiftBy(Xor(c, b), 8)
  {
    EightBits(b);
    FeedBitsShifts(c, b, 8);
  }

  lemma AboveByte(n: nat)
    ensures Low(0x100 * n, 8) == 0
    ensures Shr(0x100 * n, 8) == n
  {
    EightBits(0x100 * n);
  }

  /** Eight shifts of a word: its low byte through the table, the rest moved down. */
  lemma ShiftByEight(x: nat)
    ensures ShiftBy(x, 8) == Xor(ShiftBy(x % 0x100, 8), x / 0x100)
  {
    var low, high := x % 0x100, 0x100 * (x / 0x100);
    EightBits(low);
    AboveByte(x / 0x100);
    XorWithHigh(low, high, 8);
    ShiftByLinear(low, high, 8);
    HighBitsOnlyMove(high, 8);
  }

  lemma LookupFeedsByte(c: nat, b: byte)
    ensures Xor(ShiftBy(Xor(c, b) % 0x100, 8), c / 0x100) == FeedByte(c, b)
  {
    FeedByteShifts(c, b);
    ShiftByEight(Xor(c, b));
    EightBits(Xor(c, b));
    EightBits(c);
    EightBits(b);
    XorShr(c, b, 8);
    XorZero(c / 0x100);
  }

  // ----- The checksum of a whole message -----

  /** The whole message, read as one number, pushed through the register at once. */
  lemma {:induction false} FeedAllShifts(c: nat, data: seq<byte>)
    ensures FeedAll(c, data) == ShiftBy(Xor(c, FromLe(data)), 8 * |data|)
    decreases |data|
  {
    if data == [] {
      XorZero(c);
    } else {
      var b, rest := data[0], data[1..];
      FeedByteShifts(c, b);
      FeedAllShifts(FeedByte(c, b), rest);
      ShiftPastByte(c, b, FromLe(rest));
      ShiftByAdds(Xor(c, FromLe(data)), 8, 8 * |rest|);
    }
  }

  /** Shifting a byte out brings what lay above it down, untouched. */
  lemma ShiftPastByte(c: nat, b: byte, rest: nat)
    ensures ShiftBy(Xor(c, b + 0x100 * rest), 8) == Xor(ShiftBy(Xor(c, b), 8), rest)
  {
    var high := 0x100 * rest;
    AboveByte(rest);
    EightBits(b);
    XorWithHigh(b, high, 8);
    XorAssociates(c, b, high);
    ShiftByLinear(Xor(c, b), high, 8);
    HighBitsOnlyMove(high, 8);
  }

  /** A nonzero 32-bit register never shifts to zero. */
  lemma ShiftKeepsNonzero(z: nat)
    requires 0 < z < U32_LIMIT
    ensures 0 < Shift(z) < U32_LIMIT
  {
    var h := z / 2;
    ThirtyTwoBits(h);
    ThirtyTwoBits(POLYNOMIAL);
    ThirtyTwoBits(Xor(POLYNOMIAL, h));
    XorFits(POLYNOMIAL, h, 32);
    if Xor(POLYNOMIAL, h) == 0 {
      XorCancels(POLYNOMIAL, h);
      XorZero(h);
      assert false;
    }
  }

  lemma {:induction false} ShiftByKeepsNonzero(z: nat, count: nat)
    requires 0 < z < U32_LIMIT
    ensures 0 < ShiftBy(z, count) < U32_LIMIT
  {
    if count > 0 {
      ShiftByKeepsNonzero(z, count - 1);
      ShiftKeepsNonzero(ShiftBy(z, count - 1));
    }
  }

  lemma InvertedDiffer(x: nat, y: nat, mask: nat)
    requires Xor(x, y) > 0
    ensures Xor(x, mask) != Xor(y, mask)
  {
    XorCancels(x, mask);
    XorCancels(y, mask);
    XorSelf(x);
  }

  /**
   Every error burst of at most 32 bits is detected: two messages of one length whose
   difference is confined to 32 consecutive bits have different checksums.
   */
  lemma DetectsBursts(a: seq<byte>, b: seq<byte>, start: nat)
    requires |a| == |b| && start <= 8 * |a|
    requires var d := Xor(FromLe(a), FromLe(b));
             Low(d, start) == 0 && 0 < Shr(d, start) < U32_LIMIT
    ensures Checksum(a) != Checksum(b)
  {
    var d, n := Xor(FromLe(a), FromLe(b)), 8 * |a|;
    FeedAllDifference(ALL_ONES, a, b);
    HighBitsOnlyMove(d, start);
    ShiftByAdds(d, start, n - start);
    ShiftByKeepsNonzero(Shr(d, start), n - start);
    InvertedDiffer(FeedAll(ALL_ONES, a), FeedAll(ALL_ONES, b), ALL_ONES);
  }

  /** The registers of two messages differ by their difference, shifted all the way. */
  lemma FeedAllDifference(c: nat, a: seq<byte>, b: seq<byte>)
    requires |a| == |b|
    ensures Xor(FeedAll(c, a), FeedAll(c, b)) == ShiftBy(Xor(FromLe(a), FromLe(b)), 8 * |a|)
  {
    FeedAllShifts(c, a);
    FeedAllShifts(c, b);
    ShiftByLinear(Xor(c, FromLe(a)), Xor(c, FromLe(b)), 8 * |a|);
    XorSwap(c, FromLe(a), c, FromLe(b));
    XorSelf(c);
    XorZero(Xor(FromLe(a), FromLe(b)));
  }

  /** The register and the checksum stay within 32 bits, so they fit the CRC field. */
  lemma ChecksumFits(data: seq<byte>)
    ensures Checksum(data) < U32_LIMIT
  {
    FeedAllFits(ALL_ONES, data);
    ThirtyTwoBits(ALL_ONES);
    ThirtyTwoBits(FeedAll(ALL_ONES, data));
    XorFits(FeedAll(ALL_ONES, data), ALL_ONES, 32);
    ThirtyTwoBits(Checksum(data));
  }

  lemma {:induction false} FeedAllFits(c: nat, data: seq<byte>)
    requires c < U32_LIMIT
    ensures FeedAll(c, data) < U32_LIMIT
    decreases |data|
  {
    if data != [] {
      var x := Xor(c, data[0]);
      FeedByteShifts(c, data[0]);
      ThirtyTwoBits(c);
      ThirtyTwoBits(data[0]);
      XorFits(c, data[0], 32);
      ThirtyTwoBits(x);
      if x > 0 {
        ShiftByKeepsNonzero(x, 8);
      } else {
        HighBitsOnlyMove(0, 8);
        EightBits(0);
      }
      FeedAllFits(FeedByte(c, data[0]), data[1..]);
    }
  }
}
