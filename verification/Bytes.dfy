/**
 Bytes and the fixed-width integer encodings used by the image containers.
 Integers are unbounded; every width is an explicit parameter.
 */
module Bytes {
  type byte = x: int | 0 <= x < 0x100

  /** The exclusive upper bound of a u32 field. */
  const U32_LIMIT := 0x1_0000_0000

  /** The exclusive upper bound of a u16 field. */
  const U16_LIMIT := 0x1_0000

  /** 256 to the power `width`: how many values fit in `width` bytes. */
  function Capacity(width: nat): (r: nat)
    ensures r > 0
  {
    if width == 0 then 1 else 0x100 * Capacity(width - 1)
  }

  /** `to_le_bytes` for a field of `width` bytes. */
  function ToLe(n: nat, width: nat): (s: seq<byte>)
    ensures |s| == width
  {
    if width == 0 then [] else [n % 0x100] + ToLe(n / 0x100, width - 1)
  }

  /** `from_le_bytes` for a field of any width. */
  function FromLe(s: seq<byte>): nat {
    if s == [] then 0 else s[0] + 0x100 * FromLe(s[1..])
  }

  /** `to_be_bytes` for a field of `width` bytes. */
  function ToBe(n: nat, width: nat): (s: seq<byte>)
    ensures |s| == width
  {
    if width == 0 then [] else ToBe(n / 0x100, width - 1) + [n % 0x100]
  }

  /** `from_be_bytes` for a field of any width. */
  function FromBe(s: seq<byte>): nat {
    if s == [] then 0 else 0x100 * FromBe(s[..|s| - 1]) + s[|s| - 1]
  }

  lemma {:induction false} LeRoundTrip(n: nat, width: nat)
    requires n < Capacity(width)
    ensures FromLe(ToLe(n, width)) == n
  {
    if width > 0 {
      LeRoundTrip(n / 0x100, width - 1);
      assert ToLe(n, width)[1..] == ToLe(n / 0x100, width - 1);
    }
  }

  lemma LeHead(b: byte, n: nat, width: nat)
    ensures ToLe(b + 0x100 * n, width + 1) == [b] + ToLe(n, width)
  {
  }

  lemma {:induction false} LeRoundTripBytes(s: seq<byte>)
    ensures FromLe(s) < Capacity(|s|)
    ensures ToLe(FromLe(s), |s|) == s
  {
    if s != [] {
      var rest := s[1..];
      LeRoundTripBytes(rest);
      LeHead(s[0], FromLe(rest), |rest|);
      assert s == [s[0]] + rest;
    }
  }

  lemma {:induction false} BeRoundTrip(n: nat, width: nat)
    requires n < Capacity(width)
    ensures FromBe(ToBe(n, width)) == n
  {
    if width > 0 {
      BeRoundTrip(n / 0x100, width - 1);
      var s := ToBe(n, width);
      assert s[..|s| - 1] == ToBe(n / 0x100, width - 1);
    }
  }

  lemma {:induction false} BeRoundTripBytes(s: seq<byte>)
    ensures FromBe(s) < Capacity(|s|)
    ensures ToBe(FromBe(s), |s|) == s
  {
    if s != [] {
      var front := s[..|s| - 1];
      BeRoundTripBytes(front);
      assert s == front + [s[|s| - 1]];
    }
  }

  /** A number is its low bytes and its high bytes, each in its place. */
  lemma {:induction false} LeAppend(a: seq<byte>, b: seq<byte>)
    ensures FromLe(a + b) == FromLe(a) + Capacity(|a|) * FromLe(b)
  {
    if a == [] {
      assert a + b == b;
    } else {
      var rest := a[1..];
      assert (a + b)[1..] == rest + b;
      LeAppend(rest, b);
      Distribute(FromLe(rest), Capacity(|rest|), FromLe(b));
    }
  }

  lemma Distribute(k: nat, m: nat, n: nat)
    ensures 0x100 * (k + m * n) == 0x100 * k + 0x100 * m * n
  {
  }

  lemma {:induction false} BeAppend(a: seq<byte>, b: seq<byte>)
    ensures FromBe(a + b) == FromBe(a) * Capacity(|b|) + FromBe(b)
    decreases |b|
  {
    if b == [] {
      assert a + b == a;
    } else {
      var front := b[..|b| - 1];
      assert (a + b)[..|a + b| - 1] == a + front;
      BeAppend(a, front);
      DistributeOver(FromBe(a), Capacity(|front|));
    }
  }

  lemma OneByte(b: byte)
    ensures FromLe([b]) == b && FromBe([b]) == b
  {
    assert [b][1..] == [] && [b][..0] == [];
  }

  lemma DistributeOver(m: nat, n: nat)
    ensures m * n * 0x100 == m * (0x100 * n)
  {
  }

  /** The bytes of a text of ASCII characters. */
  function Ascii(s: string): (r: seq<byte>)
    ensures |r| == |s|
  {
    seq(|s|, i requires 0 <= i < |s| => s[i] as int % 0x100)
  }

  lemma Capacities()
    ensures Capacity(2) == U16_LIMIT
    ensures Capacity(4) == U32_LIMIT
  {
    assert Capacity(1) == 0x100;
    assert Capacity(3) == 0x100 * Capacity(2);
  }
}
