/** The URL-safe base64 of section 5 of RFC 4648, with padding. */
module Base64Url {
  import opened Bytes
  import opened Results

  const PAD: byte := 0x3d

  /** The symbol of a value: letters, digits, minus and underscore. */
  function Symbol(v: nat): byte
    requires v < 64
  {
    if v < 26 then 0x41 + v
    else if v < 52 then 0x61 + (v - 26)
    else if v < 62 then 0x30 + (v - 52)
    else if v == 62 then 0x2d
    else 0x5f
  }

  function Value(b: byte): (r: Option<nat>)
    ensures r.Some? ==> r.value < 64
  {
    if 0x41 <= b <= 0x5a then Some(b - 0x41)
    else if 0x61 <= b <= 0x7a then Some(b - 0x61 + 26)
    else if 0x30 <= b <= 0x39 then Some(b - 0x30 + 52)
    else if b == 0x2d then Some(62)
    else if b == 0x5f then Some(63)
    else None
  }

  /** Symbols and values stand for each other; padding is not a symbol. */
  lemma SymbolValue(v: nat, b: byte)
    ensures v < 64 ==> Value(Symbol(v)) == Some(v) && Symbol(v) != PAD
    ensures Value(b).Some? ==> Symbol(Value(b).value) == b
  {
  }

  /** Table 2 of RFC 4648. */
  const CAPITALS := "ABCDEFGHIJKLMNOPQRSTUVWXYZ"
  const SMALL_LETTERS := "abcdefghijklmnopqrstuvwxyz"
  const DIGITS_AND_SIGNS := "0123456789-_"

  function Letter(v: nat): byte
    requires v < 64
  {
    Sizes();
    Ascii(CAPITALS + SMALL_LETTERS + DIGITS_AND_SIGNS)[v]
  }

  lemma Sizes()
    ensures |CAPITALS| == |SMALL_LETTERS| == 26 && |DIGITS_AND_SIGNS| == 12
  {
  }

  lemma SymbolsAre(v: nat)
    requires v < 64
    ensures Symbol(v) == Letter(v) && [PAD] == Ascii("=")
  {
    Sizes();
    var all := CAPITALS + SMALL_LETTERS + DIGITS_AND_SIGNS;
    if v < 26 {
      Capital(v);
      assert all[v] == CAPITALS[v];
    } else if v < 52 {
      Small(v - 26);
      assert all[v] == SMALL_LETTERS[v - 26];
    } else {
      Other(v - 52);
      assert all[v] == DIGITS_AND_SIGNS[v - 52];
    }
  }

  lemma Capital(v: nat)
    requires v < 26
    ensures |CAPITALS| == 26 && CAPITALS[v] as int == 0x41 + v
  {
  }

  lemma Small(v: nat)
    requires v < 26
    ensures |SMALL_LETTERS| == 26 && SMALL_LETTERS[v] as int == 0x61 + v
  {
  }

  lemma Other(v: nat)
    requires v < 12
    ensures |DIGITS_AND_SIGNS| == 12
    ensures DIGITS_AND_SIGNS[v] as int == (if v < 10 then 0x30 + v else if v == 10 then 0x2d else 0x5f)
  {
  }

  function Encode(s: seq<byte>): seq<byte> {
    if s == [] then []
    else if |s| == 1 then [Symbol(s[0] / 4), Symbol(s[0] % 4 * 16), PAD, PAD]
    else if |s| == 2 then
      [Symbol(s[0] / 4), Symbol(s[0] % 4 * 16 + s[1] / 16), Symbol(s[1] % 16 * 4), PAD]
    else
      [Symbol(s[0] / 4), Symbol(s[0] % 4 * 16 + s[1] / 16), Symbol(s[1] % 16 * 4 + s[2] / 64), Symbol(s[2] % 64)]
      + Encode(s[3..])
  }

  /** The bytes of the last four symbols; the bits that are left over must be zero. */
  function DecodeLast(s: seq<byte>): Option<seq<byte>>
    requires |s| == 4
  {
    var (a, b, c, d) := (Value(s[0]), Value(s[1]), Value(s[2]), Value(s[3]));
    if a.None? || b.None? then None
    else if s[2] == PAD && s[3] == PAD then
      if b.value % 16 == 0 then Some([a.value * 4 + b.value / 16]) else None
    else if c.None? then None
    else if s[3] == PAD then
      if c.value % 4 == 0 then Some([a.value * 4 + b.value / 16, b.value % 16 * 16 + c.value / 4]) else None
    else if d.None? then None
    else Some([a.value * 4 + b.value / 16, b.value % 16 * 16 + c.value / 4, c.value % 4 * 64 + d.value])
  }

  /** The bytes that are encoded; nothing for what no bytes are encoded to. */
  function Decode(s: seq<byte>): Option<seq<byte>> {
    if s == [] then Some([])
    else if |s| < 4 then None
    else if |s| == 4 then DecodeLast(s)
    else
      var head := DecodeLast(s[..4]);
      if head.None? || |head.value| < 3 then None
      else
        match Decode(s[4..])
        case None => None
        case Some(rest) => Some(head.value + rest)
  }

  /** Three bytes are cut into four values of six bits, and put together again. */
  lemma SixBits(a: byte, b: byte, c: byte)
    ensures a / 4 * 4 + (a % 4 * 16 + b / 16) / 16 == a
    ensures (a % 4 * 16 + b / 16) % 16 * 16 + (b % 16 * 4 + c / 64) / 4 == b
    ensures (b % 16 * 4 + c / 64) % 4 * 64 + c % 64 == c
  {
  }

  lemma DecodeGroup(s: seq<byte>)
    requires 1 <= |s| <= 3
    ensures |Encode(s)| == 4 && DecodeLast(Encode(s)) == Some(s)
  {
    if |s| == 1 {
      DecodeOne(s);
    } else if |s| == 2 {
      DecodeTwo(s);
    } else {
      DecodeThree(s);
    }
  }

  lemma DecodeOne(s: seq<byte>)
    requires |s| == 1
    ensures |Encode(s)| == 4 && DecodeLast(Encode(s)) == Some(s)
  {
    SixBits(s[0], 0, 0);
    SymbolValue(s[0] / 4, 0);
    SymbolValue(s[0] % 4 * 16, 0);
    assert s == [s[0]];
  }

  lemma EncodeTwo(a: byte, b: byte, d0: nat, d1: nat, d2: nat)
    requires d0 == a / 4 && d1 == a % 4 * 16 + b / 16 && d2 == b % 16 * 4
    ensures Encode([a, b]) == [Symbol(d0), Symbol(d1), Symbol(d2), PAD]
  {
  }

  lemma DecodeTwo(s: seq<byte>)
    requires |s| == 2
    ensures |Encode(s)| == 4 && DecodeLast(Encode(s)) == Some(s)
  {
    var a, b := s[0], s[1];
    var d0, d1, d2 := a / 4, a % 4 * 16 + b / 16, b % 16 * 4;
    assert s == [a, b];
    EncodeTwo(a, b, d0, d1, d2);
    DecodeTwoValues(d0, d1, d2);
    SixBits(a, b, 0);
  }

  lemma DecodeTwoValues(a: nat, b: nat, c: nat)
    requires a < 64 && b < 64 && c < 64 && c % 4 == 0
    ensures DecodeLast([Symbol(a), Symbol(b), Symbol(c), PAD]) == Some([a * 4 + b / 16, b % 16 * 16 + c / 4])
  {
    SymbolValue(a, 0);
    SymbolValue(b, 0);
    SymbolValue(c, 0);
  }

  lemma DecodeThree(s: seq<byte>)
    requires |s| == 3
    ensures |Encode(s)| == 4 && DecodeLast(Encode(s)) == Some(s)
  {
    var v0, v1 := s[0] / 4, s[0] % 4 * 16 + s[1] / 16;
    var v2, v3 := s[1] % 16 * 4 + s[2] / 64, s[2] % 64;
    assert s[3..] == [];
    assert Encode(s) == [Symbol(v0), Symbol(v1), Symbol(v2), Symbol(v3)];
    DecodeFour(v0, v1, v2, v3);
    SixBits(s[0], s[1], s[2]);
    assert s == [s[0], s[1], s[2]];
  }

  lemma DecodeFour(a: nat, b: nat, c: nat, d: nat)
    requires a < 64 && b < 64 && c < 64 && d < 64
    ensures DecodeLast([Symbol(a), Symbol(b), Symbol(c), Symbol(d)])
         == Some([a * 4 + b / 16, b % 16 * 16 + c / 4, c % 4 * 64 + d])
  {
    SymbolValue(a, 0);
    SymbolValue(b, 0);
    SymbolValue(c, 0);
    SymbolValue(d, 0);
  }

  /** Decoding undoes encoding, for all bytes. */
  lemma {:induction false} DecodeOfEncode(s: seq<byte>)
    ensures Decode(Encode(s)) == Some(s)
  {
    if s == [] {
    } else if |s| <= 3 {
      DecodeGroup(s);
    } else {
      var head, rest := s[..3], s[3..];
      DecodeGroup(head);
      DecodeOfEncode(rest);
      EncodeSplit(s);
      assert (Encode(head) + Encode(rest))[..4] == Encode(head);
      assert (Encode(head) + Encode(rest))[4..] == Encode(rest);
      assert s == head + rest;
      if |rest| <= 3 {
        DecodeGroup(rest);
      } else {
        EncodeSplit(rest);
      }
    }
  }

  lemma EncodeSplit(s: seq<byte>)
    requires |s| > 3
    ensures |Encode(s[..3])| == 4 && Encode(s) == Encode(s[..3]) + Encode(s[3..])
  {
    assert s[..3][3..] == [];
  }

  /** Four values of six bits are put together to three bytes, and cut again. */
  lemma EightBits(a: nat, b: nat, c: nat, d: nat)
    requires a < 64 && b < 64 && c < 64 && d < 64
    ensures (a * 4 + b / 16) / 4 == a
    ensures (a * 4 + b / 16) % 4 * 16 + (b % 16 * 16 + c / 4) / 16 == b
    ensures (b % 16 * 16 + c / 4) % 16 * 4 + (c % 4 * 64 + d) / 64 == c
    ensures (c % 4 * 64 + d) % 64 == d
  {
  }

  lemma EncodeGroup(s: seq<byte>)
    requires |s| == 4 && DecodeLast(s).Some?
    ensures 1 <= |DecodeLast(s).value| <= 3 && Encode(DecodeLast(s).value) == s
  {
    var (a, b) := (Value(s[0]).value, Value(s[1]).value);
    SymbolValue(0, s[0]);
    SymbolValue(0, s[1]);
    if s[2] == PAD && s[3] == PAD {
      EightBits(a, b, 0, 0);
      assert Encode(DecodeLast(s).value) == [s[0], s[1], PAD, PAD];
    } else if s[3] == PAD {
      EightBits(a, b, Value(s[2]).value, 0);
      SymbolValue(0, s[2]);
      assert Encode(DecodeLast(s).value) == [s[0], s[1], s[2], PAD];
    } else {
      EncodeFour(s);
    }
  }

  lemma EncodeValues(a: nat, b: nat, c: nat, d: nat)
    requires a < 64 && b < 64 && c < 64 && d < 64
    ensures Encode([a * 4 + b / 16, b % 16 * 16 + c / 4, c % 4 * 64 + d])
         == [Symbol(a), Symbol(b), Symbol(c), Symbol(d)]
  {
    var bytes: seq<byte> := [a * 4 + b / 16, b % 16 * 16 + c / 4, c % 4 * 64 + d];
    EightBits(a, b, c, d);
    assert bytes[3..] == [];
  }

  lemma EncodeFour(s: seq<byte>)
    requires |s| == 4 && DecodeLast(s).Some? && s[3] != PAD
    ensures |DecodeLast(s).value| == 3 && Encode(DecodeLast(s).value) == s
  {
    EncodeValues(Value(s[0]).value, Value(s[1]).value, Value(s[2]).value, Value(s[3]).value);
    SymbolValue(0, s[0]);
    SymbolValue(0, s[1]);
    SymbolValue(0, s[2]);
    SymbolValue(0, s[3]);
    assert s == [s[0], s[1], s[2], s[3]];
  }

  /** Encoding undoes decoding: every text has one reading, and every reading one text. */
  lemma {:induction false} EncodeOfDecode(s: seq<byte>)
    requires Decode(s).Some?
    ensures Encode(Decode(s).value) == s
  {
    if s == [] {
    } else if |s| == 4 {
      EncodeGroup(s);
    } else {
      var head := DecodeLast(s[..4]).value;
      EncodeGroup(s[..4]);
      EncodeOfDecode(s[4..]);
      var rest := Decode(s[4..]).value;
      assert rest != [];
      var all := head + rest;
      assert all[..3] == head && all[3..] == rest;
      EncodeSplit(all);
      assert s == s[..4] + s[4..];
    }
  }

  // ----- The encoding of RFC 4648, section 4 -----

  /** Four letters of six bits each, the first in the highest bits of a number of 24. */
  function Letters(n: nat): (r: seq<byte>)
    requires n < 0x100_0000
    ensures |r| == 4
  {
    [Letter(n / 0x4_0000), Letter(n / 0x1000 % 0x40), Letter(n / 0x40 % 0x40), Letter(n % 0x40)]
  }

  /** Three bytes are read as one number, whose letters come before those of the rest. */
  lemma GroupIs(a: byte, b: byte, c: byte, rest: seq<byte>)
    ensures Encode([a, b, c] + rest) == Letters(0x1_0000 * a + 0x100 * b + c) + Encode(rest)
  {
    var n := 0x1_0000 * a + 0x100 * b + c;
    SplitNumber(a, b, c);
    SymbolsAre(a / 4);
    SymbolsAre(a % 4 * 16 + b / 16);
    SymbolsAre(b % 16 * 4 + c / 64);
    SymbolsAre(c % 64);
    var s: seq<byte> := [a, b, c] + rest;
    assert s[3..] == rest;
  }

  /** The four digits of a number to the base 64. */
  lemma Digits(n: nat, d0: nat, d1: nat, d2: nat, d3: nat)
    requires d0 < 64 && d1 < 64 && d2 < 64 && d3 < 64
    requires n == 0x4_0000 * d0 + 0x1000 * d1 + 0x40 * d2 + d3
    ensures n / 0x40 == 0x1000 * d0 + 0x40 * d1 + d2 && n / 0x1000 == 0x40 * d0 + d1
    ensures n / 0x4_0000 == d0 && n / 0x1000 % 0x40 == d1 && n / 0x40 % 0x40 == d2 && n % 0x40 == d3
  {
  }

  lemma SplitNumber(a: byte, b: byte, c: byte)
    ensures var n := 0x1_0000 * a + 0x100 * b + c;
            && n / 0x4_0000 == a / 4 && n / 0x1000 % 0x40 == a % 4 * 16 + b / 16
            && n / 0x40 % 0x40 == b % 16 * 4 + c / 64 && n % 0x40 == c % 64
  {
    var n := 0x1_0000 * a + 0x100 * b + c;
    Digits(n, a / 4, a % 4 * 16 + b / 16, b % 16 * 4 + c / 64, c % 64);
  }

  /** One or two bytes are filled up with zero bits, and the letters that have none of theirs are padding. */
  lemma LastGroupIs(a: byte, b: byte)
    ensures Encode([]) == []
    ensures Encode([a]) == Letters(0x1_0000 * a)[..2] + Ascii("==")
    ensures Encode([a, b]) == Letters(0x1_0000 * a + 0x100 * b)[..3] + Ascii("=")
  {
    OneByteIs(a);
    TwoBytesAre(a, b);
  }

  lemma OneByteIs(a: byte)
    ensures Encode([a]) == Letters(0x1_0000 * a)[..2] + Ascii("==")
  {
    var d0, d1 := a / 4, a % 4 * 16;
    SplitNumber(a, 0, 0);
    FirstLetters(0x1_0000 * a, d0, d1, 0);
    assert Letters(0x1_0000 * a)[..2] == Letters(0x1_0000 * a)[..3][..2] == [Symbol(d0), Symbol(d1)];
    assert Ascii("==") == [PAD, PAD];
  }

  lemma TwoBytesAre(a: byte, b: byte)
    ensures Encode([a, b]) == Letters(0x1_0000 * a + 0x100 * b)[..3] + Ascii("=")
  {
    var d0, d1, d2 := a / 4, a % 4 * 16 + b / 16, b % 16 * 4;
    SplitNumber(a, b, 0);
    FirstLetters(0x1_0000 * a + 0x100 * b, d0, d1, d2);
    EncodeTwo(a, b, d0, d1, d2);
    Padded(Symbol(d0), Symbol(d1), Symbol(d2));
  }

  lemma Padded(x: byte, y: byte, z: byte)
    ensures [x, y, z] + Ascii("=") == [x, y, z, PAD]
  {
    assert Ascii("=") == [PAD];
  }

  lemma FirstLetters(n: nat, d0: nat, d1: nat, d2: nat)
    requires n < 0x100_0000 && d0 < 64 && d1 < 64 && d2 < 64
    requires n / 0x4_0000 == d0 && n / 0x1000 % 0x40 == d1 && n / 0x40 % 0x40 == d2
    ensures Letters(n)[..3] == [Symbol(d0), Symbol(d1), Symbol(d2)]
  {
    SymbolsAre(d0);
    SymbolsAre(d1);
    SymbolsAre(d2);
  }

  /** A text is read as some bytes exactly when it is their encoding. */
  lemma DecodeIff(s: seq<byte>, bytes: seq<byte>)
    ensures Decode(s) == Some(bytes) <==> s == Encode(bytes)
  {
    DecodeOfEncode(bytes);
    if Decode(s).Some? {
      EncodeOfDecode(s);
    }
  }
}
