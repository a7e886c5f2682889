/**
 When a WebP file can be written to, and what a simple file is promoted to, in terms of the
 container and bitstream headers of RFC 9649.
 */
module WebpWrites {
  import opened Bytes
  import opened Results
  import opened Webp
  import opened WebpLaws

  /** The four-character codes are those of the standard. */
  lemma FourCcs()
    ensures RIFF == Ascii("RIFF") && WEBP == Ascii("WEBP") && VP8X == Ascii("VP8X") && VP8 == Ascii("VP8 ")
    ensures VP8L == Ascii("VP8L") && ALPH == Ascii("ALPH") && ANIM == Ascii("ANIM") && ANMF == Ascii("ANMF")
    ensures XMP == Ascii("XMP ")
  {
  }

  // ----- The headers of the bitstreams -----

  /** A lossy key frame: its tag, the start code, and the dimensions with their scales. */
  function LossyFrame(tag: seq<byte>, w: nat, sx: nat, h: nat, sy: nat, rest: seq<byte>): seq<byte> {
    tag + [0x9D, 0x01, 0x2A] + ToLe(w + 0x4000 * sx, 2) + ToLe(h + 0x4000 * sy, 2) + rest
  }

  ghost predicate Lossy(payload: seq<byte>, w: nat, h: nat) {
    exists tag, sx: nat, sy: nat, rest :: IsLossy(payload, w, h, tag, sx, sy, rest)
  }

  predicate IsLossy(payload: seq<byte>, w: nat, h: nat, tag: seq<byte>, sx: nat, sy: nat, rest: seq<byte>) {
    |tag| == 3 && w < 0x4000 && h < 0x4000 && sx < 4 && sy < 4 && payload == LossyFrame(tag, w, sx, h, sy, rest)
  }

  lemma LossyParts(tag: seq<byte>, code: seq<byte>, w: seq<byte>, h: seq<byte>, rest: seq<byte>)
    requires |tag| == |code| == 3 && |w| == |h| == 2
    ensures var s := tag + code + w + h + rest;
            |s| >= 10 && s[3..6] == code && s[6..8] == w && s[8..10] == h
  {
  }

  lemma FieldRead(n: nat, scale: nat)
    requires n < 0x4000 && scale < 4
    ensures FromLe(ToLe(n + 0x4000 * scale, 2)) % 0x4000 == n
  {
    Capacities();
    LeRoundTrip(n + 0x4000 * scale, 2);
  }

  lemma LossyRead(payload: seq<byte>, w: nat, h: nat, tag: seq<byte>, sx: nat, sy: nat, rest: seq<byte>)
    requires IsLossy(payload, w, h, tag, sx, sy, rest)
    ensures Vp8Dims(payload) == Ok(Dimensions(w, h, false))
  {
    FieldRead(w, sx);
    FieldRead(h, sy);
    LossyParts(tag, [0x9D, 0x01, 0x2A], ToLe(w + 0x4000 * sx, 2), ToLe(h + 0x4000 * sy, 2), rest);
  }

  lemma Sliced(s: seq<byte>)
    requires |s| >= 10
    ensures s == s[..3] + s[3..6] + s[6..8] + s[8..10] + s[10..]
  {
  }

  /** What is read as a lossy frame is one, with these dimensions and no alpha. */
  lemma LossyIff(payload: seq<byte>, d: Dimensions)
    ensures Vp8Dims(payload) == Ok(d) <==> Lossy(payload, d.width, d.height) && !d.alpha
    ensures Vp8Dims(payload).Err? ==> Vp8Dims(payload).error == InvalidWebp
  {
    if tag, sx: nat, sy: nat, rest :| IsLossy(payload, d.width, d.height, tag, sx, sy, rest) {
      LossyRead(payload, d.width, d.height, tag, sx, sy, rest);
    }
    if Vp8Dims(payload) == Ok(d) {
      var w, h := FromLe(payload[6..8]), FromLe(payload[8..10]);
      Capacities();
      LeRoundTripBytes(payload[6..8]);
      LeRoundTripBytes(payload[8..10]);
      Sliced(payload);
      assert IsLossy(payload, d.width, d.height, payload[..3], w / 0x4000, h / 0x4000, payload[10..]);
    }
  }

  /** The header of a lossless image: the signature, and 14, 14, 1 and 3 bits. */
  function LosslessImage(w: nat, h: nat, alpha: bool, version: nat, rest: seq<byte>): seq<byte>
    requires w > 0 && h > 0
  {
    [0x2F] + ToLe(w - 1 + 0x4000 * (h - 1) + (if alpha then 0x1000_0000 else 0) + 0x2000_0000 * version, 4) + rest
  }

  predicate IsLossless(payload: seq<byte>, d: Dimensions, version: nat, rest: seq<byte>) {
    && 0 < d.width <= 0x4000 && 0 < d.height <= 0x4000 && version < 8
    && payload == LosslessImage(d.width, d.height, d.alpha, version, rest)
  }

  ghost predicate Lossless(payload: seq<byte>, d: Dimensions) {
    exists version: nat, rest :: IsLossless(payload, d, version, rest)
  }

  /** The fields of the header, from the lowest bits up. */
  lemma Fields(w: nat, h: nat, alpha: bool, version: nat, bits: nat)
    requires w < 0x4000 && h < 0x4000 && version < 8
    requires bits == w + 0x4000 * h + (if alpha then 0x1000_0000 else 0) + 0x2000_0000 * version
    ensures bits < U32_LIMIT && bits % 0x4000 == w && bits / 0x4000 % 0x4000 == h
    ensures bits / 0x1000_0000 % 2 == 1 <==> alpha
  {
    var high := (if alpha then 1 else 0) + 2 * version;
    assert bits == w + 0x4000 * (h + 0x4000 * high);
    assert bits / 0x4000 == h + 0x4000 * high;
    assert bits / 0x1000_0000 == high;
  }

  lemma LosslessRead(payload: seq<byte>, d: Dimensions, version: nat, rest: seq<byte>)
    requires IsLossless(payload, d, version, rest)
    ensures Vp8lDims(payload) == Ok(d)
  {
    var bits := d.width - 1 + 0x4000 * (d.height - 1) + (if d.alpha then 0x1000_0000 else 0) + 0x2000_0000 * version;
    Fields(d.width - 1, d.height - 1, d.alpha, version, bits);
    Capacities();
    LeRoundTrip(bits, 4);
    assert payload[1..5] == ToLe(bits, 4);
  }

  lemma FieldsOf(bits: nat)
    requires bits < U32_LIMIT
    ensures var alpha := bits / 0x1000_0000 % 2;
            bits == bits % 0x4000 + 0x4000 * (bits / 0x4000 % 0x4000) + 0x1000_0000 * alpha
                    + 0x2000_0000 * (bits / 0x2000_0000)
            && bits / 0x2000_0000 < 8
  {
    assert bits / 0x4000 / 0x4000 == bits / 0x1000_0000;
    assert bits / 0x1000_0000 / 2 == bits / 0x2000_0000;
  }

  lemma LosslessIff(payload: seq<byte>, d: Dimensions)
    ensures Vp8lDims(payload) == Ok(d) <==> Lossless(payload, d)
    ensures Vp8lDims(payload).Err? ==> Vp8lDims(payload).error == InvalidWebp
  {
    if version: nat, rest :| IsLossless(payload, d, version, rest) {
      LosslessRead(payload, d, version, rest);
    }
    if Vp8lDims(payload) == Ok(d) {
      LosslessOf(payload, d);
    }
  }

  lemma SlicedAtFive(s: seq<byte>)
    requires |s| >= 5
    ensures s == [s[0]] + s[1..5] + s[5..]
  {
  }

  lemma LosslessOf(payload: seq<byte>, d: Dimensions)
    requires Vp8lDims(payload) == Ok(d)
    ensures Lossless(payload, d)
  {
    var bits := FromLe(payload[1..5]);
    Capacities();
    LeRoundTripBytes(payload[1..5]);
    FieldsOf(bits);
    SlicedAtFive(payload);
    assert IsLossless(payload, d, bits / 0x2000_0000, payload[5..]);
  }

  // ----- Which image a simple file holds -----

  ghost predicate HasChunk(cs: seq<Chunk>, name: string) {
    exists c <- cs :: c.fourcc == Ascii(name)
  }

  /** The first chunk of this name. */
  ghost predicate FirstOf(cs: seq<Chunk>, name: string, c: Chunk) {
    exists i :: 0 <= i < |cs| && cs[i] == c && c.fourcc == Ascii(name)
      && forall j | 0 <= j < i :: cs[j].fourcc != Ascii(name)
  }

  lemma HasIff(cs: seq<Chunk>, f: FourCc, name: string)
    requires f == Ascii(name)
    ensures Has(cs, f) <==> HasChunk(cs, name)
  {
    if c :| c in cs && c.fourcc == Ascii(name) {
      var i :| 0 <= i < |cs| && cs[i] == c;
      assert cs[i].fourcc == f;
    }
  }

  lemma {:induction false} FirstIff(cs: seq<Chunk>, f: FourCc, name: string)
    requires f == Ascii(name)
    ensures First(cs, f).None? <==> !HasChunk(cs, name)
    ensures forall c | FirstOf(cs, name, c) :: First(cs, f) == Some(c.payload)
    ensures First(cs, f).Some? ==> exists c :: FirstOf(cs, name, c) && c.payload == First(cs, f).value
  {
    if cs != [] {
      FirstIff(cs[1..], f, name);
      FirstHead(cs, f, name);
    }
  }

  lemma HasHead(cs: seq<Chunk>, f: FourCc, name: string)
    requires f == Ascii(name) && cs != []
    ensures HasChunk(cs, name) <==> cs[0].fourcc == f || HasChunk(cs[1..], name)
  {
    assert cs == [cs[0]] + cs[1..];
  }

  lemma FirstLater(cs: seq<Chunk>, f: FourCc, name: string, c: Chunk)
    requires f == Ascii(name) && cs != [] && cs[0].fourcc != f
    ensures FirstOf(cs, name, c) <==> FirstOf(cs[1..], name, c)
  {
    var rest := cs[1..];
    assert forall j | 0 <= j < |rest| :: rest[j] == cs[j + 1];
    if i :| 0 <= i < |cs| && cs[i] == c && c.fourcc == Ascii(name) && forall j | 0 <= j < i :: cs[j].fourcc != f {
      assert rest[i - 1] == c;
    }
    if i :| 0 <= i < |rest| && rest[i] == c && c.fourcc == Ascii(name) && forall j | 0 <= j < i :: rest[j].fourcc != f {
      assert cs[i + 1] == c;
      assert forall j | 0 < j < i + 1 :: cs[j] == rest[j - 1];
    }
  }

  lemma FirstHead(cs: seq<Chunk>, f: FourCc, name: string)
    requires f == Ascii(name) && cs != []
    ensures HasChunk(cs, name) <==> cs[0].fourcc == f || HasChunk(cs[1..], name)
    ensures cs[0].fourcc == f ==> FirstOf(cs, name, cs[0]) && forall c | FirstOf(cs, name, c) :: c == cs[0]
    ensures cs[0].fourcc != f ==> forall c :: FirstOf(cs, name, c) <==> FirstOf(cs[1..], name, c)
  {
    HasHead(cs, f, name);
    if cs[0].fourcc != f {
      forall c ensures FirstOf(cs, name, c) <==> FirstOf(cs[1..], name, c) {
        FirstLater(cs, f, name, c);
      }
    }
  }

  /** The image of a simple file: one of the two kinds, and alpha also from a chunk of its own. */
  ghost predicate HoldsImage(cs: seq<Chunk>, d: Dimensions) {
    || (!HasChunk(cs, "VP8L") && d.alpha == HasChunk(cs, "ALPH")
        && exists c :: FirstOf(cs, "VP8 ", c) && Lossy(c.payload, d.width, d.height))
    || (!HasChunk(cs, "VP8 ")
        && exists c, own :: FirstOf(cs, "VP8L", c) && Lossless(c.payload, d.(alpha := own))
             && d.alpha == (own || HasChunk(cs, "ALPH")))
  }

  lemma ImageIff(cs: seq<Chunk>, d: Dimensions)
    ensures SimpleDims(cs) == Ok(d) <==> HoldsImage(cs, d)
  {
    FourCcs();
    FirstIff(cs, VP8, "VP8 ");
    FirstIff(cs, VP8L, "VP8L");
    HasIff(cs, ALPH, "ALPH");
    if First(cs, VP8).Some? {
      LossyImageIff(cs, d);
    }
    if First(cs, VP8L).Some? {
      LosslessImageIff(cs, d);
    }
  }

  lemma LossyImageIff(cs: seq<Chunk>, d: Dimensions)
    requires First(cs, VP8).Some?
    ensures Vp8Dims(First(cs, VP8).value) == Ok(d.(alpha := false))
       <==> exists c :: FirstOf(cs, "VP8 ", c) && Lossy(c.payload, d.width, d.height)
    ensures Vp8Dims(First(cs, VP8).value).Ok? ==> !Vp8Dims(First(cs, VP8).value).value.alpha
  {
    FourCcs();
    FirstIff(cs, VP8, "VP8 ");
    LossyIff(First(cs, VP8).value, d.(alpha := false));
  }

  lemma LosslessImageIff(cs: seq<Chunk>, d: Dimensions)
    requires First(cs, VP8L).Some?
    ensures (exists own ::
               Vp8lDims(First(cs, VP8L).value) == Ok(d.(alpha := own)) && d.alpha == (own || HasChunk(cs, "ALPH")))
       <==> exists c, own :: FirstOf(cs, "VP8L", c) && Lossless(c.payload, d.(alpha := own))
              && d.alpha == (own || HasChunk(cs, "ALPH"))
  {
    FourCcs();
    FirstIff(cs, VP8L, "VP8L");
    LosslessIff(First(cs, VP8L).value, d.(alpha := false));
    LosslessIff(First(cs, VP8L).value, d.(alpha := true));
  }

  // ----- The container -----

  /** A file with these chunks: the header says where they end, and anything may follow. */
  function File(size: nat, cs: seq<Chunk>, tail: seq<byte>): seq<byte> {
    Ascii("RIFF") + ToLe(size, 4) + Ascii("WEBP") + (PrintAll(cs) + tail)
  }

  /** The size counts what follows it, but for a file without chunks it may be too small. */
  predicate SizeFits(size: nat, cs: seq<Chunk>) {
    size < U32_LIMIT && (size == 4 + |PrintAll(cs)| || (cs == [] && size < 4))
  }

  lemma HeaderOf(data: seq<byte>, a: seq<byte>, b: seq<byte>, c: seq<byte>, rest: seq<byte>)
    requires |a| == |b| == |c| == 4 && data == a + b + c + rest
    ensures data[..4] == a && data[4..8] == b && data[8..12] == c && data[12..] == rest && |data| == 12 + |rest|
  {
  }

  lemma HeaderSliced(data: seq<byte>)
    requires |data| >= 12
    ensures data == data[..4] + data[4..8] + data[8..12] + data[12..]
  {
  }

  lemma FileParses(size: nat, cs: seq<Chunk>, tail: seq<byte>)
    requires AllWellFormed(cs) && SizeFits(size, cs)
    ensures Parse(File(size, cs, tail), true) == Ok(cs)
  {
    var data, body := File(size, cs, tail), PrintAll(cs);
    FourCcs();
    Capacities();
    LeRoundTrip(size, 4);
    HeaderOf(data, RIFF, ToLe(size, 4), WEBP, body + tail);
    assert RiffEnd(data) == size + 8;
    ParseOfPrint(cs);
    if size == 4 + |body| && size + 8 > 12 {
      assert data[12..size + 8] == data[12..][..|body|] == body;
    } else {
      assert body == [];
    }
  }

  ghost predicate IsFile(data: seq<byte>, cs: seq<Chunk>) {
    AllWellFormed(cs) && exists size: nat, tail :: SizeFits(size, cs) && data == File(size, cs, tail)
  }

  /** The size a parsed file declares fits its chunks. */
  lemma ParsedSize(data: seq<byte>, cs: seq<Chunk>)
    requires Parse(data, true) == Ok(cs)
    ensures SizeFits(RiffEnd(data) - 8, cs) && AllWellFormed(cs)
    ensures Body(data, RiffEnd(data)) == PrintAll(cs)
  {
    PrintOfParse(Body(data, RiffEnd(data)));
    Capacities();
    LeRoundTripBytes(data[4..8]);
  }

  /** The bytes after the header are the body and the tail. */
  lemma BodyAndTail(data: seq<byte>)
    requires IsWebp(data) && RiffEnd(data) <= |data|
    ensures data[12..] == Body(data, RiffEnd(data)) + Tail(data)
  {
  }

  lemma ParsedIsFile(data: seq<byte>, cs: seq<Chunk>)
    requires Parse(data, true) == Ok(cs)
    ensures IsFile(data, cs)
  {
    var size := RiffEnd(data) - 8;
    ParsedSize(data, cs);
    BodyAndTail(data);
    LeRoundTripBytes(data[4..8]);
    FileSliced(data, size, cs, Tail(data));
  }

  lemma FileSliced(data: seq<byte>, size: nat, cs: seq<Chunk>, tail: seq<byte>)
    requires IsWebp(data) && data[4..8] == ToLe(size, 4) && data[12..] == PrintAll(cs) + tail
    ensures data == File(size, cs, tail)
  {
    FourCcs();
    HeaderSliced(data);
  }

  /** A file parses for writing exactly if it is such a file. */
  lemma ParseIff(data: seq<byte>, cs: seq<Chunk>)
    ensures Parse(data, true) == Ok(cs) <==> IsFile(data, cs)
  {
    if IsFile(data, cs) {
      var size: nat, tail :| SizeFits(size, cs) && data == File(size, cs, tail);
      FileParses(size, cs, tail);
    }
    if Parse(data, true) == Ok(cs) {
      ParsedIsFile(data, cs);
    }
  }

  /** A chunk is its code, its size, its payload, and a byte if the size is odd. */
  lemma ChunkIs(c: Chunk)
    ensures WellFormed(c) <==> |c.payload| < U32_LIMIT && |c.pad| == |c.payload| % 2
    ensures Print(c) == c.fourcc + ToLe(|c.payload|, 4) + c.payload + c.pad && |c.fourcc| == 4
  {
  }

  /** For reading, the size may be any, and the chunks go on to the end. */
  ghost predicate IsReadable(data: seq<byte>, cs: seq<Chunk>) {
    AllWellFormed(cs) && exists size: nat :: size < U32_LIMIT && data == File(size, cs, [])
  }

  lemma ReadableParses(size: nat, cs: seq<Chunk>)
    requires AllWellFormed(cs) && size < U32_LIMIT
    ensures Parse(File(size, cs, []), false) == Ok(cs)
  {
    var data, body := File(size, cs, []), PrintAll(cs);
    FourCcs();
    HeaderOf(data, RIFF, ToLe(size, 4), WEBP, body + []);
    assert body + [] == body && Body(data, |data|) == body;
    ParseOfPrint(cs);
  }

  lemma ReadParseIff(data: seq<byte>, cs: seq<Chunk>)
    ensures Parse(data, false) == Ok(cs) <==> IsReadable(data, cs)
  {
    if IsReadable(data, cs) {
      var size: nat :| size < U32_LIMIT && data == File(size, cs, []);
      ReadableParses(size, cs);
    }
    if Parse(data, false) == Ok(cs) {
      var size := FromLe(data[4..8]);
      PrintOfParse(Body(data, |data|));
      Capacities();
      LeRoundTripBytes(data[4..8]);
      assert data[12..] == PrintAll(cs) + [];
      FileSliced(data, size, cs, []);
    }
  }

  /** A packet is read exactly if it is that of the first XMP chunk of such a file. */
  lemma ReadIff(data: seq<byte>, xmp: seq<byte>)
    ensures Read(data) == Some(xmp)
       <==> exists cs, c :: IsReadable(data, cs) && FirstOf(cs, "XMP ", c) && c.payload == xmp
  {
    FourCcs();
    if Parse(data, false).Ok? {
      var all := Parse(data, false).value;
      ReadParseIff(data, all);
      FirstIff(all, XMP, "XMP ");
    }
    if cs, c :| IsReadable(data, cs) && FirstOf(cs, "XMP ", c) && c.payload == xmp {
      ReadParseIff(data, cs);
    }
  }

  // ----- When a write succeeds, and what it gives -----

  /** The chunks other than XMP: all of them, in order. */
  lemma {:induction false} KeptMeans(cs: seq<Chunk>)
    ensures forall c :: c in Kept(cs) <==> c in cs && c.fourcc != Ascii("XMP ")
    ensures !HasChunk(cs, "XMP ") ==> Kept(cs) == cs
  {
    FourCcs();
    if cs != [] {
      KeptMeans(cs[1..]);
      assert cs == [cs[0]] + cs[1..];
      if !HasChunk(cs, "XMP ") {
        assert cs[0].fourcc != XMP;
        assert !HasChunk(cs[1..], "XMP ");
      }
    }
  }

  lemma {:induction false} KeptInOrder(a: seq<Chunk>, b: seq<Chunk>)
    ensures Kept(a + b) == Kept(a) + Kept(b)
  {
    if a == [] {
      assert a + b == b;
    } else {
      assert (a + b)[1..] == a[1..] + b;
      KeptInOrder(a[1..], b);
    }
  }

  /** A packet, padded to even length. */
  function Packet(xmp: seq<byte>): Chunk {
    Chunk(Ascii("XMP "), xmp, if |xmp| % 2 == 0 then [] else [0])
  }

  /** The chunk in front of a promoted file: flags, reserved bytes, and the canvas less one. */
  function Extended(d: Dimensions): Chunk {
    Chunk(Ascii("VP8X"),
          [if d.alpha then 0x14 else 0x04, 0, 0, 0]
          + ToLe(if d.width == 0 then 0 else d.width - 1, 3) + ToLe(if d.height == 0 then 0 else d.height - 1, 3), [])
  }

  predicate FitsRiff(cs: seq<Chunk>) {
    4 + |PrintAll(cs)| < U32_LIMIT
  }

  /** The file that is written when it has these chunks. */
  function FileOf(cs: seq<Chunk>): seq<byte> {
    File(4 + |PrintAll(cs)|, cs, [])
  }

  lemma AssembleIff(cs: seq<Chunk>)
    ensures Assemble(cs) == if FitsRiff(cs) then Ok(FileOf(cs)) else Err(TooLarge)
  {
    FourCcs();
    assert PrintAll(cs) + [] == PrintAll(cs);
  }

  ghost predicate Animation(cs: seq<Chunk>) {
    HasChunk(cs, "ANIM") || HasChunk(cs, "ANMF")
  }

  /** Files with an animation are not written to. */
  lemma AnimatedRefused(data: seq<byte>, xmp: seq<byte>)
    requires Parse(data, true).Ok?
    ensures Write(data, xmp) == Err(Animated) <==> Animation(Parse(data, true).value)
  {
    var cs := Parse(data, true).value;
    FourCcs();
    HasIff(cs, ANIM, "ANIM");
    HasIff(cs, ANMF, "ANMF");
    EditError(cs, xmp);
  }

  lemma {:induction false} EditError(cs: seq<Chunk>, xmp: seq<byte>)
    ensures EditExtended(cs, xmp) != Err(Animated) && Promote(cs, xmp) != Err(Animated)
  {
    if cs != [] {
      EditError(cs[1..], xmp);
    }
    DimsError(cs);
  }

  lemma DimsError(cs: seq<Chunk>)
    ensures SimpleDims(cs).Err? ==> SimpleDims(cs).error == InvalidWebp
  {
  }

  lemma ExtendedIs(d: Dimensions)
    requires d.width <= 0x4000 && d.height <= 0x4000
    ensures Chunk(VP8X, Vp8xPayload(d), []) == Extended(d)
  {
    FourCcs();
  }

  lemma PacketIs(xmp: seq<byte>)
    ensures XmpChunk(xmp) == Packet(xmp)
  {
    FourCcs();
  }

  /** What a simple file with this image is promoted to. */
  function Promoted(cs: seq<Chunk>, d: Dimensions, xmp: seq<byte>): seq<Chunk> {
    [Extended(d), Packet(xmp)] + Kept(cs)
  }

  lemma PromoteIs(cs: seq<Chunk>, xmp: seq<byte>, d: Dimensions)
    requires HoldsImage(cs, d)
    ensures Promote(cs, xmp) == if |xmp| < U32_LIMIT then Ok(Promoted(cs, d, xmp)) else Err(TooLarge)
  {
    ImageIff(cs, d);
    SimpleDimsSmall(cs);
    ExtendedIs(d);
    PacketIs(xmp);
  }

  /** A simple file is written to exactly if it holds an image and the result fits; and this is the result. */
  lemma SimpleWrite(data: seq<byte>, xmp: seq<byte>, d: Dimensions)
    requires Parse(data, true).Ok?
    requires var cs := Parse(data, true).value; !HasChunk(cs, "VP8X") && !Animation(cs) && HoldsImage(cs, d)
    ensures var written := Promoted(Parse(data, true).value, d, xmp);
            Write(data, xmp)
            == if |xmp| < U32_LIMIT && FitsRiff(written) then Ok(FileOf(written)) else Err(TooLarge)
  {
    var cs := Parse(data, true).value;
    SimpleEdit(cs, xmp);
    PromoteIs(cs, xmp, d);
    AssembleIff(Promoted(cs, d, xmp));
  }

  lemma SimpleEdit(cs: seq<Chunk>, xmp: seq<byte>)
    requires !HasChunk(cs, "VP8X") && !Animation(cs)
    ensures Edit(cs, xmp) == Promote(cs, xmp)
  {
    FourCcs();
    HasIff(cs, VP8X, "VP8X");
    HasIff(cs, ANIM, "ANIM");
    HasIff(cs, ANMF, "ANMF");
  }

  /** Without an image it is not. */
  lemma NoImageRefused(data: seq<byte>, xmp: seq<byte>)
    requires Parse(data, true).Ok?
    requires var cs := Parse(data, true).value; !HasChunk(cs, "VP8X") && !Animation(cs)
    requires forall d :: !HoldsImage(Parse(data, true).value, d)
    ensures Write(data, xmp) == Err(InvalidWebp)
  {
    var cs := Parse(data, true).value;
    SimpleEdit(cs, xmp);
    DimsError(cs);
    if SimpleDims(cs).Ok? {
      ImageIff(cs, SimpleDims(cs).value);
    }
  }

  /** Flags with the one that announces XMP set. */
  function Flagged(flags: byte): byte {
    flags / 8 * 8 + 4 + flags % 4
  }

  /** What an extended file comes to have in place of its chunks: the packet follows VP8X. */
  function Replaced(cs: seq<Chunk>, xmp: seq<byte>): seq<Chunk> {
    if cs == [] then []
    else if cs[0].fourcc == Ascii("VP8X") then
      [Chunk(Ascii("VP8X"), if cs[0].payload == [] then [] else [Flagged(cs[0].payload[0])] + cs[0].payload[1..], []),
       Packet(xmp)] + Replaced(cs[1..], xmp)
    else if cs[0].fourcc == Ascii("XMP ") then Replaced(cs[1..], xmp)
    else [cs[0]] + Replaced(cs[1..], xmp)
  }

  ghost predicate AllTen(cs: seq<Chunk>) {
    forall c <- cs | c.fourcc == Ascii("VP8X") :: |c.payload| == 10
  }

  lemma {:induction false} EditedIs(cs: seq<Chunk>, xmp: seq<byte>)
    requires |xmp| < U32_LIMIT
    ensures EditExtended(cs, xmp) == if AllTen(cs) then Ok(Replaced(cs, xmp)) else Err(InvalidWebp)
  {
    if cs != [] {
      var rest := Replaced(cs[1..], xmp);
      FourCcs();
      EditedIs(cs[1..], xmp);
      assert cs == [cs[0]] + cs[1..];
      if cs[0].fourcc == XMP {
        assert [] + rest == rest;
      } else if cs[0].fourcc == VP8X && |cs[0].payload| == 10 {
        FlaggedIs(cs[0].payload);
        PacketIs(xmp);
      }
    }
  }

  lemma FlaggedIs(vp8x: seq<byte>)
    requires vp8x != []
    ensures WithXmpFlag(vp8x) == [Flagged(vp8x[0])] + vp8x[1..]
  {
  }

  /** An extended file is written to exactly if its VP8X chunks have the right length and the result fits. */
  lemma ExtendedWrite(data: seq<byte>, xmp: seq<byte>)
    requires Parse(data, true).Ok? && |xmp| < U32_LIMIT
    requires var cs := Parse(data, true).value; HasChunk(cs, "VP8X") && !Animation(cs)
    ensures var cs := Parse(data, true).value;
            Write(data, xmp)
            == if !AllTen(cs) then Err(InvalidWebp)
               else if FitsRiff(Replaced(cs, xmp)) then Ok(FileOf(Replaced(cs, xmp)))
               else Err(TooLarge)
  {
    var cs := Parse(data, true).value;
    FourCcs();
    HasIff(cs, VP8X, "VP8X");
    HasIff(cs, ANIM, "ANIM");
    HasIff(cs, ANMF, "ANMF");
    EditedIs(cs, xmp);
    AssembleIff(Replaced(cs, xmp));
  }
}
