/**
 The text chunks of a PNG file by their layout: section 4.2.3 of RFC 2083 for tEXt, section
 11.3.4.5 of ISO/IEC 15948 for iTXt; and so what is read, written and extracted.
 */
module PngMeaning {
  import opened Bytes
  import Crc32
  import opened Png
  import opened PngLaws
  import opened PngText
  import opened Results

  /** The signature, the keyword and the chunk types are those of the standards. */
  lemma Names()
    ensures SIGNATURE == [0x89] + Ascii("PNG") + [0x0D, 0x0A, 0x1A, 0x0A]
    ensures TEXT == Ascii("tEXt") && ITXT == Ascii("iTXt") && IEND == Ascii("IEND")
  {
  }

  lemma KeyName()
    ensures XMP_KEY == Ascii("XML:com.adobe.xmp")
  {
  }

  // ----- Layouts -----

  predicate NoNul(s: seq<byte>) {
    forall b <- s :: b != 0
  }

  function TextLayout(keyword: seq<byte>, text: seq<byte>): seq<byte> {
    keyword + [0] + text
  }

  /** The fields of an iTXt chunk. */
  datatype Itxt = Itxt(
    keyword: seq<byte>, flag: byte, packing: byte, language: seq<byte>, translated: seq<byte>, text: seq<byte>)

  predicate Fields(t: Itxt) {
    NoNul(t.keyword) && NoNul(t.language) && NoNul(t.translated)
  }

  function ItxtLayout(t: Itxt): seq<byte> {
    t.keyword + [0, t.flag, t.packing] + (t.language + [0] + (t.translated + [0] + t.text))
  }

  lemma {:induction false} NulAfter(s: seq<byte>, i: nat, field: seq<byte>, rest: seq<byte>)
    requires i <= |s| && s[i..] == field + [0] + rest && NoNul(field)
    ensures NulFrom(s, i) == i + |field| && i + |field| + 1 <= |s| && s[i + |field| + 1..] == rest
  {
    var tail := s[i..];
    forall j | i <= j < i + |field| ensures s[j] != 0 {
      assert s[j] == tail[j - i] == field[j - i] && field[j - i] in field;
    }
    assert s[i + |field|] == tail[|field|] == 0;
    NulAtLeast(s, i, i + |field|);
    assert s[i + |field| + 1..] == tail[|field| + 1..];
  }

  /** What comes before the first NUL at or after `i` has none. */
  lemma {:induction false} BeforeNul(s: seq<byte>, i: nat)
    requires i <= |s|
    ensures NulFrom(s, i) <= |s| && NoNul(s[i..NulFrom(s, i)])
    ensures NulFrom(s, i) < |s| ==> s[i..] == s[i..NulFrom(s, i)] + [0] + s[NulFrom(s, i) + 1..]
    decreases |s| - i
  {
    if i < |s| && s[i] != 0 {
      BeforeNul(s, i + 1);
      var n := NulFrom(s, i);
      assert s[i..n] == [s[i]] + s[i + 1..n] && s[i..] == [s[i]] + s[i + 1..];
    }
  }

  /** Where the parts of a tEXt chunk lie. */
  lemma TextParts(keyword: seq<byte>, text: seq<byte>)
    requires NoNul(keyword)
    ensures var s, n := TextLayout(keyword, text), |keyword|;
            NulFrom(s, 0) == n < |s| && s[..n] == keyword && s[n + 1..] == text
  {
    var s := TextLayout(keyword, text);
    assert s[0..] == s;
    NulAfter(s, 0, keyword, text);
    assert s[..|keyword|] == keyword;
  }

  lemma TextOf(s: seq<byte>)
    requires NulFrom(s, 0) < |s|
    ensures var n := NulFrom(s, 0); NoNul(s[..n]) && s == TextLayout(s[..n], s[n + 1..])
  {
    BeforeNul(s, 0);
    assert s[0..] == s && s[0..NulFrom(s, 0)] == s[..NulFrom(s, 0)];
  }

  /** Two fields that end in NUL, and the rest. */
  lemma TwoFields(s: seq<byte>, i: nat, f: seq<byte>, g: seq<byte>, rest: seq<byte>)
    requires i <= |s| && s[i..] == f + [0] + (g + [0] + rest) && NoNul(f) && NoNul(g)
    ensures var start := NulFrom(s, NulFrom(s, i) + 1) + 1;
            start <= |s| && s[start..] == rest
  {
    NulAfter(s, i, f, g + [0] + rest);
    NulAfter(s, i + |f| + 1, g, rest);
  }

  lemma LayoutStarts(t: Itxt, s: seq<byte>)
    requires s == ItxtLayout(t)
    ensures var n := |t.keyword|;
            && |s| > n + 3 && s[..n] == t.keyword && s[n] == 0 && s[n + 1] == t.flag && s[n + 2] == t.packing
            && s[n + 3..] == t.language + [0] + (t.translated + [0] + t.text)
  {
  }

  lemma KeywordEnds(t: Itxt, s: seq<byte>)
    requires s == ItxtLayout(t) && NoNul(t.keyword)
    ensures NulFrom(s, 0) == |t.keyword|
  {
    LayoutStarts(t, s);
    forall j | 0 <= j < |t.keyword| ensures s[j] != 0 {
      assert s[j] == s[..|t.keyword|][j] && t.keyword[j] in t.keyword;
    }
    NulAtLeast(s, 0, |t.keyword|);
  }

  /** Where the parts of an iTXt chunk lie. */
  lemma ItxtParts(t: Itxt)
    requires Fields(t)
    ensures var s, n := ItxtLayout(t), |t.keyword|;
            && NulFrom(s, 0) == n && |s| > n + 3 && s[..n] == t.keyword && s[n + 1] == t.flag
            && TextStart(s, n) <= |s| && s[TextStart(s, n)..] == t.text
  {
    var s, n := ItxtLayout(t), |t.keyword|;
    LayoutStarts(t, s);
    KeywordEnds(t, s);
    TwoFields(s, n + 3, t.language, t.translated, t.text);
  }

  lemma TwoFieldsOf(s: seq<byte>, i: nat)
    requires i <= |s| && NulFrom(s, NulFrom(s, i) + 1) + 1 <= |s|
    ensures var a := NulFrom(s, i);
            var b := NulFrom(s, a + 1);
            && i <= a < b < |s| && NoNul(s[i..a]) && NoNul(s[a + 1..b])
            && s[i..] == s[i..a] + [0] + s[a + 1..] && s[a + 1..] == s[a + 1..b] + [0] + s[b + 1..]
  {
    BeforeNul(s, i);
    BeforeNul(s, NulFrom(s, i) + 1);
  }

  lemma ItxtJoined(s: seq<byte>, n: nat, a: nat, b: nat)
    requires n + 3 <= a < b < |s| && s[n] == 0
    requires s[n + 3..] == s[n + 3..a] + [0] + s[a + 1..] && s[a + 1..] == s[a + 1..b] + [0] + s[b + 1..]
    ensures s == ItxtLayout(Itxt(s[..n], s[n + 1], s[n + 2], s[n + 3..a], s[a + 1..b], s[b + 1..]))
  {
    assert s == s[..n] + [0, s[n + 1], s[n + 2]] + s[n + 3..];
  }

  /** Data in which the text can be found is laid out so. */
  lemma {:induction false} ItxtOf(s: seq<byte>) returns (t: Itxt)
    requires var n := NulFrom(s, 0); n < |s| && n + 3 <= |s| && TextStart(s, n) <= |s|
    ensures Fields(t) && ItxtLayout(t) == s
  {
    var n := NulFrom(s, 0);
    var a := NulFrom(s, n + 3);
    var b := NulFrom(s, a + 1);
    TwoFieldsOf(s, n + 3);
    TextOf(s);
    NulThere(s, 0);
    ItxtJoined(s, n, a, b);
    t := Itxt(s[..n], s[n + 1], s[n + 2], s[n + 3..a], s[a + 1..b], s[b + 1..]);
  }

  lemma {:induction false} NulThere(s: seq<byte>, i: nat)
    requires i <= |s| && NulFrom(s, i) < |s|
    ensures s[NulFrom(s, i)] == 0
    decreases |s| - i
  {
    if s[i] != 0 {
      NulThere(s, i + 1);
    }
  }

  /** Data with a keyword. */
  lemma {:induction false} KeywordIff(s: seq<byte>, keyword: seq<byte>)
    ensures Keyword(s) == Some(keyword) <==> NoNul(keyword) && exists text :: s == TextLayout(keyword, text)
  {
    if NoNul(keyword) {
      if text :| s == TextLayout(keyword, text) {
        TextParts(keyword, text);
      }
    }
    if Keyword(s) == Some(keyword) {
      TextOf(s);
    }
  }

  // ----- Which chunks carry a packet -----

  /** A packet in a tEXt chunk, or in an iTXt chunk that is not compressed. */
  ghost predicate Carries(c: Chunk, xmp: seq<byte>) {
    || (c.kind == Ascii("tEXt") && c.data == TextLayout(Ascii("XML:com.adobe.xmp"), xmp))
    || (c.kind == Ascii("iTXt") && exists t :: Fields(t) && c.data == ItxtLayout(t) && IsPacket(t, xmp))
  }

  predicate IsPacket(t: Itxt, xmp: seq<byte>) {
    t.keyword == Ascii("XML:com.adobe.xmp") && t.flag == 0 && t.text == xmp
  }

  lemma KeyHasNone()
    ensures NoNul(XMP_KEY) && |XMP_KEY| == 17
  {
  }

  lemma CarriesText(c: Chunk, xmp: seq<byte>)
    requires c.kind == TEXT
    ensures Packet(c) == Some(xmp) <==> c.data == TextLayout(XMP_KEY, xmp)
  {
    KeyHasNone();
    TextParts(XMP_KEY, xmp);
    if Packet(c) == Some(xmp) {
      TextOf(c.data);
    }
  }

  lemma CarriesItxt(c: Chunk, xmp: seq<byte>)
    requires c.kind == ITXT
    ensures Packet(c) == Some(xmp)
       <==> exists t :: Fields(t) && c.data == ItxtLayout(t) && t.keyword == XMP_KEY && t.flag == 0 && t.text == xmp
  {
    var s, n := c.data, NulFrom(c.data, 0);
    KeyHasNone();
    if t :| Fields(t) && s == ItxtLayout(t) && t.keyword == XMP_KEY && t.flag == 0 && t.text == xmp {
      ItxtParts(t);
    }
    if Packet(c) == Some(xmp) {
      var t := ItxtOf(s);
      ItxtParts(t);
    }
  }

  /** Exactly these chunks carry a packet. */
  lemma PacketIff(c: Chunk, xmp: seq<byte>)
    ensures Packet(c) == Some(xmp) <==> Carries(c, xmp)
  {
    Names();
    KeyName();
    if c.kind == TEXT {
      CarriesText(c, xmp);
    } else if c.kind == ITXT {
      CarriesItxt(c, xmp);
      assert forall t :: IsPacket(t, xmp) <==> t.keyword == XMP_KEY && t.flag == 0 && t.text == xmp;
    }
  }

  // ----- What is read -----

  /** The chunk of the packet that is read: the first one that carries any. */
  ghost predicate FirstCarrier(cs: seq<Chunk>, i: nat, xmp: seq<byte>) {
    i < |cs| && Carries(cs[i], xmp) && forall j, x | 0 <= j < i :: !Carries(cs[j], x)
  }

  lemma {:induction false} FirstPacketIff(cs: seq<Chunk>, xmp: seq<byte>)
    ensures FirstPacket(cs) == Some(xmp) <==> exists i: nat :: FirstCarrier(cs, i, xmp)
  {
    if cs != [] {
      FirstPacketIff(cs[1..], xmp);
      PacketIff(cs[0], xmp);
      if Packet(cs[0]).Some? {
        PacketIff(cs[0], Packet(cs[0]).value);
        assert Packet(cs[0]) == Some(xmp) ==> FirstCarrier(cs, 0, xmp);
      } else {
        forall x ensures !Carries(cs[0], x) {
          PacketIff(cs[0], x);
        }
        CarrierLater(cs, xmp);
      }
    }
  }

  lemma CarrierLater(cs: seq<Chunk>, xmp: seq<byte>)
    requires cs != [] && forall x :: !Carries(cs[0], x)
    ensures (exists i: nat :: FirstCarrier(cs, i, xmp)) <==> exists i: nat :: FirstCarrier(cs[1..], i, xmp)
  {
    if i: nat :| FirstCarrier(cs, i, xmp) {
      assert forall j | 0 <= j < i - 1 :: cs[1..][j] == cs[j + 1];
      assert FirstCarrier(cs[1..], i - 1, xmp);
    }
    if i: nat :| FirstCarrier(cs[1..], i, xmp) {
      assert forall j | 0 < j < i + 1 :: cs[j] == cs[1..][j - 1];
      assert FirstCarrier(cs, i + 1, xmp);
    }
  }

  // ----- Whole files -----

  /** Bytes that make no chunk: too few of them, or a length that goes beyond their end. */
  predicate Cut(rest: seq<byte>) {
    |rest| < 12 || FromBe(rest[..4]) + 12 > |rest|
  }

  /** A walk passes every chunk up to IEND, whatever follows it. */
  lemma {:induction false} WalkToEnd(cs: seq<Chunk>, end: Chunk, tail: seq<byte>)
    requires Passable(cs) && WellFormed(end) && end.kind == IEND
    ensures Walk(PrintAll(cs) + (Print(end) + tail)) == Walked(cs, Some(end))
  {
    if cs == [] {
      PrintParts(end, tail);
      assert PrintAll(cs) + (Print(end) + tail) == Print(end) + tail;
    } else {
      var rest := PrintAll(cs[1..]) + (Print(end) + tail);
      assert PrintAll(cs) + (Print(end) + tail) == Print(cs[0]) + rest;
      PrintParts(cs[0], rest);
      WalkToEnd(cs[1..], end, tail);
      assert [cs[0]] + cs[1..] == cs;
    }
  }

  /** Without one it passes every chunk there is. */
  lemma {:induction false} WalkToCut(cs: seq<Chunk>, rest: seq<byte>)
    requires Passable(cs) && Cut(rest)
    ensures Walk(PrintAll(cs) + rest) == Walked(cs, None)
  {
    if cs == [] {
      assert PrintAll(cs) + rest == rest;
    } else {
      assert PrintAll(cs) + rest == Print(cs[0]) + (PrintAll(cs[1..]) + rest);
      PrintParts(cs[0], PrintAll(cs[1..]) + rest);
      WalkToCut(cs[1..], rest);
      assert [cs[0]] + cs[1..] == cs;
    }
  }

  /** A file: the signature, its chunks, and IEND with anything after it, or bytes that make no chunk. */
  predicate IsFile(data: seq<byte>, w: Walked, tail: seq<byte>) {
    && Passable(w.chunks)
    && match w.end
       case Some(end) =>
         WellFormed(end) && end.kind == Ascii("IEND") && data == SIGNATURE + (PrintAll(w.chunks) + (Print(end) + tail))
       case None => Cut(tail) && data == SIGNATURE + (PrintAll(w.chunks) + tail)
  }

  /** So it is walked. */
  lemma FileWalked(data: seq<byte>, w: Walked, tail: seq<byte>)
    requires IsFile(data, w, tail)
    ensures IsPng(data) && WalkFile(data) == w
  {
    Names();
    match w.end
    case Some(end) =>
      WalkToEnd(w.chunks, end, tail);
      AfterSignature(SIGNATURE, PrintAll(w.chunks) + (Print(end) + tail));
    case None =>
      WalkToCut(w.chunks, tail);
      AfterSignature(SIGNATURE, PrintAll(w.chunks) + tail);
  }

  /** Every file that starts with the signature is one of these. */
  lemma EveryFile(data: seq<byte>)
    requires SIGNATURE <= data
    ensures IsPng(data) && IsFile(data, WalkFile(data), Tail(data[8..]))
  {
    var w, tail := WalkFile(data), Tail(data[8..]);
    Names();
    assert data[..8] == SIGNATURE;
    WalkIsPassable(data[8..]);
    PrintOfWalk(data[8..]);
    TailIsCut(data[8..]);
    AfterStart(SIGNATURE, data);
    match w.end
    case Some(end) => Regrouped(PrintAll(w.chunks), Print(end), tail);
    case None => Regrouped(PrintAll(w.chunks), [], tail);
  }

  lemma AfterStart(a: seq<byte>, s: seq<byte>)
    requires |a| <= |s| && s[..|a|] == a
    ensures s == a + s[|a|..]
  {
  }

  lemma Regrouped(a: seq<byte>, b: seq<byte>, c: seq<byte>)
    ensures a + b + c == a + (b + c)
    ensures b == [] ==> a + b + c == a + c
  {
  }

  lemma {:induction false} TailIsCut(s: seq<byte>)
    ensures Walk(s).end.None? ==> Cut(Tail(s))
    decreases |s|
  {
    if StartsChunk(s) && FirstChunk(s).kind != IEND {
      TailIsCut(s[FirstLength(s)..]);
    }
  }

  /** The packet that is read is that of the first chunk before IEND that carries one. */
  lemma ReadIff(data: seq<byte>, w: Walked, tail: seq<byte>, xmp: seq<byte>)
    requires IsFile(data, w, tail)
    ensures Read(data) == Some(xmp) <==> exists i: nat :: FirstCarrier(w.chunks, i, xmp)
  {
    FileWalked(data, w, tail);
    FirstPacketIff(w.chunks, xmp);
  }

  // ----- What is written -----

  /** A chunk under the keyword of the packet, whether it can be read or not. */
  ghost predicate UnderKey(c: Chunk) {
    (c.kind == Ascii("tEXt") || c.kind == Ascii("iTXt")) && exists text :: c.data == TextLayout(XMP_KEY, text)
  }

  lemma UnderKeyIff(c: Chunk)
    ensures IsXmp(c) <==> UnderKey(c)
  {
    Names();
    KeyHasNone();
    KeywordIff(c.data, XMP_KEY);
  }

  /** The chunks that are kept: all others. */
  lemma {:induction false} OthersMean(cs: seq<Chunk>)
    ensures forall c :: c in Others(cs) <==> c in cs && !UnderKey(c)
    ensures (forall c <- cs :: !UnderKey(c)) ==> Others(cs) == cs
  {
    if cs != [] {
      OthersMean(cs[1..]);
      UnderKeyIff(cs[0]);
      assert cs == [cs[0]] + cs[1..];
    }
  }

  /** The chunk that is written. */
  function NewChunk(xmp: seq<byte>): Chunk {
    var data := ItxtLayout(Itxt(Ascii("XML:com.adobe.xmp"), 0, 0, [], [], xmp));
    Chunk(Ascii("iTXt"), data, ToBe(Crc32.Checksum(Ascii("iTXt") + data), 4))
  }

  lemma NewChunkIs(xmp: seq<byte>)
    ensures XmpChunk(xmp) == NewChunk(xmp)
  {
    var key := XMP_KEY;
    Names();
    KeyName();
    assert ItxtLayout(Itxt(key, 0, 0, [], [], xmp)) == key + [0, 0, 0, 0, 0] + xmp;
  }

  /** The IEND chunk that is added where there is none. */
  function Ending(w: Walked): Chunk {
    match w.end
    case Some(end) => end
    case None => Chunk(Ascii("IEND"), [], ToBe(Crc32.Checksum(Ascii("IEND")), 4))
  }

  /** A write gives the other chunks, the new one, and IEND. */
  lemma WriteIs(data: seq<byte>, w: Walked, tail: seq<byte>, xmp: seq<byte>)
    requires IsFile(data, w, tail)
    ensures Write(data, xmp) == Ok(SIGNATURE + (PrintAll(Others(w.chunks)) + (Print(NewChunk(xmp)) + Print(Ending(w)))))
  {
    FileWalked(data, w, tail);
    NewChunkIs(xmp);
    Names();
    assert Ascii("IEND") + [] == Ascii("IEND");
  }

  /** Nothing is read from any other file, and it is not written to. */
  lemma NotPngFile(data: seq<byte>, xmp: seq<byte>, dec: Decoder)
    requires !(SIGNATURE <= data)
    ensures Read(data) == None && Write(data, xmp) == Err(NotPng) && Extract(dec, data) == TextChunks(map[], [])
  {
  }

  // ----- What is extracted -----

  /** An entry of a tEXt chunk, or of an iTXt chunk that is not compressed. */
  ghost predicate Gives(dec: Decoder, c: Chunk, key: string, value: string) {
    || (c.kind == Ascii("tEXt") && exists k, text ::
          NoNul(k) && c.data == TextLayout(k, text) && dec.utf8(k) == Some(key) && value == dec.lossy(text))
    || (c.kind == Ascii("iTXt") && exists t ::
          && Fields(t) && c.data == ItxtLayout(t) && t.flag == 0
          && dec.utf8(t.keyword) == Some(key) && value == dec.lossy(t.text))
  }

  /** An iTXt chunk that is compressed gives its keyword only. */
  ghost predicate GivesKey(dec: Decoder, c: Chunk, key: string) {
    c.kind == Ascii("iTXt") && exists t ::
      Fields(t) && c.data == ItxtLayout(t) && t.flag != 0 && dec.utf8(t.keyword) == Some(key)
  }

  lemma TextIff(dec: Decoder, data: seq<byte>, key: string, value: string)
    ensures ParseText(dec, data) == Some((key, value))
       <==> exists k, text ::
              NoNul(k) && data == TextLayout(k, text) && dec.utf8(k) == Some(key) && value == dec.lossy(text)
  {
    if k, text :| NoNul(k) && data == TextLayout(k, text) && dec.utf8(k) == Some(key) && value == dec.lossy(text) {
      TextParts(k, text);
    }
    if ParseText(dec, data) == Some((key, value)) {
      TextOf(data);
    }
  }

  lemma ItxtIff(dec: Decoder, data: seq<byte>, key: string, value: Option<string>)
    ensures ParseItxt(dec, data) == Some((key, value))
       <==> exists t :: Fields(t) && data == ItxtLayout(t) && dec.utf8(t.keyword) == Some(key)
              && value == if t.flag == 0 then Some(dec.lossy(t.text)) else None
  {
    if t :| Fields(t) && data == ItxtLayout(t) && dec.utf8(t.keyword) == Some(key)
              && value == if t.flag == 0 then Some(dec.lossy(t.text)) else None {
      ItxtParts(t);
    }
    if ParseItxt(dec, data) == Some((key, value)) {
      var t := ItxtOf(data);
      ItxtParts(t);
    }
  }

  /** What one chunk adds: its entry in place of any other under its key, or its key at the end. */
  lemma AddMeans(dec: Decoder, acc: TextChunks, c: Chunk)
    ensures forall key, value | Gives(dec, c, key, value) ::
              Add(dec, acc, c) == acc.(entries := acc.entries[key := value])
    ensures forall key | GivesKey(dec, c, key) :: Add(dec, acc, c) == acc.(compressed := acc.compressed + [key])
    ensures (forall key, value :: !Gives(dec, c, key, value)) && (forall key :: !GivesKey(dec, c, key)) ==>
              Add(dec, acc, c) == acc
  {
    Names();
    if c.kind == TEXT {
      forall key, value ensures Gives(dec, c, key, value) <==> ParseText(dec, c.data) == Some((key, value)) {
        TextIff(dec, c.data, key, value);
      }
    } else if c.kind == ITXT {
      forall key, value ensures Gives(dec, c, key, value) <==> ParseItxt(dec, c.data) == Some((key, Some(value))) {
        ItxtIff(dec, c.data, key, Some(value));
      }
      forall key ensures GivesKey(dec, c, key) <==> ParseItxt(dec, c.data) == Some((key, None)) {
        ItxtIff(dec, c.data, key, None);
      }
    }
  }

  /** All chunks before IEND are taken in, one after the other. */
  lemma {:induction false} CollectMore(dec: Decoder, acc: TextChunks, cs: seq<Chunk>, c: Chunk)
    ensures Collect(dec, acc, cs + [c]) == Add(dec, Collect(dec, acc, cs), c)
    decreases |cs|
  {
    if cs == [] {
      assert cs + [c] == [c] && [c][1..] == [];
    } else {
      assert (cs + [c])[1..] == cs[1..] + [c];
      CollectMore(dec, Add(dec, acc, cs[0]), cs[1..], c);
    }
  }

  /** The last chunk that gives an entry under this key. */
  ghost predicate LastGiver(dec: Decoder, cs: seq<Chunk>, i: nat, key: string, value: string) {
    i < |cs| && Gives(dec, cs[i], key, value) && forall j, v | i < j < |cs| :: !Gives(dec, cs[j], key, v)
  }

  lemma LastOfMore(dec: Decoder, cs: seq<Chunk>, c: Chunk, key: string, value: string)
    ensures (exists i: nat :: LastGiver(dec, cs + [c], i, key, value))
       <==> Gives(dec, c, key, value)
            || ((forall v :: !Gives(dec, c, key, v)) && exists i: nat :: LastGiver(dec, cs, i, key, value))
  {
    var all := cs + [c];
    if i: nat :| LastGiver(dec, all, i, key, value) {
      if i < |cs| {
        assert all[|cs|] == c;
        assert forall j | 0 <= j < |cs| :: all[j] == cs[j];
        assert LastGiver(dec, cs, i, key, value);
      }
    }
    if Gives(dec, c, key, value) {
      assert LastGiver(dec, all, |cs|, key, value);
    } else if forall v :: !Gives(dec, c, key, v) {
      if i: nat :| LastGiver(dec, cs, i, key, value) {
        assert forall j | 0 <= j < |cs| :: all[j] == cs[j];
        assert LastGiver(dec, all, i, key, value);
      }
    }
  }

  /** The keys of the compressed chunks, in order. */
  ghost predicate Keys(dec: Decoder, cs: seq<Chunk>, keys: seq<string>)
    decreases |cs|
  {
    if cs == [] then keys == []
    else
      var front, last := cs[..|cs| - 1], cs[|cs| - 1];
      || (keys != [] && GivesKey(dec, last, keys[|keys| - 1]) && Keys(dec, front, keys[..|keys| - 1]))
      || ((forall key :: !GivesKey(dec, last, key)) && Keys(dec, front, keys))
  }

  /** The extractor has, under each key, the entry of the last chunk that gives one. */
  lemma {:induction false} EntryIff(dec: Decoder, cs: seq<Chunk>, key: string, value: string)
    ensures Get(Collect(dec, NOTHING, cs).entries, key) == Some(value)
       <==> exists i: nat :: LastGiver(dec, cs, i, key, value)
    decreases |cs|
  {
    if cs != [] {
      var front, last := cs[..|cs| - 1], cs[|cs| - 1];
      assert cs == front + [last];
      EntryIff(dec, front, key, value);
      CollectMore(dec, NOTHING, front, last);
      LastOfMore(dec, front, last, key, value);
      EntryAdded(dec, Collect(dec, NOTHING, front), last, key, value);
    }
  }

  lemma EntryAdded(dec: Decoder, acc: TextChunks, c: Chunk, key: string, value: string)
    ensures Get(Add(dec, acc, c).entries, key) == Some(value)
       <==> Gives(dec, c, key, value) || ((forall v :: !Gives(dec, c, key, v)) && Get(acc.entries, key) == Some(value))
  {
    AddMeans(dec, acc, c);
    GivesOnce(dec, c);
  }

  /** A chunk gives one thing at most. */
  lemma GivesOnce(dec: Decoder, c: Chunk)
    ensures forall k, v, k', v' | Gives(dec, c, k, v) && Gives(dec, c, k', v') :: k == k' && v == v'
    ensures forall k, v, k' | Gives(dec, c, k, v) :: !GivesKey(dec, c, k')
  {
    forall k, v, k', v' | Gives(dec, c, k, v) && Gives(dec, c, k', v') ensures k == k' && v == v' {
      Names();
      if c.kind == TEXT {
        TextIff(dec, c.data, k, v);
        TextIff(dec, c.data, k', v');
      } else {
        ItxtIff(dec, c.data, k, Some(v));
        ItxtIff(dec, c.data, k', Some(v'));
      }
    }
    forall k, v, k' | Gives(dec, c, k, v) && GivesKey(dec, c, k') ensures false {
      Names();
      ItxtIff(dec, c.data, k, Some(v));
      ItxtIff(dec, c.data, k', None);
    }
  }

  /** And the keys of the compressed chunks, in order. */
  lemma {:induction false} CompressedAre(dec: Decoder, cs: seq<Chunk>)
    ensures Keys(dec, cs, Collect(dec, NOTHING, cs).compressed)
    decreases |cs|
  {
    if cs != [] {
      var front, last := cs[..|cs| - 1], cs[|cs| - 1];
      var acc := Collect(dec, NOTHING, front);
      assert cs == front + [last];
      CompressedAre(dec, front);
      CollectMore(dec, NOTHING, front, last);
      AddMeans(dec, acc, last);
      GivesOnce(dec, last);
      if key :| GivesKey(dec, last, key) {
        assert (acc.compressed + [key])[..|acc.compressed|] == acc.compressed;
      }
    }
  }

  /** All this of a whole file. */
  lemma ExtractedIff(dec: Decoder, data: seq<byte>, w: Walked, tail: seq<byte>, key: string, value: string)
    requires IsFile(data, w, tail)
    ensures Get(Extract(dec, data).entries, key) == Some(value)
       <==> exists i: nat :: LastGiver(dec, w.chunks, i, key, value)
    ensures Keys(dec, w.chunks, Extract(dec, data).compressed)
  {
    FileWalked(data, w, tail);
    EntryIff(dec, w.chunks, key, value);
    CompressedAre(dec, w.chunks);
  }
}
