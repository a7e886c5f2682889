/**
 What a PNG write means: it reads back, keeps every other chunk, is idempotent
 under overwriting, and is invisible to the metadata extractor except for the
 XMP keyword itself.
 */
module PngLaws {
  import opened Bytes
  import Crc32
  import opened Png
  import opened PngText
  import opened Results
  import opened Sequences

  // ----- Walking what was printed -----

  lemma PrintParts(c: Chunk, tail: seq<byte>)
    requires WellFormed(c)
    ensures var s := Print(c) + tail;
            && StartsChunk(s) && FirstChunk(s) == c && FirstLength(s) == 12 + |c.data|
            && s[FirstLength(s)..] == tail
  {
    Capacities();
    BeRoundTrip(|c.data|, 4);
    Layout(ToBe(|c.data|, 4), c.kind, c.data, c.crc, tail);
  }

  lemma Layout(a: seq<byte>, b: seq<byte>, data: seq<byte>, crc: seq<byte>, tail: seq<byte>)
    requires |a| == |b| == |crc| == 4
    ensures var s, n := a + b + data + crc + tail, |data|;
            && |s| == 12 + n + |tail| && s[..4] == a && s[4..8] == b && s[8..8 + n] == data
            && s[8 + n..12 + n] == crc && s[12 + n..] == tail
  {
  }

  /** Chunks that a walk passes: none of them is IEND. */
  predicate Passable(cs: seq<Chunk>) {
    forall c <- cs :: WellFormed(c) && c.kind != IEND
  }

  lemma {:induction false} WalkOfPrint(cs: seq<Chunk>, end: Chunk)
    requires Passable(cs) && WellFormed(end) && end.kind == IEND
    ensures Walk(PrintAll(cs) + Print(end)) == Walked(cs, Some(end))
  {
    if cs == [] {
      PrintParts(end, []);
      assert PrintAll(cs) + Print(end) == Print(end) + [];
    } else {
      var tail := PrintAll(cs[1..]) + Print(end);
      Associative(Print(cs[0]), PrintAll(cs[1..]), Print(end));
      PrintParts(cs[0], tail);
      WalkOfPrint(cs[1..], end);
      assert [cs[0]] + cs[1..] == cs;
    }
  }

  lemma {:induction false} WalkIsPassable(s: seq<byte>)
    ensures Passable(Walk(s).chunks)
    ensures Walk(s).end.Some? ==> WellFormed(Walk(s).end.value) && Walk(s).end.value.kind == IEND
    decreases |s|
  {
    if StartsChunk(s) {
      BeRoundTripBytes(s[..4]);
      Capacities();
      if FirstChunk(s).kind != IEND {
        WalkIsPassable(s[FirstLength(s)..]);
      }
    }
  }

  lemma {:induction false} OthersPassable(cs: seq<Chunk>)
    requires Passable(cs)
    ensures Passable(Others(cs))
    ensures Others(Others(cs)) == Others(cs)
    ensures FirstPacket(Others(cs)) == None
  {
    if cs != [] {
      var rest := Others(cs[1..]);
      OthersPassable(cs[1..]);
      if IsXmp(cs[0]) {
        assert Others(cs) == rest;
      } else {
        assert Others(cs) == [cs[0]] + rest && Others(cs)[1..] == rest;
      }
    }
  }

  lemma {:induction false} OthersAppend(a: seq<Chunk>, b: seq<Chunk>)
    ensures Others(a + b) == Others(a) + Others(b)
  {
    if a == [] {
      assert a + b == b;
    } else {
      OthersAppend(a[1..], b);
      assert (a + b)[1..] == a[1..] + b && (a + b)[0] == a[0];
    }
  }

  lemma {:induction false} FirstPacketAppend(a: seq<Chunk>, c: Chunk)
    requires FirstPacket(a) == None
    ensures FirstPacket(a + [c]) == Packet(c)
  {
    if a == [] {
      assert a + [c] == [c] && [c][1..] == [];
    } else {
      FirstPacketAppend(a[1..], c);
      assert (a + [c])[1..] == a[1..] + [c] && (a + [c])[0] == a[0];
    }
  }

  // ----- The new chunk -----

  /** The iTXt prefix: no language, no translated keyword, uncompressed. */
  lemma NewChunkCarriesPacket(xmp: seq<byte>)
    requires |xmp| + 22 < U32_LIMIT
    ensures IsXmp(XmpChunk(xmp)) && Packet(XmpChunk(xmp)) == Some(xmp) && WellFormed(XmpChunk(xmp))
    ensures FromBe(XmpChunk(xmp).crc) == Crc32.Checksum(ITXT + XmpChunk(xmp).data)
  {
    var s := XMP_KEY + [0, 0, 0, 0, 0] + xmp;
    KeyHasNoNul(s);
    assert s[..17] == XMP_KEY && s[17] == s[18] == s[19] == s[20] == s[21] == 0 && s[22..] == xmp;
    assert NulFrom(s, 20) == 20 && NulFrom(s, 21) == 21;
    Capacities();
    Crc32.ChecksumFits(ITXT + s);
    BeRoundTrip(Crc32.Checksum(ITXT + s), 4);
  }

  lemma KeyHasNoNul(s: seq<byte>)
    requires |s| > 17 && s[..17] == XMP_KEY && s[17] == 0
    ensures NulFrom(s, 0) == 17
  {
    NulAtLeast(s, 0, 17);
  }

  lemma {:induction false} NulAtLeast(s: seq<byte>, i: nat, n: nat)
    requires i <= n < |s| && s[n] == 0
    requires forall j :: i <= j < n ==> s[j] != 0
    ensures NulFrom(s, i) == n
    decreases n - i
  {
    if i < n {
      NulAtLeast(s, i + 1, n);
    }
  }

  // ----- The written file -----

  /** The chunks of a written file: the others, the new one, IEND. */
  lemma WrittenChunks(data: seq<byte>, xmp: seq<byte>)
    requires IsPng(data) && |xmp| + 22 < U32_LIMIT
    ensures IsPng(Write(data, xmp).value)
    ensures WalkFile(Write(data, xmp).value) ==
            Walked(Others(WalkFile(data).chunks) + [XmpChunk(xmp)], Some(EndChunk(WalkFile(data))))
  {
    var w := WalkFile(data);
    WalkIsPassable(data[8..]);
    OthersPassable(w.chunks);
    NewChunkCarriesPacket(xmp);
    WalkOfEdited(Others(w.chunks), XmpChunk(xmp), EndChunk(w));
    AfterSignature(SIGNATURE, PrintAll(Others(w.chunks)) + (Print(XmpChunk(xmp)) + Print(EndChunk(w))));
  }

  lemma PrintEdited(others: seq<Chunk>, x: Chunk, end: Chunk)
    ensures PrintAll(others) + (Print(x) + Print(end)) == PrintAll(others + [x]) + Print(end)
  {
    PrintAppend(others, [x]);
    assert [x][1..] == [] && PrintAll([x]) == Print(x) + [] == Print(x);
    Associative(PrintAll(others), Print(x), Print(end));
  }

  lemma WalkOfEdited(others: seq<Chunk>, x: Chunk, end: Chunk)
    requires Passable(others) && Passable([x]) && WellFormed(end) && end.kind == IEND
    ensures Walk(PrintAll(others) + (Print(x) + Print(end))) == Walked(others + [x], Some(end))
  {
    PrintEdited(others, x, end);
    WalkOfPrint(others + [x], end);
  }

  lemma AfterSignature(signature: seq<byte>, body: seq<byte>)
    requires |signature| == 8
    ensures (signature + body)[..8] == signature && (signature + body)[8..] == body
  {
  }

  /** Reading a written file returns the packet that was written. */
  lemma ReadAfterWrite(data: seq<byte>, xmp: seq<byte>)
    requires IsPng(data) && |xmp| + 22 < U32_LIMIT
    ensures Write(data, xmp).Ok? && Read(Write(data, xmp).value) == Some(xmp)
  {
    WrittenChunks(data, xmp);
    WalkIsPassable(data[8..]);
    OthersPassable(WalkFile(data).chunks);
    NewChunkCarriesPacket(xmp);
    FirstPacketAppend(Others(WalkFile(data).chunks), XmpChunk(xmp));
  }

  /** The chunks other than XMP are kept byte for byte, in order, and IEND too when present. */
  lemma WriteKeepsOthers(data: seq<byte>, xmp: seq<byte>)
    requires IsPng(data) && |xmp| + 22 < U32_LIMIT
    ensures var before, after := WalkFile(data), WalkFile(Write(data, xmp).value);
            && Others(after.chunks) == Others(before.chunks)
            && (before.end.Some? ==> after.end == before.end)
  {
    var others, x := Others(WalkFile(data).chunks), XmpChunk(xmp);
    WrittenChunks(data, xmp);
    WalkIsPassable(data[8..]);
    OthersPassable(WalkFile(data).chunks);
    NewChunkCarriesPacket(xmp);
    OthersAppend(others, [x]);
    assert [x][1..] == [] && Others([x]) == [] && others + [] == others;
  }

  /** The second of two writes wins, byte for byte. */
  lemma WriteTwice(data: seq<byte>, x: seq<byte>, y: seq<byte>)
    requires IsPng(data) && |x| + 22 < U32_LIMIT
    ensures Write(Write(data, x).value, y) == Write(data, y)
  {
    WrittenChunks(data, x);
    WriteKeepsOthers(data, x);
  }

  // ----- What a write does not keep -----

  /** What follows the walk: the bytes after IEND, or those that make no chunk. */
  function Tail(s: seq<byte>): (tail: seq<byte>)
    ensures |tail| <= |s|
    decreases |s|
  {
    if !StartsChunk(s) then s
    else if FirstChunk(s).kind == IEND then s[FirstLength(s)..]
    else Tail(s[FirstLength(s)..])
  }

  /** The bytes of a walk. */
  function PrintWalked(w: Walked): seq<byte> {
    PrintAll(w.chunks) + if w.end.Some? then Print(w.end.value) else []
  }

  lemma PrintFirst(s: seq<byte>)
    requires StartsChunk(s)
    ensures s == Print(FirstChunk(s)) + s[FirstLength(s)..]
  {
    BeRoundTripBytes(s[..4]);
  }

  /** A file is its walk and its tail. */
  lemma {:induction false} PrintOfWalk(s: seq<byte>)
    ensures s == PrintWalked(Walk(s)) + Tail(s)
    decreases |s|
  {
    if !StartsChunk(s) {
      assert PrintWalked(Walk(s)) == [];
    } else {
      PrintFirst(s);
      if FirstChunk(s).kind == IEND {
        assert PrintWalked(Walk(s)) == Print(FirstChunk(s));
      } else {
        var w := Walk(s[FirstLength(s)..]);
        PrintOfWalk(s[FirstLength(s)..]);
        assert Walk(s).chunks[1..] == w.chunks;
        Associative(Print(FirstChunk(s)), PrintAll(w.chunks), if w.end.Some? then Print(w.end.value) else []);
        Associative(Print(FirstChunk(s)), PrintWalked(w), Tail(s));
      }
    }
  }

  lemma {:induction false} WalkOfChunks(cs: seq<Chunk>)
    requires Passable(cs)
    ensures Walk(PrintAll(cs)) == Walked(cs, None)
  {
    if cs != [] {
      PrintParts(cs[0], PrintAll(cs[1..]));
      WalkOfChunks(cs[1..]);
      assert [cs[0]] + cs[1..] == cs;
    }
  }

  /** The walk does not depend on the tail. */
  lemma WalkWithoutTail(s: seq<byte>)
    ensures Walk(PrintWalked(Walk(s))) == Walk(s)
  {
    var w := Walk(s);
    WalkIsPassable(s);
    if w.end.Some? {
      WalkOfPrint(w.chunks, w.end.value);
    } else {
      WalkOfChunks(w.chunks);
      assert PrintAll(w.chunks) + [] == PrintAll(w.chunks);
    }
  }

  /**
   A write drops the tail of the file and no more: it gives what it gives for the file
   without its tail, which is the whole file exactly when there is no tail.
   */
  lemma TailDropped(data: seq<byte>, xmp: seq<byte>)
    requires IsPng(data)
    ensures var kept := SIGNATURE + PrintWalked(WalkFile(data));
            && data == kept + Tail(data[8..])
            && Write(data, xmp) == Write(kept, xmp)
            && (data == kept <==> Tail(data[8..]) == [])
  {
    var walked := PrintWalked(WalkFile(data));
    PrintOfWalk(data[8..]);
    WalkWithoutTail(data[8..]);
    AfterSignature(SIGNATURE, walked);
    Associative(SIGNATURE, walked, Tail(data[8..]));
    assert data == SIGNATURE + data[8..];
  }

  // ----- The extractor -----

  function Drop(keywords: seq<string>, k: string): seq<string> {
    if keywords == [] then []
    else (if keywords[0] == k then [] else [keywords[0]]) + Drop(keywords[1..], k)
  }

  lemma {:induction false} DropSnoc(keywords: seq<string>, last: string, k: string)
    ensures Drop(keywords + [last], k) == Drop(keywords, k) + (if last == k then [] else [last])
  {
    if keywords != [] {
      DropSnoc(keywords[1..], last, k);
      assert (keywords + [last])[1..] == keywords[1..] + [last];
    }
  }

  /** The same entries and the same compressed keywords, but for one keyword. */
  predicate AgreeExcept(a: TextChunks, b: TextChunks, k: string) {
    a.entries - {k} == b.entries - {k} && Drop(a.compressed, k) == Drop(b.compressed, k)
  }

  lemma PutKeepsAgreement(a: TextChunks, b: TextChunks, key: string, value: string, k: string)
    requires AgreeExcept(a, b, k)
    ensures AgreeExcept(a.(entries := a.entries[key := value]), b.(entries := b.entries[key := value]), k)
  {
    var a', b' := a.entries[key := value], b.entries[key := value];
    forall j | j in (a' - {k}).Keys + (b' - {k}).Keys
      ensures j in a' - {k} && j in b' - {k} && a'[j] == b'[j]
    {
      assert j in a.entries - {k} <==> j in b.entries - {k};
    }
  }

  lemma AddKeepsAgreement(dec: Decoder, a: TextChunks, b: TextChunks, c: Chunk, k: string)
    requires AgreeExcept(a, b, k)
    ensures AgreeExcept(Add(dec, a, c), Add(dec, b, c), k)
  {
    if c.kind == TEXT {
      match ParseText(dec, c.data)
      case None =>
      case Some((key, value)) => PutKeepsAgreement(a, b, key, value, k);
    } else if c.kind == ITXT {
      match ParseItxt(dec, c.data)
      case None =>
      case Some((key, None)) =>
        DropSnoc(a.compressed, key, k);
        DropSnoc(b.compressed, key, k);
      case Some((key, Some(value))) => PutKeepsAgreement(a, b, key, value, k);
    }
  }

  lemma XmpChangesOnlyItsKey(dec: Decoder, a: TextChunks, c: Chunk, k: string)
    requires IsXmp(c) && dec.utf8(XMP_KEY) == Some(k)
    ensures AgreeExcept(Add(dec, a, c), a, k)
  {
    DropSnoc(a.compressed, k, k);
  }

  lemma {:induction false} CollectIgnoresXmp(dec: Decoder, a: TextChunks, b: TextChunks, cs: seq<Chunk>, k: string)
    requires AgreeExcept(a, b, k) && dec.utf8(XMP_KEY) == Some(k)
    ensures AgreeExcept(Collect(dec, a, cs), Collect(dec, b, Others(cs)), k)
    decreases |cs|
  {
    if cs != [] {
      var c, rest := cs[0], Others(cs[1..]);
      if IsXmp(c) {
        XmpChangesOnlyItsKey(dec, a, c, k);
        CollectIgnoresXmp(dec, Add(dec, a, c), b, cs[1..], k);
        assert Others(cs) == rest;
      } else {
        AddKeepsAgreement(dec, a, b, c, k);
        CollectIgnoresXmp(dec, Add(dec, a, c), Add(dec, b, c), cs[1..], k);
        assert Others(cs) == [c] + rest && Others(cs)[1..] == rest;
      }
    }
  }

  /** The extractor sees the same metadata before and after a write, except under the XMP keyword. */
  lemma WriteInvisibleToExtractor(dec: Decoder, data: seq<byte>, xmp: seq<byte>, k: string)
    requires IsPng(data) && |xmp| + 22 < U32_LIMIT && dec.utf8(XMP_KEY) == Some(k)
    ensures AgreeExcept(Extract(dec, data), Extract(dec, Write(data, xmp).value), k)
  {
    WrittenChunks(data, xmp);
    WriteKeepsOthers(data, xmp);
    CollectIgnoresXmp(dec, NOTHING, NOTHING, WalkFile(data).chunks, k);
    CollectIgnoresXmp(dec, NOTHING, NOTHING, WalkFile(Write(data, xmp).value).chunks, k);
  }
}
