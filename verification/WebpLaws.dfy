/**
 What a successful WebP write means: it parses back, reads back, keeps every
 other chunk, and overwriting forgets the packet written before.
 */
module WebpLaws {
  import opened Bytes
  import opened Results
  import opened Sequences
  import opened Webp

  /** The chunks a write produces. */
  function Written(data: seq<byte>, xmp: seq<byte>): seq<Chunk>
    requires Write(data, xmp).Ok?
  {
    Edit(Parse(data, true).value, xmp).value
  }

  /** The stages a successful write went through. */
  lemma WriteStages(data: seq<byte>, xmp: seq<byte>)
    requires Write(data, xmp).Ok?
    ensures Parse(data, true).Ok? && AllWellFormed(Parse(data, true).value)
    ensures Edit(Parse(data, true).value, xmp) == Ok(Written(data, xmp))
    ensures Assemble(Written(data, xmp)) == Write(data, xmp)
  {
    PrintOfParse(Body(data, RiffEnd(data)));
  }

  // ----- The edited list -----

  lemma {:induction false} EditWellFormed(cs: seq<Chunk>, xmp: seq<byte>)
    requires AllWellFormed(cs) && EditExtended(cs, xmp).Ok?
    ensures AllWellFormed(EditExtended(cs, xmp).value)
  {
    if cs != [] {
      EditWellFormed(cs[1..], xmp);
      var edited, rest := EditChunk(cs[0], xmp).value, EditExtended(cs[1..], xmp).value;
      forall c | c in edited + rest ensures WellFormed(c) {
        assert c in edited || c in rest;
      }
    }
  }

  lemma {:induction false} KeptWellFormed(cs: seq<Chunk>)
    requires AllWellFormed(cs)
    ensures AllWellFormed(Kept(cs))
  {
    if cs != [] {
      KeptWellFormed(cs[1..]);
    }
  }

  lemma EditKeepsWellFormed(cs: seq<Chunk>, xmp: seq<byte>)
    requires AllWellFormed(cs) && Edit(cs, xmp).Ok?
    ensures AllWellFormed(Edit(cs, xmp).value)
  {
    if Has(cs, VP8X) {
      EditWellFormed(cs, xmp);
    } else {
      KeptWellFormed(cs);
      var edited := Edit(cs, xmp).value;
      forall c | c in edited ensures WellFormed(c) {
        assert c == edited[0] || c == XmpChunk(xmp) || c in Kept(cs);
      }
    }
  }

  /** The written file parses to exactly the edited chunks, with or without the size check. */
  lemma WriteParsesBack(data: seq<byte>, xmp: seq<byte>)
    requires Write(data, xmp).Ok?
    ensures var out := Write(data, xmp).value;
            && Parse(out, true) == Parse(out, false) == Ok(Written(data, xmp))
            && |out| % 2 == 0
            && RiffEnd(out) == |out|
  {
    WriteStages(data, xmp);
    EditKeepsWellFormed(Parse(data, true).value, xmp);
    AssembledParses(Written(data, xmp), Write(data, xmp).value);
  }

  lemma AssembledParses(cs: seq<Chunk>, out: seq<byte>)
    requires AllWellFormed(cs) && Assemble(cs) == Ok(out)
    ensures Parse(out, true) == Parse(out, false) == Ok(cs)
    ensures |out| % 2 == 0
    ensures RiffEnd(out) == |out|
  {
    ParseOfPrint(cs);
    PrintAllEven(cs);
    HeaderParses(PrintAll(cs), out);
    StaysEven(|PrintAll(cs)|);
  }

  lemma StaysEven(n: nat)
    requires n % 2 == 0
    ensures (n + 12) % 2 == 0
  {
  }

  lemma HeaderParses(body: seq<byte>, out: seq<byte>)
    requires |body| + 4 < U32_LIMIT && out == RIFF + ToLe(|body| + 4, 4) + WEBP + body
    ensures IsWebp(out) && RiffEnd(out) == |out| == |body| + 12
    ensures Body(out, |out|) == body
  {
    var size := ToLe(|body| + 4, 4);
    HeaderParts(RIFF, size, WEBP, body, out);
    assert FromLe(size) == |body| + 4 by {
      Capacities();
      LeRoundTrip(|body| + 4, 4);
    }
  }

  lemma HeaderParts(a: seq<byte>, b: seq<byte>, c: seq<byte>, body: seq<byte>, out: seq<byte>)
    requires |a| == |b| == |c| == 4 && out == a + b + c + body
    ensures |out| == |body| + 12 && out[..4] == a && out[4..8] == b && out[8..12] == c
    ensures out[12..|out|] == body
  {
  }

  // ----- Reading back -----

  lemma {:induction false} FirstXmpEdited(cs: seq<Chunk>, xmp: seq<byte>)
    requires EditExtended(cs, xmp).Ok? && Has(cs, VP8X)
    ensures First(EditExtended(cs, xmp).value, XMP) == Some(xmp)
  {
    var edited, rest := EditChunk(cs[0], xmp).value, EditExtended(cs[1..], xmp).value;
    if cs[0].fourcc == VP8X {
      assert (edited + rest)[1..][0] == XmpChunk(xmp);
      FirstSecond(edited + rest);
    } else {
      HasTail(cs, VP8X);
      FirstXmpEdited(cs[1..], xmp);
      if cs[0].fourcc == XMP {
        assert edited + rest == rest;
      } else {
        assert (edited + rest)[1..] == rest;
      }
    }
  }

  lemma FirstSecond(cs: seq<Chunk>)
    requires |cs| >= 2 && cs[0].fourcc != XMP && cs[1].fourcc == XMP
    ensures First(cs, XMP) == Some(cs[1].payload)
  {
    assert First(cs[1..], XMP) == Some(cs[1].payload);
  }

  lemma HasTail(cs: seq<Chunk>, fourcc: FourCc)
    requires Has(cs, fourcc) && cs[0].fourcc != fourcc
    ensures Has(cs[1..], fourcc)
  {
    var i :| 0 <= i < |cs| && cs[i].fourcc == fourcc;
    assert cs[1..][i - 1] == cs[i];
  }

  /** Reading a written file returns the packet that was written. */
  lemma ReadAfterWrite(data: seq<byte>, xmp: seq<byte>)
    requires Write(data, xmp).Ok?
    ensures Read(Write(data, xmp).value) == Some(xmp)
  {
    WriteParsesBack(data, xmp);
    WriteStages(data, xmp);
    var cs := Parse(data, true).value;
    if Has(cs, VP8X) {
      FirstXmpEdited(cs, xmp);
    } else {
      FirstSecond(Written(data, xmp));
    }
  }

  // ----- What is kept -----

  /** Equal chunks, except that VP8X now announces XMP: one bit of its flags. */
  predicate SameButXmpFlag(before: Chunk, after: Chunk) {
    if before.fourcc != VP8X then after == before
    else
      && after.fourcc == VP8X && |before.payload| == |after.payload| == 10
      && after.payload[1..] == before.payload[1..]
      && after.payload[0] / 8 == before.payload[0] / 8
      && after.payload[0] % 4 == before.payload[0] % 4
      && after.payload[0] / 4 % 2 == 1
  }

  predicate AllSameButXmpFlag(before: seq<Chunk>, after: seq<Chunk>) {
    |before| == |after| && forall i :: 0 <= i < |before| ==> SameButXmpFlag(before[i], after[i])
  }

  lemma FlagFacts(p: seq<byte>)
    requires |p| == 10
    ensures SameButXmpFlag(Chunk(VP8X, p, []), Chunk(VP8X, WithXmpFlag(p), []))
    ensures WithXmpFlag(WithXmpFlag(p)) == WithXmpFlag(p)
  {
    assert WithXmpFlag(p)[1..] == p[1..];
  }

  lemma {:induction false} KeptEdited(cs: seq<Chunk>, xmp: seq<byte>)
    requires EditExtended(cs, xmp).Ok?
    ensures AllSameButXmpFlag(Kept(cs), Kept(EditExtended(cs, xmp).value))
    ensures forall c <- EditExtended(cs, xmp).value :: c.fourcc == XMP ==> c.payload == xmp
  {
    if cs != [] {
      var c, edited, rest := cs[0], EditChunk(cs[0], xmp).value, EditExtended(cs[1..], xmp).value;
      KeptEdited(cs[1..], xmp);
      KeptAppend(edited, rest);
      if c.fourcc == XMP {
        assert Kept(edited) == [];
      } else if c.fourcc == VP8X {
        assert edited[1..] == [XmpChunk(xmp)] && Kept([XmpChunk(xmp)]) == [];
        assert Kept(edited) == [edited[0]];
        FlagFacts(c.payload);
      } else {
        assert edited[1..] == [] && Kept(edited) == [c];
      }
      forall d | d in edited + rest && d.fourcc == XMP ensures d.payload == xmp {
        assert d in edited || d in rest;
      }
    }
  }

  lemma {:induction false} KeptAppend(a: seq<Chunk>, b: seq<Chunk>)
    ensures Kept(a + b) == Kept(a) + Kept(b)
  {
    if a == [] {
      assert a + b == b;
    } else {
      KeptAppend(a[1..], b);
      assert (a + b)[1..] == a[1..] + b && (a + b)[0] == a[0];
      if a[0].fourcc != XMP {
        Associative([a[0]], Kept(a[1..]), Kept(b));
      }
    }
  }

  lemma {:induction false} KeptIsKept(cs: seq<Chunk>)
    ensures Kept(Kept(cs)) == Kept(cs)
    ensures !Has(Kept(cs), XMP)
    ensures forall f: FourCc :: !Has(cs, f) ==> !Has(Kept(cs), f)
  {
    if cs != [] {
      var rest := Kept(cs[1..]);
      KeptIsKept(cs[1..]);
      if cs[0].fourcc == XMP {
        assert Kept(cs) == rest;
      } else {
        assert Kept(cs) == [cs[0]] + rest && Kept(cs)[1..] == rest;
      }
      HasSplits([cs[0]], cs[1..]);
      HasSplits([cs[0]], rest);
      assert [cs[0]] + cs[1..] == cs;
    }
  }

  /** An extended file keeps every other chunk; VP8X only gains the XMP flag. */
  lemma ExtendedWriteKeeps(data: seq<byte>, xmp: seq<byte>)
    requires Write(data, xmp).Ok? && Has(Parse(data, true).value, VP8X)
    ensures AllSameButXmpFlag(Kept(Parse(data, true).value), Kept(Written(data, xmp)))
    ensures forall c <- Written(data, xmp) :: c.fourcc == XMP ==> c.payload == xmp
  {
    KeptEdited(Parse(data, true).value, xmp);
  }

  /**
   A simple file keeps every chunk and gains a VP8X chunk in front that declares the XMP
   chunk, the dimensions of the bitstream (when they are not zero) and its alpha.
   */
  lemma PromotedWriteKeeps(data: seq<byte>, xmp: seq<byte>)
    requires Write(data, xmp).Ok? && !Has(Parse(data, true).value, VP8X)
    ensures SimpleDims(Parse(data, true).value).Ok?
    ensures var cs, out := Parse(data, true).value, Written(data, xmp);
            && Announces(out[0], SimpleDims(cs).value)
            && out[1..] == [XmpChunk(xmp)] + Kept(cs) && Kept(out) == [out[0]] + Kept(cs)
  {
    WriteStages(data, xmp);
    var cs := Parse(data, true).value;
    var d, out := SimpleDims(cs).value, Written(data, xmp);
    SimpleDimsSmall(cs);
    PayloadAnnounces(d);
    PromotedKept(out[0], XmpChunk(xmp), Kept(cs));
    KeptIsKept(cs);
  }

  lemma PromotedKept(vp8x: Chunk, x: Chunk, rest: seq<Chunk>)
    requires vp8x.fourcc != XMP && x.fourcc == XMP
    ensures Kept([vp8x, x] + rest) == [vp8x] + Kept(rest)
    ensures ([vp8x, x] + rest)[1..] == [x] + rest
  {
    var out := [vp8x, x] + rest;
    assert out[1..] == [x] + rest && ([x] + rest)[1..] == rest;
  }

  /** The VP8X chunk declares XMP, and the dimensions and alpha of the bitstream. */
  predicate Announces(vp8x: Chunk, d: Dimensions) {
    && vp8x.fourcc == VP8X && |vp8x.payload| == 10
    && vp8x.payload[0] / 4 % 2 == 1
    && (vp8x.payload[0] / 0x10 % 2 == 1 <==> d.alpha)
    && (d.width > 0 ==> Canvas(vp8x.payload).0 == d.width)
    && (d.height > 0 ==> Canvas(vp8x.payload).1 == d.height)
  }

  lemma PayloadAnnounces(d: Dimensions)
    requires d.width <= 0x4000 && d.height <= 0x4000
    ensures Announces(Chunk(VP8X, Vp8xPayload(d), []), d)
  {
    var w, h, p := MinusOne24(d.width), MinusOne24(d.height), Vp8xPayload(d);
    SplitPayload([p[0], 0, 0, 0], ToLe(w, 3), ToLe(h, 3));
    MinusOneFits(d.width);
    MinusOneFits(d.height);
    if d.alpha {
      assert p[0] == 0x14;
    } else {
      assert p[0] == 0x04;
    }
  }

  lemma MinusOneFits(n: nat)
    requires n <= 0x4000
    ensures FromLe(ToLe(MinusOne24(n), 3)) == if n == 0 then 0 else n - 1
  {
    Capacity3();
    LeRoundTrip(MinusOne24(n), 3);
  }

  lemma SplitPayload(a: seq<byte>, b: seq<byte>, c: seq<byte>)
    requires |a| == 4 && |b| == |c| == 3
    ensures (a + b + c)[4..7] == b && (a + b + c)[7..10] == c
  {
  }

  lemma Capacity3()
    ensures Capacity(3) == 0x100_0000
  {
    assert Capacity(1) == 0x100 && Capacity(2) == 0x1_0000;
  }

  lemma SimpleDimsSmall(cs: seq<Chunk>)
    requires SimpleDims(cs).Ok?
    ensures SimpleDims(cs).value.width <= 0x4000 && SimpleDims(cs).value.height <= 0x4000
  {
  }

  // ----- Overwriting -----

  lemma {:induction false} EditTwice(cs: seq<Chunk>, x: seq<byte>, y: seq<byte>)
    requires EditExtended(cs, x).Ok? && EditExtended(cs, y).Ok?
    ensures EditExtended(EditExtended(cs, x).value, y) == EditExtended(cs, y)
  {
    if cs != [] {
      var c, first, rest := cs[0], EditChunk(cs[0], x).value, EditExtended(cs[1..], x).value;
      EditTwice(cs[1..], x, y);
      EditAppend(first, rest, y);
      if c.fourcc == VP8X {
        FlagFacts(c.payload);
        EditTwo(first[0], first[1], y);
      } else if c.fourcc != XMP {
        EditSingle(c, y);
      }
    }
  }

  lemma EditSingle(c: Chunk, y: seq<byte>)
    ensures EditExtended([c], y) == EditChunk(c, y)
  {
    assert [c][1..] == [];
    if EditChunk(c, y).Ok? {
      assert EditChunk(c, y).value + [] == EditChunk(c, y).value;
    }
  }

  lemma EditTwo(a: Chunk, b: Chunk, y: seq<byte>)
    requires b.fourcc == XMP
    ensures EditExtended([a, b], y) == EditChunk(a, y)
  {
    assert [a, b][1..] == [b];
    EditSingle(b, y);
    if EditChunk(a, y).Ok? {
      assert EditChunk(a, y).value + [] == EditChunk(a, y).value;
    }
  }

  lemma {:induction false} EditAppend(a: seq<Chunk>, b: seq<Chunk>, y: seq<byte>)
    ensures match EditExtended(a, y)
            case Err(e) => EditExtended(a + b, y) == Err(e)
            case Ok(edited) => EditExtended(a + b, y) == Extend(edited, EditExtended(b, y))
  {
    if a == [] {
      assert a + b == b;
      ExtendNothing(EditExtended(b, y));
    } else {
      EditAppend(a[1..], b, y);
      assert (a + b)[1..] == a[1..] + b;
      if EditChunk(a[0], y).Ok? && EditExtended(a[1..], y).Ok? && EditExtended(b, y).Ok? {
        var e, f, g := EditChunk(a[0], y).value, EditExtended(a[1..], y).value, EditExtended(b, y).value;
        assert e + (f + g) == e + f + g;
      }
    }
  }

  /** Without XMP and VP8X chunks there is nothing to edit. */
  lemma {:induction false} EditNothing(cs: seq<Chunk>, y: seq<byte>)
    requires !Has(cs, XMP) && !Has(cs, VP8X)
    ensures EditExtended(cs, y) == Ok(cs)
  {
    if cs != [] {
      assert cs[0].fourcc != XMP && cs[0].fourcc != VP8X;
      assert [cs[0]] + cs[1..] == cs;
      HasSplits([cs[0]], cs[1..]);
      EditNothing(cs[1..], y);
    }
  }

  /** Editing creates no animation chunk, and leaves a VP8X chunk. */
  lemma {:induction false} EditedKinds(cs: seq<Chunk>, x: seq<byte>)
    requires EditExtended(cs, x).Ok?
    ensures Has(cs, VP8X) ==> Has(EditExtended(cs, x).value, VP8X)
    ensures !IsAnimated(cs) ==> !IsAnimated(EditExtended(cs, x).value)
  {
    if cs != [] {
      var first, rest := EditChunk(cs[0], x).value, EditExtended(cs[1..], x).value;
      EditedKinds(cs[1..], x);
      HasSplits([cs[0]], cs[1..]);
      HasSplits(first, rest);
      assert [cs[0]] + cs[1..] == cs;
      if cs[0].fourcc == VP8X {
        assert first[0].fourcc == VP8X;
      }
    }
  }

  lemma HasSplits(a: seq<Chunk>, b: seq<Chunk>)
    ensures forall f: FourCc :: Has(a + b, f) <==> Has(a, f) || Has(b, f)
  {
    forall f: FourCc ensures Has(a + b, f) <==> Has(a, f) || Has(b, f) {
      if Has(a, f) {
        var i :| 0 <= i < |a| && a[i].fourcc == f;
        assert (a + b)[i].fourcc == f;
      }
      if Has(b, f) {
        var i :| 0 <= i < |b| && b[i].fourcc == f;
        assert (a + b)[|a| + i].fourcc == f;
      }
    }
  }

  /** Editing twice is editing with the second packet. */
  lemma EditAnyTwice(cs: seq<Chunk>, x: seq<byte>, y: seq<byte>)
    requires Edit(cs, x).Ok? && Edit(cs, y).Ok?
    ensures Edit(Edit(cs, x).value, y) == Edit(cs, y)
  {
    if Has(cs, VP8X) {
      EditTwice(cs, x, y);
      EditedKinds(cs, x);
    } else {
      KeptIsKept(cs);
      EditPromoted(Edit(cs, x).value[0], XmpChunk(x), Kept(cs), y);
    }
  }

  /** Writing to a promoted file replaces the packet after VP8X. */
  lemma EditPromoted(vp8x: Chunk, x: Chunk, rest: seq<Chunk>, y: seq<byte>)
    requires vp8x.fourcc == VP8X && |vp8x.payload| == 10 && vp8x.pad == [] && vp8x.payload[0] / 4 % 2 == 1
    requires x.fourcc == XMP && |y| < U32_LIMIT
    requires !Has(rest, XMP) && !Has(rest, VP8X) && !IsAnimated(rest)
    ensures Edit([vp8x, x] + rest, y) == Ok([vp8x, XmpChunk(y)] + rest)
  {
    var front := [vp8x, x];
    EditNothing(rest, y);
    assert WithXmpFlag(vp8x.payload) == vp8x.payload;
    EditTwo(vp8x, x, y);
    EditAppend(front, rest, y);
    HasSplits(front, rest);
    assert front[0].fourcc == VP8X;
  }

  /** The second of two writes wins, also when the first promoted a simple file. */
  lemma WriteTwice(data: seq<byte>, x: seq<byte>, y: seq<byte>)
    requires Write(data, x).Ok? && Write(data, y).Ok?
    ensures Write(Write(data, x).value, y) == Write(data, y)
  {
    WriteStages(data, x);
    WriteStages(data, y);
    WriteParsesBack(data, x);
    EditAnyTwice(Parse(data, true).value, x, y);
  }

  // ----- What a write does not keep -----

  /** What follows the header and the RIFF body. */
  function Tail(data: seq<byte>): seq<byte>
    requires IsWebp(data) && RiffEnd(data) <= |data|
  {
    data[if RiffEnd(data) <= 12 then 12 else RiffEnd(data)..]
  }

  lemma BodyWithoutTail(data: seq<byte>)
    requires IsWebp(data) && RiffEnd(data) <= |data|
    ensures var front := data[..|data| - |Tail(data)|];
            IsWebp(front) && RiffEnd(front) == RiffEnd(data) && RiffEnd(front) <= |front|
            && Body(front, RiffEnd(front)) == Body(data, RiffEnd(data))
  {
    var front := data[..|data| - |Tail(data)|];
    assert front[..4] == data[..4] && front[4..8] == data[4..8] && front[8..12] == data[8..12];
  }

  /**
   A write drops what follows the RIFF body: it gives what it gives for the file without
   it, and the header and the chunks are the whole file exactly when nothing follows.
   */
  lemma TailDropped(data: seq<byte>, xmp: seq<byte>)
    requires IsWebp(data) && RiffEnd(data) <= |data|
    ensures Write(data[..|data| - |Tail(data)|], xmp) == Write(data, xmp)
    ensures Parse(data, true).Ok? ==>
              var kept := data[..12] + PrintAll(Parse(data, true).value);
              data == kept + Tail(data) && (data == kept <==> Tail(data) == [])
  {
    BodyWithoutTail(data);
    if Parse(data, true).Ok? {
      var body := Body(data, RiffEnd(data));
      PrintOfParse(body);
      assert data == data[..12] + body + Tail(data);
    }
  }
}
