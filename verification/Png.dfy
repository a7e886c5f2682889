/**
 Splicing an XMP packet into a PNG file (chunk layout of section 3.2 of
 RFC 2083; the packet travels in an iTXt chunk). The byte walkers are proved
 against edits of the list of chunks they see.
 */
module Png {
  import opened Bytes
  import Crc32
  import opened Results
  import opened Sequences

  datatype PngError = NotPng

  type ChunkType = s: seq<byte> | |s| == 4 witness [0, 0, 0, 0]

  const SIGNATURE: seq<byte> := [0x89, 0x50, 0x4E, 0x47, 0x0D, 0x0A, 0x1A, 0x0A]

  /** XML:com.adobe.xmp */
  const XMP_KEY: seq<byte> :=
    [0x58, 0x4D, 0x4C, 0x3A, 0x63, 0x6F, 0x6D, 0x2E, 0x61, 0x64, 0x6F, 0x62, 0x65, 0x2E, 0x78, 0x6D, 0x70]

  const TEXT: ChunkType := [0x74, 0x45, 0x58, 0x74]
  const ITXT: ChunkType := [0x69, 0x54, 0x58, 0x74]
  const IEND: ChunkType := [0x49, 0x45, 0x4E, 0x44]

  // ----- The abstract file: the chunks a walker sees -----

  /** A chunk; the CRC field is carried along and not checked. */
  datatype Chunk = Chunk(kind: ChunkType, data: seq<byte>, crc: seq<byte>)

  predicate WellFormed(c: Chunk) {
    |c.data| < U32_LIMIT && |c.crc| == 4
  }

  predicate AllWellFormed(cs: seq<Chunk>) {
    forall c <- cs :: WellFormed(c)
  }

  function Print(c: Chunk): seq<byte> {
    ToBe(|c.data|, 4) + c.kind + c.data + c.crc
  }

  function PrintAll(cs: seq<Chunk>): seq<byte> {
    if cs == [] then [] else Print(cs[0]) + PrintAll(cs[1..])
  }

  /** How many bytes the chunk starting `s` takes, length field and CRC included. */
  function FirstLength(s: seq<byte>): nat
    requires |s| >= 12
  {
    12 + FromBe(s[..4])
  }

  predicate StartsChunk(s: seq<byte>) {
    |s| >= 12 && FirstLength(s) <= |s|
  }

  function FirstChunk(s: seq<byte>): Chunk
    requires StartsChunk(s)
  {
    var end := FirstLength(s) - 4;
    Chunk(s[4..8], s[8..end], s[end..end + 4])
  }

  /** The chunks before IEND, and the IEND chunk if the walk gets there. */
  datatype Walked = Walked(chunks: seq<Chunk>, end: Option<Chunk>)

  /** Every walker stops at IEND, or at the first bytes that do not make a chunk. */
  function Walk(s: seq<byte>): Walked
    decreases |s|
  {
    if !StartsChunk(s) then Walked([], None)
    else if FirstChunk(s).kind == IEND then Walked([], Some(FirstChunk(s)))
    else
      var w := Walk(s[FirstLength(s)..]);
      Walked([FirstChunk(s)] + w.chunks, w.end)
  }

  predicate IsPng(data: seq<byte>) {
    |data| >= 8 && data[..8] == SIGNATURE
  }

  /** The chunks of a whole file. */
  function WalkFile(data: seq<byte>): Walked
    requires |data| >= 8
  {
    Walk(data[8..])
  }

  // ----- Keywords and packets -----

  /** The position of the first NUL byte at or after `i`, or the end. */
  function NulFrom(s: seq<byte>, i: nat): (r: nat)
    ensures i <= r && (r <= |s| || r == i)
    decreases |s| - i
  {
    if i < |s| && s[i] != 0 then NulFrom(s, i + 1) else i
  }

  /** The bytes before the first NUL, if there is one. */
  function Keyword(s: seq<byte>): Option<seq<byte>> {
    var n := NulFrom(s, 0);
    if n < |s| then Some(s[..n]) else None
  }

  predicate IsText(c: Chunk) {
    c.kind == TEXT || c.kind == ITXT
  }

  predicate IsXmp(c: Chunk) {
    IsText(c) && Keyword(c.data) == Some(XMP_KEY)
  }

  /** Where the text of an uncompressed iTXt chunk starts: past language and translated keyword. */
  function TextStart(s: seq<byte>, n: nat): nat {
    NulFrom(s, NulFrom(s, n + 3) + 1) + 1
  }

  /** The packet a chunk carries, as `read_xmp` reads it. */
  function Packet(c: Chunk): Option<seq<byte>> {
    if !IsXmp(c) then None
    else
      var s, n := c.data, |XMP_KEY|;
      if c.kind == TEXT then Some(s[NulFrom(s, 0) + 1..])
      else if |s| > n + 3 && s[n + 1] == 0 && TextStart(s, n) <= |s| then Some(s[TextStart(s, n)..])
      else None
  }

  function FirstPacket(cs: seq<Chunk>): Option<seq<byte>> {
    if cs == [] then None
    else if Packet(cs[0]).Some? then Packet(cs[0])
    else FirstPacket(cs[1..])
  }

  function Read(data: seq<byte>): Option<seq<byte>> {
    if IsPng(data) then FirstPacket(WalkFile(data).chunks) else None
  }

  // ----- The edit -----

  /** The chunks other than XMP, in order. */
  function Others(cs: seq<Chunk>): seq<Chunk> {
    if cs == [] then [] else (if IsXmp(cs[0]) then [] else [cs[0]]) + Others(cs[1..])
  }

  /** A chunk with the CRC that section 3.2 of RFC 2083 asks for: over type and data. */
  function Sealed(kind: ChunkType, data: seq<byte>): Chunk {
    Chunk(kind, data, ToBe(Crc32.Checksum(kind + data), 4))
  }

  function XmpChunk(xmp: seq<byte>): Chunk {
    Sealed(ITXT, XMP_KEY + [0, 0, 0, 0, 0] + xmp)
  }

  function EndChunk(w: Walked): Chunk {
    match w.end
    case Some(c) => c
    case None => Sealed(IEND, [])
  }

  /** The file with these chunks, the packet, and IEND. */
  function Assemble(w: Walked, xmp: seq<byte>): seq<byte> {
    SIGNATURE + (PrintAll(Others(w.chunks)) + (Print(XmpChunk(xmp)) + Print(EndChunk(w))))
  }

  function Write(data: seq<byte>, xmp: seq<byte>): Result<seq<byte>, PngError> {
    if IsPng(data) then Ok(Assemble(WalkFile(data), xmp)) else Err(NotPng)
  }

  // ----- The walkers -----

  /** The chunk at `pos`, if its length field leaves it within the file. */
  function ChunkAt(data: seq<byte>, pos: nat): Option<Chunk>
    requires pos <= |data|
  {
    if pos + 12 > |data| then None
    else
      var end := pos + 8 + FromBe(data[pos..pos + 4]);
      if end + 4 > |data| then None
      else Some(Chunk(data[pos + 4..pos + 8], data[pos + 8..end], data[end..end + 4]))
  }

  lemma ChunkAtIsFirst(data: seq<byte>, pos: nat)
    requires pos <= |data|
    ensures var rest := data[pos..];
            match ChunkAt(data, pos)
            case None => !StartsChunk(rest)
            case Some(c) =>
              && StartsChunk(rest) && c == FirstChunk(rest)
              && FirstLength(rest) == 12 + |c.data|
              && rest[FirstLength(rest)..] == data[pos + 12 + |c.data|..]
  {
    var rest := data[pos..];
    if |rest| >= 12 {
      SliceOfTail(data, pos, 0, 4);
      var length := FirstLength(rest);
      if length <= |rest| {
        SliceOfTail(data, pos, 4, 8);
        SliceOfTail(data, pos, 8, length - 4);
        SliceOfTail(data, pos, length - 4, length);
      }
    }
  }

  /** What the walk sees from `pos` on, in terms of the chunk there. */
  lemma WalkStep(data: seq<byte>, pos: nat)
    requires pos <= |data|
    ensures match ChunkAt(data, pos)
            case None => Walk(data[pos..]) == Walked([], None)
            case Some(c) =>
              && pos + 12 + |c.data| <= |data|
              && Walk(data[pos..]) ==
                 if c.kind == IEND then Walked([], Some(c)) else Then(c, Walk(data[pos + 12 + |c.data|..]))
  {
    ChunkAtIsFirst(data, pos);
  }

  ghost function Then(c: Chunk, w: Walked): Walked {
    Walked([c] + w.chunks, w.end)
  }

  method SkipText(s: seq<byte>, start: nat) returns (i: nat)
    ensures i == NulFrom(s, start)
  {
    i := start;
    while i < |s| && s[i] != 0
      invariant NulFrom(s, i) == NulFrom(s, start)
      decreases |s| - i
    {
      i := i + 1;
    }
  }

  method ReadChunk(c: Chunk) returns (r: Option<seq<byte>>)
    ensures r == Packet(c)
  {
    var cd := c.data;
    var n := SkipText(cd, 0);
    if !IsText(c) || n == |cd| || cd[..n] != XMP_KEY {
      return None;
    }
    if c.kind == TEXT {
      return Some(cd[n + 1..]);
    }
    if |cd| > n + 3 && cd[n + 1] == 0 {
      var i := SkipText(cd, n + 3);
      i := SkipText(cd, i + 1);
      i := i + 1;
      if i <= |cd| {
        return Some(cd[i..]);
      }
    }
    return None;
  }

  method ReadXmp(data: seq<byte>) returns (r: Option<seq<byte>>)
    ensures r == Read(data)
  {
    if !IsPng(data) {
      return None;
    }
    var pos := 8;
    ghost var goal, w := Read(data), WalkFile(data);
    while pos + 12 <= |data|
      invariant pos <= |data|
      invariant w == Walk(data[pos..]) && goal == FirstPacket(w.chunks)
      decreases |data| - pos
    {
      WalkStep(data, pos);
      var next := ChunkAt(data, pos);
      if next.None? || next.value.kind == IEND {
        return None;
      }
      pos := pos + 12 + |next.value.data|;
      w := Walk(data[pos..]);
      assert ([next.value] + w.chunks)[1..] == w.chunks;
      r := ReadChunk(next.value);
      if r.Some? {
        return;
      }
    }
    WalkStep(data, pos);
    return None;
  }

  method BuildItxtChunk(xmp: seq<byte>) returns (chunk: seq<byte>)
    ensures chunk == Print(XmpChunk(xmp))
  {
    var payload := XMP_KEY;
    payload := payload + [0, 0, 0, 0, 0];
    payload := payload + xmp;
    chunk := ToBe(|payload|, 4);
    chunk := chunk + ITXT;
    chunk := chunk + payload;
    assert chunk[4..] == ITXT + payload;
    var crc := Crc32.ComputeCrc32(chunk[4..]);
    chunk := chunk + ToBe(crc, 4);
  }

  /** The loop of `write_xmp`: what precedes the new chunk, and IEND if the walk gets there. */
  method CopyOthers(data: seq<byte>) returns (out: seq<byte>, end: Option<Chunk>)
    requires IsPng(data)
    ensures Holds(out, Others(WalkFile(data).chunks))
    ensures end == WalkFile(data).end
  {
    out := SIGNATURE;
    var pos := 8;
    ghost var done, w, whole := [], WalkFile(data), WalkFile(data);
    assert out + PrintAll(done) == out;
    while pos + 12 <= |data|
      invariant pos <= |data|
      invariant Holds(out, done) && w == Walk(data[pos..])
      invariant Ahead(done, w, whole)
      decreases |data| - pos
    {
      WalkStep(data, pos);
      var next := ChunkAt(data, pos);
      if next.None? || next.value.kind == IEND {
        AheadEnd(done, w, whole);
        return out, next;
      }
      var after := pos + 12 + |next.value.data|;
      ghost var rest := Walk(data[after..]);
      AheadStep(done, next.value, w, rest, whole);
      w := rest;
      out := CopyUnlessXmp(out, done, data, pos);
      done := done + Others([next.value]);
      pos := after;
    }
    WalkStep(data, pos);
    AheadEnd(done, w, whole);
    return out, None;
  }

  /** What is done, and what is ahead, are the whole. */
  ghost predicate Ahead(done: seq<Chunk>, w: Walked, whole: Walked) {
    w.end == whole.end && done + Others(w.chunks) == Others(whole.chunks)
  }

  lemma AheadEnd(done: seq<Chunk>, w: Walked, whole: Walked)
    requires Ahead(done, w, whole) && w.chunks == []
    ensures done == Others(whole.chunks)
  {
  }

  lemma AheadStep(done: seq<Chunk>, c: Chunk, w: Walked, rest: Walked, whole: Walked)
    requires Ahead(done, w, whole) && w == Walked([c] + rest.chunks, rest.end)
    ensures Ahead(done + Others([c]), rest, whole)
  {
    OthersFront(done, c, rest.chunks);
  }

  /** One turn of the loop. */
  method CopyUnlessXmp(out: seq<byte>, ghost done: seq<Chunk>, data: seq<byte>, pos: nat) returns (r: seq<byte>)
    requires Holds(out, done) && pos <= |data| && ChunkAt(data, pos).Some?
    ensures Holds(r, done + Others([ChunkAt(data, pos).value]))
  {
    var c := ChunkAt(data, pos).value;
    assert [c][1..] == [];
    if IsXmp(c) {
      assert done + [] == done;
      return out;
    }
    RawBytes(data, pos);
    HoldsMore(out, done, c);
    assert [c] + [] == [c];
    return out + data[pos..pos + 12 + |c.data|];
  }

  /** The buffer being grown: the signature and the chunks copied so far. */
  ghost predicate Holds(out: seq<byte>, cs: seq<Chunk>) {
    out == SIGNATURE + PrintAll(cs)
  }

  method WriteXmp(data: seq<byte>, xmp: seq<byte>) returns (r: Result<seq<byte>, PngError>)
    ensures r == Write(data, xmp)
  {
    if !IsPng(data) {
      return Err(NotPng);
    }
    var newChunk := BuildItxtChunk(xmp);
    var out, end := CopyOthers(data);
    out := out + newChunk;
    if end.Some? {
      out := out + Print(end.value);
    } else {
      var crc := Crc32.ComputeCrc32(IEND + []);
      out := out + (ToBe(0, 4) + IEND + ToBe(crc, 4));
      assert ToBe(0, 4) + IEND + ToBe(crc, 4) == Print(Sealed(IEND, []));
    }
    FourInOrder(SIGNATURE, PrintAll(Others(WalkFile(data).chunks)), newChunk, Print(EndChunk(WalkFile(data))));
    return Ok(out);
  }

  lemma OthersFront(done: seq<Chunk>, c: Chunk, rest: seq<Chunk>)
    ensures done + Others([c] + rest) == done + Others([c]) + Others(rest)
  {
    assert ([c] + rest)[1..] == rest && [c][1..] == [];
    assert [c] + [] == [c];
  }

  lemma RawBytes(data: seq<byte>, pos: nat)
    requires pos <= |data| && ChunkAt(data, pos).Some?
    ensures var c := ChunkAt(data, pos).value;
            && WellFormed(c) && pos + 12 + |c.data| <= |data|
            && data[pos..pos + 12 + |c.data|] == Print(c)
  {
    Capacities();
    BeRoundTripBytes(data[pos..pos + 4]);
    var c := ChunkAt(data, pos).value;
    assert data[pos..pos + 4] == ToBe(|c.data|, 4);
  }

  lemma {:induction false} PrintAppend(a: seq<Chunk>, b: seq<Chunk>)
    ensures PrintAll(a + b) == PrintAll(a) + PrintAll(b)
  {
    if a == [] {
      assert a + b == b;
    } else {
      PrintAppend(a[1..], b);
      assert (a + b)[1..] == a[1..] + b && (a + b)[0] == a[0];
      Associative(Print(a[0]), PrintAll(a[1..]), PrintAll(b));
    }
  }

  lemma HoldsMore(out: seq<byte>, cs: seq<Chunk>, c: Chunk)
    requires Holds(out, cs)
    ensures Holds(out + Print(c), cs + [c])
  {
    PrintAppend(cs, [c]);
    assert [c][1..] == [] && PrintAll([c]) == Print(c) + [];
    Associative(SIGNATURE, PrintAll(cs), Print(c));
  }
}
