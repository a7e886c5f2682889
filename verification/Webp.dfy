/**
 Splicing an XMP packet into a WebP file (RIFF container, sections 2.3 to 2.7
 of RFC 9649). Files are byte sequences; the byte walkers are proved against
 edits of the file's list of chunks.
 */
module Webp {
  import opened Bytes
  import opened Results
  import opened Sequences

  datatype WebpError = InvalidWebp | Animated | TooLarge

  type FourCc = s: seq<byte> | |s| == 4 witness [0, 0, 0, 0]

  const RIFF: FourCc := [0x52, 0x49, 0x46, 0x46]
  const WEBP: FourCc := [0x57, 0x45, 0x42, 0x50]
  const VP8X: FourCc := [0x56, 0x50, 0x38, 0x58]
  const VP8: FourCc := [0x56, 0x50, 0x38, 0x20]
  const VP8L: FourCc := [0x56, 0x50, 0x38, 0x4C]
  const ALPH: FourCc := [0x41, 0x4C, 0x50, 0x48]
  const ANIM: FourCc := [0x41, 0x4E, 0x49, 0x4D]
  const ANMF: FourCc := [0x41, 0x4E, 0x4D, 0x46]
  const XMP: FourCc := [0x58, 0x4D, 0x50, 0x20]

  // ----- The abstract file: a list of chunks -----

  /** A chunk with its pad byte, which is copied but never interpreted. */
  datatype Chunk = Chunk(fourcc: FourCc, payload: seq<byte>, pad: seq<byte>)

  predicate WellFormed(c: Chunk) {
    |c.payload| < U32_LIMIT && |c.pad| == |c.payload| % 2
  }

  predicate AllWellFormed(cs: seq<Chunk>) {
    forall c <- cs :: WellFormed(c)
  }

  function Print(c: Chunk): seq<byte> {
    c.fourcc + ToLe(|c.payload|, 4) + c.payload + c.pad
  }

  function PrintAll(cs: seq<Chunk>): seq<byte> {
    if cs == [] then [] else Print(cs[0]) + PrintAll(cs[1..])
  }

  /** How many bytes the chunk starting `s` takes, pad included. */
  function FirstLength(s: seq<byte>): nat
    requires |s| >= 8
  {
    var size := FromLe(s[4..8]);
    8 + size + size % 2
  }

  function FirstChunk(s: seq<byte>): Chunk
    requires |s| >= 8 && FirstLength(s) <= |s|
  {
    var size := FromLe(s[4..8]);
    Chunk(s[..4], s[8..8 + size], s[8 + size..FirstLength(s)])
  }

  function ParseBody(s: seq<byte>): Option<seq<Chunk>> {
    if s == [] then Some([])
    else if |s| < 8 || FirstLength(s) > |s| then None
    else Prepend([FirstChunk(s)], ParseBody(s[FirstLength(s)..]))
  }

  function Prepend(front: seq<Chunk>, rest: Option<seq<Chunk>>): Option<seq<Chunk>> {
    match rest
    case None => None
    case Some(cs) => Some(front + cs)
  }

  lemma {:induction false} ParseOfPrint(cs: seq<Chunk>)
    requires AllWellFormed(cs)
    ensures ParseBody(PrintAll(cs)) == Some(cs)
  {
    if cs != [] {
      PrintParts(cs[0], PrintAll(cs[1..]));
      ParseOfPrint(cs[1..]);
      assert cs == [cs[0]] + cs[1..];
    }
  }

  /** Where the parts of the first printed chunk lie. */
  lemma PrintParts(c: Chunk, tail: seq<byte>)
    requires WellFormed(c)
    ensures var s, size := Print(c) + tail, |c.payload|;
            var next := 8 + size + size % 2;
            && |s| >= next
            && s[..4] == c.fourcc && s[4..8] == ToLe(size, 4) && FromLe(s[4..8]) == size
            && s[8..8 + size] == c.payload && s[8 + size..next] == c.pad && s[next..] == tail
  {
    Capacities();
    LeRoundTrip(|c.payload|, 4);
    var s := Print(c) + tail;
    assert s[4..8] == ToLe(|c.payload|, 4);
  }

  lemma PrintOfFirst(s: seq<byte>)
    requires |s| >= 8 && FirstLength(s) <= |s|
    ensures WellFormed(FirstChunk(s)) && Print(FirstChunk(s)) == s[..FirstLength(s)]
  {
    LeRoundTripBytes(s[4..8]);
    Capacities();
  }

  lemma {:induction false} PrintOfParse(s: seq<byte>)
    requires ParseBody(s).Some?
    ensures AllWellFormed(ParseBody(s).value)
    ensures PrintAll(ParseBody(s).value) == s
    decreases |s|
  {
    if s != [] {
      var rest := s[FirstLength(s)..];
      PrintOfFirst(s);
      PrintOfParse(rest);
      assert ParseBody(s).value[1..] == ParseBody(rest).value;
    }
  }

  lemma {:induction false} PrintAllEven(cs: seq<Chunk>)
    requires AllWellFormed(cs)
    ensures |PrintAll(cs)| % 2 == 0
  {
    if cs != [] {
      PrintAllEven(cs[1..]);
      assert WellFormed(cs[0]) && |Print(cs[0])| % 2 == 0;
    }
  }

  // ----- Reading the container -----

  predicate IsWebp(data: seq<byte>) {
    |data| >= 12 && data[..4] == RIFF && data[8..12] == WEBP
  }

  function RiffEnd(data: seq<byte>): nat
    requires IsWebp(data)
  {
    FromLe(data[4..8]) + 8
  }

  /** The bytes after the 12-byte header, up to `end`. */
  function Body(data: seq<byte>, end: nat): seq<byte>
    requires end <= |data|
  {
    if end <= 12 then [] else data[12..end]
  }

  /** The chunks of a file; writers insist that the RIFF size fits the file, readers do not. */
  function Parse(data: seq<byte>, validateRiffSize: bool): Result<seq<Chunk>, WebpError> {
    if !IsWebp(data) || (validateRiffSize && RiffEnd(data) > |data|) then Err(InvalidWebp)
    else
      match ParseBody(Body(data, if validateRiffSize then RiffEnd(data) else |data|))
      case None => Err(InvalidWebp)
      case Some(cs) => Ok(cs)
  }

  /** A chunk as the walker records it: the byte range of its payload within the file. */
  datatype Span = Span(fourcc: FourCc, start: nat, end: nat)

  predicate SpanWithin(data: seq<byte>, w: Span) {
    && 8 <= w.start <= w.end
    && RawEnd(w) <= |data|
    && w.fourcc == data[w.start - 8..w.start - 4]
    && FromLe(data[w.start - 4..w.start]) == w.end - w.start
  }

  function ChunkAt(data: seq<byte>, w: Span): Chunk
    requires SpanWithin(data, w)
  {
    Chunk(w.fourcc, data[w.start..w.end], data[w.end..RawEnd(w)])
  }

  predicate SpansWithin(data: seq<byte>, spans: seq<Span>) {
    forall i :: 0 <= i < |spans| ==> SpanWithin(data, spans[i])
  }

  function ChunksAt(data: seq<byte>, spans: seq<Span>): (cs: seq<Chunk>)
    requires SpansWithin(data, spans)
  {
    seq(|spans|, i requires 0 <= i < |spans| => ChunkAt(data, spans[i]))
  }

  method ParseChunks(data: seq<byte>, validateRiffSize: bool) returns (r: Result<seq<Span>, WebpError>)
    ensures r.Ok? ==> SpansWithin(data, r.value)
    ensures r.Ok? ==> Parse(data, validateRiffSize) == Ok(ChunksAt(data, r.value))
    ensures r.Err? ==> Parse(data, validateRiffSize) == Err(r.error)
  {
    if !IsWebp(data) {
      return Err(InvalidWebp);
    }
    var riffEnd := RiffEnd(data);
    if validateRiffSize && riffEnd > |data| {
      return Err(InvalidWebp);
    }
    r := WalkChunks(data, if validateRiffSize then riffEnd else |data|);
  }

  /** The loop of `parse_chunks`. */
  method WalkChunks(data: seq<byte>, end: nat) returns (r: Result<seq<Span>, WebpError>)
    requires end <= |data|
    ensures r.Ok? ==> SpansWithin(data, r.value) && ParseBody(Body(data, end)) == Some(ChunksAt(data, r.value))
    ensures r.Err? ==> ParseBody(Body(data, end)) == None && r.error == InvalidWebp
  {
    var pos := 12;
    var spans: seq<Span> := [];
    ghost var seen, goal := [], ParseBody(Body(data, end));
    assert goal.Some? ==> seen + goal.value == goal.value;
    while pos < end
      invariant 12 <= pos && (pos <= end || pos == 12)
      invariant SpansWithin(data, spans) && ChunksAt(data, spans) == seen
      invariant goal == Prepend(seen, ParseBody(Rest(data, pos, end)))
      decreases end - pos
    {
      var next := SpanAt(data, pos, end);
      SpanAtIsFirst(data, pos, end);
      if next.None? {
        return Err(InvalidWebp);
      }
      ParseOneMore(seen, Rest(data, pos, end));
      seen := seen + [ChunkAt(data, next.value)];
      spans := spans + [next.value];
      pos := RawEnd(next.value);
    }
    assert seen + [] == seen;
    return Ok(spans);
  }

  /** The chunk at `pos`, if its header and padded payload end by `end`. */
  function SpanAt(data: seq<byte>, pos: nat, end: nat): (r: Option<Span>)
    requires pos <= end <= |data|
  {
    if pos + 8 > end then None
    else
      var size := FromLe(data[pos + 4..pos + 8]);
      if pos + 8 + size + size % 2 > end then None
      else Some(Span(data[pos..pos + 4], pos + 8, pos + 8 + size))
  }

  /** The end of the chunk, pad byte included. */
  function RawEnd(w: Span): nat
    requires w.start <= w.end
  {
    w.end + (w.end - w.start) % 2
  }

  /** What the walker has not reached yet. */
  ghost function Rest(data: seq<byte>, pos: nat, end: nat): seq<byte>
    requires end <= |data|
  {
    if pos < end then data[pos..end] else []
  }

  /** The walker finds a chunk at `pos` exactly when what is left starts with one. */
  lemma SpanAtIsFirst(data: seq<byte>, pos: nat, end: nat)
    requires pos < end <= |data|
    ensures var rest := Rest(data, pos, end);
            match SpanAt(data, pos, end)
            case None => |rest| < 8 || FirstLength(rest) > |rest|
            case Some(w) =>
              && |rest| >= 8 && FirstLength(rest) <= |rest|
              && SpanWithin(data, w) && pos < RawEnd(w) <= end
              && ChunkAt(data, w) == FirstChunk(rest)
              && rest[FirstLength(rest)..] == Rest(data, RawEnd(w), end)
  {
    var rest := Rest(data, pos, end);
    if |rest| >= 8 {
      SliceOfSlice(data, pos, end, 4, 8);
      var size, length := FromLe(rest[4..8]), FirstLength(rest);
      if length <= |rest| {
        SliceOfSlice(data, pos, end, 0, 4);
        SliceOfSlice(data, pos, end, 8, 8 + size);
        SliceOfSlice(data, pos, end, 8 + size, length);
        SliceOfSlice(data, pos, end, length, end - pos);
      }
    }
  }

  lemma ParseOneMore(front: seq<Chunk>, rest: seq<byte>)
    requires |rest| >= 8 && FirstLength(rest) <= |rest|
    ensures Prepend(front, ParseBody(rest))
         == Prepend(front + [FirstChunk(rest)], ParseBody(rest[FirstLength(rest)..]))
  {
    match ParseBody(rest[FirstLength(rest)..])
    case None =>
    case Some(cs) => assert front + ([FirstChunk(rest)] + cs) == front + [FirstChunk(rest)] + cs;
  }

  predicate Has(cs: seq<Chunk>, fourcc: FourCc) {
    exists i :: 0 <= i < |cs| && cs[i].fourcc == fourcc
  }

  /** The payload of the first chunk with this FourCC. */
  function First(cs: seq<Chunk>, fourcc: FourCc): Option<seq<byte>> {
    if cs == [] then None
    else if cs[0].fourcc == fourcc then Some(cs[0].payload)
    else First(cs[1..], fourcc)
  }

  predicate IsAnimated(cs: seq<Chunk>) {
    Has(cs, ANIM) || Has(cs, ANMF)
  }

  function Read(data: seq<byte>): Option<seq<byte>> {
    match Parse(data, false)
    case Err(_) => None
    case Ok(cs) => First(cs, XMP)
  }

  method ReadXmp(data: seq<byte>) returns (r: Option<seq<byte>>)
    ensures r == Read(data)
  {
    var parsed := ParseChunks(data, false);
    if parsed.Err? {
      return None;
    }
    var spans := parsed.value;
    ghost var all := ChunksAt(data, spans);
    for i := 0 to |spans|
      invariant First(all, XMP) == First(all[i..], XMP)
    {
      assert all[i..][1..] == all[i + 1..];
      assert SpanWithin(data, spans[i]);
      if spans[i].fourcc == XMP {
        return Some(data[spans[i].start..spans[i].end]);
      }
    }
    return None;
  }

  // ----- Dimensions of the bitstream -----

  datatype Dimensions = Dimensions(width: nat, height: nat, alpha: bool)

  function Vp8Dims(payload: seq<byte>): Result<Dimensions, WebpError> {
    if |payload| < 10 || payload[3..6] != [0x9D, 0x01, 0x2A] then Err(InvalidWebp)
    else Ok(Dimensions(FromLe(payload[6..8]) % 0x4000, FromLe(payload[8..10]) % 0x4000, false))
  }

  function Vp8lDims(payload: seq<byte>): Result<Dimensions, WebpError> {
    if |payload| < 5 || payload[0] != 0x2F then Err(InvalidWebp)
    else
      var bits := FromLe(payload[1..5]);
      Ok(Dimensions(1 + bits % 0x4000, 1 + bits / 0x4000 % 0x4000, bits / 0x1000_0000 % 2 == 1))
  }

  function MinusOne24(n: nat): nat {
    (if n == 0 then 0 else n - 1) % 0x100_0000
  }

  function Vp8xPayload(d: Dimensions): (payload: seq<byte>)
    ensures |payload| == 10
  {
    [if d.alpha then 0x14 else 0x04, 0, 0, 0] + ToLe(MinusOne24(d.width), 3) + ToLe(MinusOne24(d.height), 3)
  }

  method BuildVp8xPayload(d: Dimensions) returns (payload: seq<byte>)
    ensures payload == Vp8xPayload(d)
  {
    var buffer := new byte[10](_ => 0);
    buffer[0] := if d.alpha then 0x14 else 0x04;
    var w, h := MinusOne24(d.width), MinusOne24(d.height);
    buffer[4], buffer[5], buffer[6] := w % 0x100, w / 0x100 % 0x100, w / 0x1_0000 % 0x100;
    buffer[7], buffer[8], buffer[9] := h % 0x100, h / 0x100 % 0x100, h / 0x1_0000 % 0x100;
    ThreeBytes(w);
    ThreeBytes(h);
    payload := buffer[..];
  }

  lemma ThreeBytes(n: nat)
    ensures ToLe(n, 3) == [n % 0x100, n / 0x100 % 0x100, n / 0x1_0000 % 0x100]
  {
    assert ToLe(n / 0x1_0000, 1) == [n / 0x1_0000 % 0x100];
    assert ToLe(n / 0x100, 2) == [n / 0x100 % 0x100] + ToLe(n / 0x1_0000, 1);
  }

  /** The canvas a VP8X payload declares, per section 2.7 of RFC 9649. */
  function Canvas(vp8x: seq<byte>): (nat, nat)
    requires |vp8x| == 10
  {
    (1 + FromLe(vp8x[4..7]), 1 + FromLe(vp8x[7..10]))
  }

  // ----- The edit, on the list of chunks -----

  function XmpChunk(xmp: seq<byte>): Chunk {
    Chunk(XMP, xmp, if |xmp| % 2 == 1 then [0] else [])
  }

  function SetXmpFlag(flags: byte): byte {
    if flags / 4 % 2 == 1 then flags else flags + 4
  }

  /** The chunks other than XMP, in order. */
  function Kept(cs: seq<Chunk>): seq<Chunk> {
    if cs == [] then [] else (if cs[0].fourcc == XMP then [] else [cs[0]]) + Kept(cs[1..])
  }

  /** A VP8X payload, announcing an XMP chunk. */
  function WithXmpFlag(vp8x: seq<byte>): seq<byte> {
    if vp8x == [] then [] else vp8x[0 := SetXmpFlag(vp8x[0])]
  }

  /** What one chunk of an extended file becomes. */
  function EditChunk(c: Chunk, xmp: seq<byte>): Result<seq<Chunk>, WebpError> {
    if c.fourcc == XMP then Ok([])
    else if c.fourcc != VP8X then Ok([c])
    else if |c.payload| != 10 then Err(InvalidWebp)
    else if |xmp| >= U32_LIMIT then Err(TooLarge)
    else Ok([Chunk(VP8X, WithXmpFlag(c.payload), []), XmpChunk(xmp)])
  }

  /** All chunks edited, or the first error met. */
  function EditExtended(cs: seq<Chunk>, xmp: seq<byte>): Result<seq<Chunk>, WebpError> {
    if cs == [] then Ok([])
    else
      match EditChunk(cs[0], xmp)
      case Err(e) => Err(e)
      case Ok(edited) => Extend(edited, EditExtended(cs[1..], xmp))
  }

  function Extend(front: seq<Chunk>, rest: Result<seq<Chunk>, WebpError>): Result<seq<Chunk>, WebpError> {
    match rest
    case Err(e) => Err(e)
    case Ok(cs) => Ok(front + cs)
  }

  /** The dimensions a simple file is promoted with. */
  function SimpleDims(cs: seq<Chunk>): Result<Dimensions, WebpError> {
    var dims :=
      match (First(cs, VP8), First(cs, VP8L))
      case (Some(p), None) => Vp8Dims(p)
      case (None, Some(p)) => Vp8lDims(p)
      case _ => Err(InvalidWebp);
    match dims
    case Err(e) => Err(e)
    case Ok(d) => Ok(d.(alpha := d.alpha || Has(cs, ALPH)))
  }

  function Promote(cs: seq<Chunk>, xmp: seq<byte>): Result<seq<Chunk>, WebpError> {
    match SimpleDims(cs)
    case Err(e) => Err(e)
    case Ok(d) =>
      if |xmp| >= U32_LIMIT then Err(TooLarge)
      else Ok([Chunk(VP8X, Vp8xPayload(d), []), XmpChunk(xmp)] + Kept(cs))
  }

  function Edit(cs: seq<Chunk>, xmp: seq<byte>): Result<seq<Chunk>, WebpError> {
    if IsAnimated(cs) then Err(Animated)
    else if Has(cs, VP8X) then EditExtended(cs, xmp)
    else Promote(cs, xmp)
  }

  /** The file with these chunks. */
  function Assemble(cs: seq<Chunk>): Result<seq<byte>, WebpError> {
    var body := PrintAll(cs);
    if |body| + 4 >= U32_LIMIT then Err(TooLarge)
    else Ok(RIFF + ToLe(|body| + 4, 4) + WEBP + body)
  }

  function Write(data: seq<byte>, xmp: seq<byte>): Result<seq<byte>, WebpError> {
    match Parse(data, true)
    case Err(e) => Err(e)
    case Ok(cs) =>
      match Edit(cs, xmp)
      case Err(e) => Err(e)
      case Ok(edited) => Assemble(edited)
  }

  // ----- The writer -----

  /** The header with the RIFF size still to be patched in. */
  const BLANK_HEADER: seq<byte> := RIFF + [0, 0, 0, 0] + WEBP

  method PushChunk(out: seq<byte>, fourcc: FourCc, payload: seq<byte>) returns (r: Result<seq<byte>, WebpError>)
    ensures r.Err? <==> |payload| >= U32_LIMIT
    ensures r.Err? ==> r.error == TooLarge
    ensures r.Ok? ==> r.value == out + Print(Chunk(fourcc, payload, if |payload| % 2 == 1 then [0] else []))
  {
    if |payload| >= U32_LIMIT {
      return Err(TooLarge);
    }
    var s := out + fourcc;
    s := s + ToLe(|payload|, 4);
    s := s + payload;
    if |payload| % 2 == 1 {
      s := s + [0];
    }
    assert s == out + Print(Chunk(fourcc, payload, if |payload| % 2 == 1 then [0] else []));
    return Ok(s);
  }

  method FinishRiff(out: seq<byte>, ghost cs: seq<Chunk>) returns (r: Result<seq<byte>, WebpError>)
    requires out == BLANK_HEADER + PrintAll(cs)
    ensures r == Assemble(cs)
  {
    if |out| - 8 >= U32_LIMIT {
      return Err(TooLarge);
    }
    var size := ToLe(|out| - 8, 4);
    var patched := out[4 := size[0]][5 := size[1]][6 := size[2]][7 := size[3]];
    assert patched == RIFF + size + WEBP + PrintAll(cs);
    return Ok(patched);
  }

  method WriteXmp(data: seq<byte>, xmp: seq<byte>) returns (r: Result<seq<byte>, WebpError>)
    ensures r == Write(data, xmp)
  {
    var parsed := ParseChunks(data, true);
    if parsed.Err? {
      return Err(parsed.error);
    }
    var spans := parsed.value;
    var cs := ChunksAt(data, spans);
    if IsAnimated(cs) {
      return Err(Animated);
    }
    if Has(cs, VP8X) {
      r := WriteExtended(data, spans, xmp);
    } else {
      r := WritePromoted(data, spans, xmp);
    }
  }

  /** The branch of `write_xmp` for files without a VP8X chunk. */
  method WritePromoted(data: seq<byte>, spans: seq<Span>, xmp: seq<byte>) returns (r: Result<seq<byte>, WebpError>)
    requires SpansWithin(data, spans)
    ensures match Promote(ChunksAt(data, spans), xmp)
            case Err(e) => r == Err(e)
            case Ok(edited) => r == Assemble(edited)
  {
    var cs := ChunksAt(data, spans);
    var dims := SimpleDims(cs);
    if dims.Err? {
      return Err(dims.error);
    }
    var payload := BuildVp8xPayload(dims.value);
    var pushed := PushChunk(BLANK_HEADER, VP8X, payload);
    pushed := PushChunk(pushed.value, XMP, xmp);
    if pushed.Err? {
      return Err(TooLarge);
    }
    var out := pushed.value;
    ghost var done := [Chunk(VP8X, payload, []), XmpChunk(xmp)];
    ghost var promoted := done + Kept(cs);
    TwoHold(done[0], done[1]);
    for i := 0 to |spans|
      invariant Holds(out, done)
      invariant done + Kept(cs[i..]) == promoted
    {
      KeptFront(done, cs, i);
      if spans[i].fourcc == XMP {
        continue;
      }
      RawBytes(data, spans[i]);
      HoldsMore(out, done, cs[i]);
      out := out + data[spans[i].start - 8..RawEnd(spans[i])];
      done := done + [cs[i]];
    }
    assert done == promoted by {
      assert cs[|spans|..] == [] && done + [] == done;
    }
    r := FinishRiff(out, done);
  }

  /** The branch of `write_xmp` for files with a VP8X chunk. */
  method WriteExtended(data: seq<byte>, spans: seq<Span>, xmp: seq<byte>) returns (r: Result<seq<byte>, WebpError>)
    requires SpansWithin(data, spans) && Has(ChunksAt(data, spans), VP8X)
    ensures match EditExtended(ChunksAt(data, spans), xmp)
            case Err(e) => r == Err(e)
            case Ok(edited) => r == Assemble(edited)
  {
    var pushed, inserted := PushAllEdited(data, spans, xmp);
    if pushed.Err? {
      return Err(pushed.error);
    }
    if !inserted {
      return Err(InvalidWebp);
    }
    r := FinishRiff(pushed.value, EditExtended(ChunksAt(data, spans), xmp).value);
  }

  /** The loop of that branch. */
  method PushAllEdited(data: seq<byte>, spans: seq<Span>, xmp: seq<byte>)
      returns (r: Result<seq<byte>, WebpError>, inserted: bool)
    requires SpansWithin(data, spans)
    ensures match EditExtended(ChunksAt(data, spans), xmp)
            case Err(e) => r == Err(e)
            case Ok(edited) => r.Ok? && Holds(r.value, edited)
    ensures r.Ok? && Has(ChunksAt(data, spans), VP8X) ==> inserted
  {
    ghost var cs := ChunksAt(data, spans);
    var out := BLANK_HEADER;
    inserted := false;
    ghost var done, goal := [], EditExtended(cs, xmp);
    ExtendNothing(goal);
    for i := 0 to |spans|
      invariant Holds(out, done)
      invariant goal == Extend(done, EditExtended(cs[i..], xmp))
      invariant Has(cs, VP8X) ==> inserted || Has(cs[i..], VP8X)
    {
      EditFront(done, cs, i, xmp);
      var pushed := PushEdited(out, done, data, spans[i], xmp);
      if pushed.Err? {
        return Err(pushed.error), inserted;
      }
      out := pushed.value;
      if spans[i].fourcc == VP8X {
        inserted := true;
      }
      done := done + EditChunk(cs[i], xmp).value;
    }
    assert goal == Ok(done) by {
      assert cs[|spans|..] == [] && done + [] == done;
    }
    r := Ok(out);
  }

  /** One turn of the loop: the buffer grows by what the chunk becomes. */
  method PushEdited(out: seq<byte>, ghost done: seq<Chunk>, data: seq<byte>, w: Span, xmp: seq<byte>)
      returns (r: Result<seq<byte>, WebpError>)
    requires SpanWithin(data, w) && Holds(out, done)
    ensures match EditChunk(ChunkAt(data, w), xmp)
            case Err(e) => r == Err(e)
            case Ok(edited) => r.Ok? && Holds(r.value, done + edited)
  {
    if w.fourcc == XMP {
      assert done + [] == done;
      return Ok(out);
    }
    if w.fourcc == VP8X {
      var payload := data[w.start..w.end];
      if |payload| != 10 {
        return Err(InvalidWebp);
      }
      r := PushTwo(out, done, payload, xmp);
    } else {
      RawBytes(data, w);
      HoldsMore(out, done, ChunkAt(data, w));
      return Ok(out + data[w.start - 8..RawEnd(w)]);
    }
  }

  /** The VP8X chunk with its flag set, followed by the new XMP chunk. */
  method PushTwo(out: seq<byte>, ghost done: seq<Chunk>, vp8x: seq<byte>, xmp: seq<byte>)
      returns (r: Result<seq<byte>, WebpError>)
    requires Holds(out, done) && |vp8x| == 10
    ensures r.Err? <==> |xmp| >= U32_LIMIT
    ensures r.Err? ==> r.error == TooLarge
    ensures r.Ok? ==> Holds(r.value, done + [Chunk(VP8X, WithXmpFlag(vp8x), []), XmpChunk(xmp)])
  {
    ghost var a := Chunk(VP8X, WithXmpFlag(vp8x), []);
    r := PushChunk(out, VP8X, WithXmpFlag(vp8x));
    HoldsMore(out, done, a);
    HoldsMore(r.value, done + [a], XmpChunk(xmp));
    assert done + [a] + [XmpChunk(xmp)] == done + [a, XmpChunk(xmp)];
    r := PushChunk(r.value, XMP, xmp);
  }

  /** The buffer being grown: the header and the chunks written so far. */
  ghost predicate Holds(out: seq<byte>, cs: seq<Chunk>) {
    out == BLANK_HEADER + PrintAll(cs)
  }

  lemma HoldsMore(out: seq<byte>, cs: seq<Chunk>, c: Chunk)
    requires Holds(out, cs)
    ensures Holds(out + Print(c), cs + [c])
  {
    PrintSnoc(cs, c);
    assert BLANK_HEADER + PrintAll(cs) + Print(c) == BLANK_HEADER + (PrintAll(cs) + Print(c));
  }

  lemma TwoHold(a: Chunk, b: Chunk)
    ensures Holds(BLANK_HEADER + Print(a) + Print(b), [a, b])
  {
    HoldsMore(BLANK_HEADER, [], a);
    assert [] + [a] == [a] && [a] + [b] == [a, b];
    HoldsMore(BLANK_HEADER + Print(a), [a], b);
  }

  lemma ExtendNothing(r: Result<seq<Chunk>, WebpError>)
    ensures Extend([], r) == r
  {
    if r.Ok? {
      assert [] + r.value == r.value;
    }
  }

  lemma EditFront(done: seq<Chunk>, cs: seq<Chunk>, i: nat, xmp: seq<byte>)
    requires i < |cs|
    ensures match EditChunk(cs[i], xmp)
            case Err(e) => Extend(done, EditExtended(cs[i..], xmp)) == Err(e)
            case Ok(edited) =>
              Extend(done, EditExtended(cs[i..], xmp)) == Extend(done + edited, EditExtended(cs[i + 1..], xmp))
    ensures Has(cs[i..], VP8X) ==> cs[i].fourcc == VP8X || Has(cs[i + 1..], VP8X)
  {
    assert cs[i..][1..] == cs[i + 1..];
    match EditChunk(cs[i], xmp)
    case Err(_) =>
    case Ok(edited) =>
      match EditExtended(cs[i + 1..], xmp)
      case Err(_) =>
      case Ok(rest) => assert done + (edited + rest) == done + edited + rest;
  }

  lemma KeptFront(done: seq<Chunk>, cs: seq<Chunk>, i: nat)
    requires i < |cs|
    ensures cs[i].fourcc == XMP ==> done + Kept(cs[i..]) == done + Kept(cs[i + 1..])
    ensures cs[i].fourcc != XMP ==> done + Kept(cs[i..]) == done + [cs[i]] + Kept(cs[i + 1..])
  {
    assert cs[i..][1..] == cs[i + 1..];
  }

  lemma {:induction false} PrintAppend(a: seq<Chunk>, b: seq<Chunk>)
    ensures PrintAll(a + b) == PrintAll(a) + PrintAll(b)
  {
    if a == [] {
      assert a + b == b;
    } else {
      PrintAppend(a[1..], b);
      assert (a + b)[1..] == a[1..] + b && (a + b)[0] == a[0];
      Associative(Print(a[0]), PrintAll(a[1..]), PrintAll(b));
    }
  }

  lemma RawBytes(data: seq<byte>, w: Span)
    requires SpanWithin(data, w)
    ensures data[w.start - 8..RawEnd(w)] == Print(ChunkAt(data, w))
  {
    LeRoundTripBytes(data[w.start - 4..w.start]);
    assert ToLe(w.end - w.start, 4) == data[w.start - 4..w.start];
    FourSlices(data, w.start - 8, w.start - 4, w.start, w.end, RawEnd(w));
  }

  lemma FourSlices(s: seq<byte>, a: nat, b: nat, c: nat, d: nat, e: nat)
    requires a <= b <= c <= d <= e <= |s|
    ensures s[a..e] == s[a..b] + s[b..c] + s[c..d] + s[d..e]
  {
    assert s[a..c] == s[a..b] + s[b..c];
    assert s[a..d] == s[a..c] + s[c..d];
    assert s[a..e] == s[a..d] + s[d..e];
  }

  lemma PrintSnoc(cs: seq<Chunk>, c: Chunk)
    ensures PrintAll(cs + [c]) == PrintAll(cs) + Print(c)
  {
    PrintAppend(cs, [c]);
    assert [c][1..] == [] && PrintAll([c]) == Print(c) + [];
  }
}
