/**
 The metadata extractor: an independent reader of the text chunks of a PNG
 file. Decoding bytes to text is the caller's: `utf8` may refuse, `lossy` not.
 */
module PngText {
  import opened Bytes
  import opened Png
  import opened Results

  datatype Decoder = Decoder(utf8: seq<byte> -> Option<string>, lossy: seq<byte> -> string)

  datatype TextChunks = TextChunks(entries: map<string, string>, compressed: seq<string>)

  function ParseText(dec: Decoder, data: seq<byte>): Option<(string, string)> {
    var sep := NulFrom(data, 0);
    if sep >= |data| then None
    else
      match dec.utf8(data[..sep])
      case None => None
      case Some(keyword) => Some((keyword, dec.lossy(data[sep + 1..])))
  }

  /** The keyword of an iTXt chunk, and its text unless that is compressed. */
  function ParseItxt(dec: Decoder, data: seq<byte>): Option<(string, Option<string>)> {
    var sep := NulFrom(data, 0);
    if sep >= |data| then None
    else
      match dec.utf8(data[..sep])
      case None => None
      case Some(keyword) =>
        if |data| < sep + 3 || TextStart(data, sep) > |data| then None
        else if data[sep + 1] != 0 then Some((keyword, None))
        else Some((keyword, Some(dec.lossy(data[TextStart(data, sep)..]))))
  }

  /** What one chunk adds; a later entry replaces an earlier one. */
  function Add(dec: Decoder, acc: TextChunks, c: Chunk): TextChunks {
    if c.kind == TEXT then
      match ParseText(dec, c.data)
      case None => acc
      case Some((k, v)) => acc.(entries := acc.entries[k := v])
    else if c.kind == ITXT then
      match ParseItxt(dec, c.data)
      case None => acc
      case Some((k, None)) => acc.(compressed := acc.compressed + [k])
      case Some((k, Some(v))) => acc.(entries := acc.entries[k := v])
    else acc
  }

  function Collect(dec: Decoder, acc: TextChunks, cs: seq<Chunk>): TextChunks
    decreases |cs|
  {
    if cs == [] then acc else Collect(dec, Add(dec, acc, cs[0]), cs[1..])
  }

  const NOTHING := TextChunks(map[], [])

  function Extract(dec: Decoder, data: seq<byte>): TextChunks {
    if IsPng(data) then Collect(dec, NOTHING, WalkFile(data).chunks) else NOTHING
  }

  method ParsePngTextChunks(dec: Decoder, data: seq<byte>) returns (result: TextChunks)
    ensures result == Extract(dec, data)
  {
    result := NOTHING;
    if !IsPng(data) {
      return;
    }
    var pos := 8;
    ghost var w := WalkFile(data);
    while pos + 12 <= |data|
      invariant pos <= |data| && w == Walk(data[pos..])
      invariant Collect(dec, result, w.chunks) == Extract(dec, data)
      decreases |data| - pos
    {
      WalkStep(data, pos);
      var next := ChunkAt(data, pos);
      if next.None? || next.value.kind == IEND {
        return;
      }
      var c := next.value;
      pos := pos + 12 + |c.data|;
      w := Walk(data[pos..]);
      assert ([c] + w.chunks)[1..] == w.chunks;
      result := Add(dec, result, c);
    }
    WalkStep(data, pos);
  }
}
