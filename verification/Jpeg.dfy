/**
 Splicing an XMP packet into a JPEG file: the packet is an APP1 segment
 (marker segments of section B.1.1.4 of ITU-T T.81).
 */
module Jpeg {
  import opened Bytes
  import opened Results
  import opened Sequences

  datatype JpegError = InvalidJpeg | TooLarge(packet: nat)

  const SOI: seq<byte> := [0xFF, 0xD8]
  const APP1: byte := 0xE1
  const SOS: byte := 0xDA

  /** http://ns.adobe.com/xap/1.0/ and a NUL byte. */
  const NAMESPACE: seq<byte> :=
    [0x68, 0x74, 0x74, 0x70, 0x3A, 0x2F, 0x2F, 0x6E, 0x73, 0x2E, 0x61, 0x64, 0x6F, 0x62, 0x65,
     0x2E, 0x63, 0x6F, 0x6D, 0x2F, 0x78, 0x61, 0x70, 0x2F, 0x31, 0x2E, 0x30, 0x2F, 0x00]

  predicate IsJpeg(data: seq<byte>) {
    |data| >= 2 && data[..2] == SOI
  }

  /** What the walk over the marker segments comes to. */
  datatype Scan =
    | Found(at: nat, end: nat)  // the XMP APP1 segment, marker included
    | Absent
    | SliceFault                // an APP1 segment whose length field is below 2

  /** The end of the segment at `pos`. */
  function SegmentEnd(data: seq<byte>, pos: nat): nat
    requires pos + 4 <= |data|
  {
    pos + 2 + FromBe(data[pos + 2..pos + 4])
  }

  function ScanFrom(data: seq<byte>, pos: nat): Scan
    decreases |data| - pos
  {
    if pos + 1 >= |data| || data[pos] != 0xFF || data[pos + 1] == SOS then Absent
    else if data[pos + 1] == 0x00 || data[pos + 1] == 0xFF then ScanFrom(data, pos + 1)
    else if pos + 3 >= |data| || SegmentEnd(data, pos) > |data| then Absent
    else
      var end := SegmentEnd(data, pos);
      if data[pos + 1] == APP1 && end < pos + 4 then SliceFault
      else if data[pos + 1] == APP1 && NAMESPACE <= data[pos + 4..end] then Found(pos, end)
      else ScanFrom(data, end)
  }

  /** The precondition of the walkers: no reachable APP1 segment is shorter than its length field. */
  predicate Walkable(data: seq<byte>) {
    ScanFrom(data, 2) != SliceFault
  }

  function Read(data: seq<byte>): Option<seq<byte>> {
    if !IsJpeg(data) then None
    else
      match ScanFrom(data, 2)
      case Found(at, end) =>
        if at + 4 + |NAMESPACE| <= end <= |data| then Some(data[at + 4 + |NAMESPACE|..end]) else None
      case _ => None
  }

  /** The file without the first XMP segment the walk reaches. */
  function Strip(data: seq<byte>): seq<byte> {
    match ScanFrom(data, 2)
    case Found(at, end) => if at <= end <= |data| then data[..at] + data[end..] else data
    case _ => data
  }

  function Segment(xmp: seq<byte>): seq<byte> {
    [0xFF, APP1] + ToBe(|NAMESPACE| + |xmp| + 2, 2) + NAMESPACE + xmp
  }

  function Write(data: seq<byte>, xmp: seq<byte>): Result<seq<byte>, JpegError> {
    if !IsJpeg(data) then Err(InvalidJpeg)
    else if |NAMESPACE| + |xmp| + 2 >= U16_LIMIT then Err(TooLarge(|NAMESPACE| + |xmp|))
    else
      ScanBounds(data, 2);
      Ok(SOI + Segment(xmp) + Strip(data)[2..])
  }

  lemma {:induction false} ScanBounds(data: seq<byte>, pos: nat)
    ensures ScanFrom(data, pos).Found? ==>
              var s := ScanFrom(data, pos); pos <= s.at && s.at + 4 + |NAMESPACE| <= s.end <= |data|
    ensures pos == 2 && |data| >= 2 ==> |Strip(data)| >= 2 && Strip(data)[..2] == data[..2]
    decreases |data| - pos
  {
    if pos + 1 < |data| && data[pos] == 0xFF && data[pos + 1] != SOS {
      if data[pos + 1] == 0x00 || data[pos + 1] == 0xFF {
        ScanBounds(data, pos + 1);
      } else if pos + 3 < |data| && SegmentEnd(data, pos) <= |data| {
        var end := SegmentEnd(data, pos);
        if !(data[pos + 1] == APP1 && (end < pos + 4 || NAMESPACE <= data[pos + 4..end])) {
          ScanBounds(data, end);
        }
      }
    }
  }

  /** The loop shared by `read_xmp_from_bytes` and `strip_xmp_app1`: the XMP segment, if any. */
  method FindXmpSegment(data: seq<byte>) returns (r: Option<(nat, nat)>)
    requires Walkable(data)
    ensures match ScanFrom(data, 2)
            case Found(at, end) => r == Some((at, end))
            case _ => r == None
  {
    var pos := 2;
    while pos + 1 < |data|
      invariant ScanFrom(data, pos) == ScanFrom(data, 2)
      decreases |data| - pos
    {
      if data[pos] != 0xFF {
        break;
      }
      var marker := data[pos + 1];
      if marker == SOS {
        break;
      }
      if marker == 0x00 || marker == 0xFF {
        pos := pos + 1;
        continue;
      }
      if pos + 3 >= |data| {
        break;
      }
      var end := SegmentEnd(data, pos);
      if end > |data| {
        break;
      }
      if marker == APP1 {
        var payload := data[pos + 4..end];
        if NAMESPACE <= payload {
          return Some((pos, end));
        }
      }
      pos := end;
    }
    return None;
  }

  method ReadXmp(data: seq<byte>) returns (r: Option<seq<byte>>)
    requires IsJpeg(data) ==> Walkable(data)
    ensures r == Read(data)
  {
    if !IsJpeg(data) {
      return None;
    }
    var found := FindXmpSegment(data);
    ScanBounds(data, 2);
    match found {
      case None => return None;
      case Some((at, end)) => return Some(data[at + 4..end][|NAMESPACE|..]);
    }
  }

  method StripXmpApp1(data: seq<byte>) returns (out: seq<byte>)
    requires Walkable(data)
    ensures out == Strip(data)
  {
    var found := FindXmpSegment(data);
    ScanBounds(data, 2);
    match found {
      case None => out := data;
      case Some((at, end)) =>
        out := data[..at];
        out := out + data[end..];
    }
  }

  method WriteXmp(data: seq<byte>, xmp: seq<byte>) returns (r: Result<seq<byte>, JpegError>)
    requires IsJpeg(data) ==> Walkable(data)
    ensures r == Write(data, xmp)
  {
    if !IsJpeg(data) {
      return Err(InvalidJpeg);
    }
    var stripped := StripXmpApp1(data);
    ScanBounds(data, 2);
    var payload := NAMESPACE + xmp;
    var length := |payload| + 2;
    if length >= U16_LIMIT {
      return Err(TooLarge(|payload|));
    }
    var out := stripped[..2];
    out := out + [0xFF];
    out := out + [APP1];
    out := out + ToBe(length, 2);
    out := out + payload;
    out := out + stripped[2..];
    assert out == SOI + Segment(xmp) + stripped[2..];
    return Ok(out);
  }

  // ----- Laws -----

  /** The walk over a written file finds the new segment first. */
  lemma ScanFindsNewSegment(xmp: seq<byte>, tail: seq<byte>)
    requires |NAMESPACE| + |xmp| + 2 < U16_LIMIT
    ensures var out, end := SOI + Segment(xmp) + tail, 2 + |Segment(xmp)|;
            ScanFrom(out, 2) == Found(2, end) && out[..2] == SOI && out[end..] == tail
            && out[6 + |NAMESPACE|..end] == xmp
  {
    var length := |NAMESPACE| + |xmp| + 2;
    var out := SOI + Segment(xmp) + tail;
    Capacities();
    BeRoundTrip(length, 2);
    assert out[4..6] == ToBe(length, 2);
    assert out[6..2 + |Segment(xmp)|] == NAMESPACE + xmp;
  }

  /** Reading a written file returns the packet that was written. */
  lemma ReadAfterWrite(data: seq<byte>, xmp: seq<byte>)
    requires Write(data, xmp).Ok?
    ensures Walkable(Write(data, xmp).value)
    ensures Read(Write(data, xmp).value) == Some(xmp)
  {
    ScanBounds(data, 2);
    ScanFindsNewSegment(xmp, Strip(data)[2..]);
  }

  /** Stripping a written file gives the file stripped before the write. */
  lemma StripAfterWrite(data: seq<byte>, xmp: seq<byte>)
    requires Write(data, xmp).Ok?
    ensures Strip(Write(data, xmp).value) == Strip(data)
  {
    ScanBounds(data, 2);
    ScanFindsNewSegment(xmp, Strip(data)[2..]);
    assert SOI + Strip(data)[2..] == Strip(data);
  }

  /** The second of two writes wins, byte for byte. */
  lemma WriteTwice(data: seq<byte>, x: seq<byte>, y: seq<byte>)
    requires Write(data, x).Ok?
    ensures Write(Write(data, x).value, y) == Write(data, y)
  {
    ScanBounds(data, 2);
    ScanFindsNewSegment(x, Strip(data)[2..]);
    StripAfterWrite(data, x);
  }

  /** A packet is read exactly when stripping removes a segment. */
  lemma ReadIffStripped(data: seq<byte>)
    requires IsJpeg(data)
    ensures Read(data).Some? <==> |Strip(data)| < |data|
    ensures Read(data).None? ==> Strip(data) == data
    ensures Read(data).Some? ==>
              exists at: nat, end: nat :: SegmentRemoved(data, at, end, Read(data).value, Strip(data))
  {
    ScanBounds(data, 2);
    if ScanFrom(data, 2).Found? {
      var at, end := ScanFrom(data, 2).at, ScanFrom(data, 2).end;
      FoundIsXmp(data, 2);
      PrefixAndRest(NAMESPACE, data[at + 4..end]);
      SliceOfSlice(data, at + 4, end, |NAMESPACE|, end - at - 4);
      assert SegmentRemoved(data, at, end, Read(data).value, Strip(data));
    }
  }

  /** `after` is `before` without the APP1 segment between `at` and `end`, which held the packet. */
  predicate SegmentRemoved(before: seq<byte>, at: nat, end: nat, packet: seq<byte>, after: seq<byte>) {
    && 2 <= at && at + 4 <= end <= |before|
    && before[at] == 0xFF && before[at + 1] == APP1
    && before[at + 4..end] == NAMESPACE + packet
    && after == before[..at] + before[end..]
  }

  lemma PrefixAndRest(a: seq<byte>, s: seq<byte>)
    requires a <= s
    ensures s == a + s[|a|..]
  {
  }

  lemma {:induction false} FoundIsXmp(data: seq<byte>, pos: nat)
    requires ScanFrom(data, pos).Found?
    ensures var s := ScanFrom(data, pos);
            && s.at + 4 <= s.end <= |data| && data[s.at] == 0xFF && data[s.at + 1] == APP1
            && NAMESPACE <= data[s.at + 4..s.end]
    decreases |data| - pos
  {
    if data[pos + 1] == 0x00 || data[pos + 1] == 0xFF {
      FoundIsXmp(data, pos + 1);
    } else if !(data[pos + 1] == APP1 && NAMESPACE <= data[pos + 4..SegmentEnd(data, pos)]) {
      FoundIsXmp(data, SegmentEnd(data, pos));
    }
  }
}
