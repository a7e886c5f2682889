/**
 What the walk over the segments of a JPEG file makes of it: every file is a run of
 segments that are passed over, and what follows them decides.
 */
module JpegLaws {
  import opened Bytes
  import opened Results
  import opened Jpeg
  import opened Sequences

  // ----- Segments that are passed over -----

  /** A segment with the fill bytes in front of it. */
  datatype Passed = Passed(fill: nat, marker: byte, payload: seq<byte>)

  function Fill(n: nat): seq<byte> {
    seq(n, _ => 0xFF)
  }

  predicate IsMarker(b: byte) {
    b != 0x00 && b != 0xFF && b != 0xDA
  }

  predicate WalksPast(s: Passed) {
    IsMarker(s.marker) && |s.payload| + 2 < U16_LIMIT && !(s.marker == 0xE1 && NAMESPACE <= s.payload)
  }

  predicate AllPassed(segs: seq<Passed>) {
    forall s <- segs :: WalksPast(s)
  }

  function PrintSegment(marker: byte, payload: seq<byte>): seq<byte> {
    [0xFF, marker] + ToBe(|payload| + 2, 2) + payload
  }

  function Print(s: Passed): seq<byte> {
    Fill(s.fill) + PrintSegment(s.marker, s.payload)
  }

  lemma LiesBetween(a: seq<byte>, part: seq<byte>, b: seq<byte>)
    ensures LiesAt(a + part + b, |a|, part)
  {
  }

  function PrintAll(segs: seq<Passed>): seq<byte> {
    if segs == [] then [] else Print(segs[0]) + PrintAll(segs[1..])
  }

  /** `part` lies in `data` at `pos`. */
  predicate LiesAt(data: seq<byte>, pos: nat, part: seq<byte>) {
    pos + |part| <= |data| && data[pos..pos + |part|] == part
  }

  lemma LiesApart(data: seq<byte>, pos: nat, a: seq<byte>, b: seq<byte>)
    ensures LiesAt(data, pos, a + b) <==> LiesAt(data, pos, a) && LiesAt(data, pos + |a|, b)
  {
    if pos + |a| + |b| <= |data| {
      var s := data[pos..pos + |a| + |b|];
      assert s == data[pos..pos + |a|] + data[pos + |a|..pos + |a| + |b|];
      assert (a + b)[..|a|] == a && (a + b)[|a|..] == b;
      assert s[..|a|] == data[pos..pos + |a|] && s[|a|..] == data[pos + |a|..pos + |a| + |b|];
    }
  }

  /** Fill bytes are passed over, if a marker's own byte follows them. */
  lemma {:induction false} PastFill(data: seq<byte>, pos: nat, n: nat)
    requires LiesAt(data, pos, Fill(n + 1))
    ensures ScanFrom(data, pos) == ScanFrom(data, pos + n)
    decreases n
  {
    if n > 0 {
      assert data[pos..pos + n + 1][0] == 0xFF && data[pos..pos + n + 1][1] == 0xFF;
      assert data[pos + 1..pos + 1 + n] == data[pos..pos + n + 1][1..] == Fill(n);
      PastFill(data, pos + 1, n - 1);
    }
  }

  lemma SegmentParts(start: seq<byte>, length: seq<byte>, payload: seq<byte>)
    requires |start| == 2 && |length| == 2
    ensures (start + length + payload)[2..4] == length
    ensures (start + length + payload)[4..4 + |payload|] == payload
  {
  }

  /** Where the parts of a segment lie. */
  lemma SegmentAt(data: seq<byte>, pos: nat, marker: byte, payload: seq<byte>)
    requires |payload| + 2 < U16_LIMIT && LiesAt(data, pos, PrintSegment(marker, payload))
    ensures var end := pos + 4 + |payload|;
            && end <= |data| && data[pos] == 0xFF && data[pos + 1] == marker
            && SegmentEnd(data, pos) == end && data[pos + 4..end] == payload
  {
    var s, length := PrintSegment(marker, payload), ToBe(|payload| + 2, 2);
    var t := data[pos..pos + |s|];
    Capacities();
    BeRoundTrip(|payload| + 2, 2);
    assert data[pos] == t[0] && data[pos + 1] == t[1];
    SegmentParts([0xFF, marker], length, payload);
    SliceOfSlice(data, pos, pos + |s|, 2, 4);
    SliceOfSlice(data, pos, pos + |s|, 4, |s|);
  }

  lemma PastSegment(data: seq<byte>, pos: nat, marker: byte, payload: seq<byte>, end: nat)
    requires WalksPast(Passed(0, marker, payload)) && LiesAt(data, pos, PrintSegment(marker, payload))
    requires end == pos + |PrintSegment(marker, payload)|
    ensures ScanFrom(data, pos) == ScanFrom(data, end)
    ensures pos < |data| && data[pos] == 0xFF
  {
    SegmentAt(data, pos, marker, payload);
  }

  lemma PastOne(data: seq<byte>, pos: nat, s: Passed, end: nat)
    requires WalksPast(s) && LiesAt(data, pos, Print(s)) && end == pos + |Print(s)|
    ensures ScanFrom(data, pos) == ScanFrom(data, end)
  {
    var middle := pos + s.fill;
    LiesApart(data, pos, Fill(s.fill), PrintSegment(s.marker, s.payload));
    PastSegment(data, middle, s.marker, s.payload, end);
    FillMore(data, pos, s.fill);
    PastFill(data, pos, s.fill);
  }

  lemma FillMore(data: seq<byte>, pos: nat, n: nat)
    requires LiesAt(data, pos, Fill(n)) && pos + n < |data| && data[pos + n] == 0xFF
    ensures LiesAt(data, pos, Fill(n + 1))
  {
    assert data[pos..pos + n + 1] == data[pos..pos + n] + [data[pos + n]] == Fill(n) + [0xFF];
  }

  lemma {:induction false} PastAll(data: seq<byte>, pos: nat, segs: seq<Passed>, end: nat)
    requires AllPassed(segs) && LiesAt(data, pos, PrintAll(segs)) && end == pos + |PrintAll(segs)|
    ensures ScanFrom(data, pos) == ScanFrom(data, end)
    decreases |segs|
  {
    if segs != [] {
      var one, others := Print(segs[0]), PrintAll(segs[1..]);
      var middle := pos + |one|;
      assert PrintAll(segs) == one + others;
      LiesApart(data, pos, one, others);
      PastOne(data, pos, segs[0], middle);
      PastAll(data, middle, segs[1..], end);
    }
  }

  // ----- What follows them -----

  /** Neither a packet nor a segment that is passed over: here the walk ends. */
  predicate Stops(rest: seq<byte>) {
    || |rest| < 2 || rest[0] != 0xFF || rest[1] == 0x00 || rest[1] == 0xDA
    || (rest[1] != 0xFF && (|rest| < 4 || FromBe(rest[2..4]) + 2 > |rest|))
    || (rest[1] != 0xFF && rest[1] != 0xE1 && FromBe(rest[2..4]) < 2)
  }

  /** An APP1 segment whose length does not even cover its own field; the code panics. */
  predicate TooShort(rest: seq<byte>) {
    |rest| >= 4 && rest[..2] == [0xFF, 0xE1] && FromBe(rest[2..4]) < 2 && FromBe(rest[2..4]) + 2 <= |rest|
  }

  /** A segment that holds this packet, and what follows it. */
  predicate Holds(rest: seq<byte>, xmp: seq<byte>, tail: seq<byte>) {
    |NAMESPACE| + |xmp| + 2 < U16_LIMIT && rest == PrintSegment(0xE1, NAMESPACE + xmp) + tail
  }

  /** A file: segments that are passed over, fill bytes, and the rest. */
  datatype Layout = Layout(segs: seq<Passed>, fill: nat, rest: seq<byte>)

  function File(l: Layout): seq<byte> {
    Front(l.segs, l.fill) + l.rest
  }

  function Front(segs: seq<Passed>, fill: nat): seq<byte> {
    [0xFF, 0xD8] + PrintAll(segs) + Fill(fill)
  }

  predicate LaidOut(l: Layout) {
    AllPassed(l.segs) && (l.fill > 0 ==> l.rest != [] && l.rest[0] == 0xFF)
  }

  /** Where the rest begins. */
  function RestAt(l: Layout): nat {
    |Front(l.segs, l.fill)|
  }

  /** The walk gets to the rest. */
  lemma WalkToRest(l: Layout)
    requires LaidOut(l)
    ensures IsJpeg(File(l)) && RestAt(l) <= |File(l)| && File(l)[RestAt(l)..] == l.rest
    ensures ScanFrom(File(l), 2) == ScanFrom(File(l), RestAt(l))
  {
    var data, soi, segs := File(l), [0xFF, 0xD8], PrintAll(l.segs);
    WalkFront(soi, l.segs, segs, l.fill, l.rest, data);
    StartsAndEnds(soi, segs + Fill(l.fill), l.rest);
    Associative(soi, segs, Fill(l.fill));
  }

  lemma StartsAndEnds(a: seq<byte>, b: seq<byte>, c: seq<byte>)
    ensures (a + b + c)[..|a|] == a && (a + b + c)[|a + b|..] == c
    ensures a + (b + c) == a + b + c
  {
  }

  lemma WalkFront(soi: seq<byte>, segs: seq<Passed>, printed: seq<byte>, fill: nat, rest: seq<byte>, data: seq<byte>)
    requires AllPassed(segs) && printed == PrintAll(segs) && data == soi + printed + Fill(fill) + rest
    requires fill > 0 ==> rest != [] && rest[0] == 0xFF
    ensures ScanFrom(data, |soi|) == ScanFrom(data, |soi + printed + Fill(fill)|)
  {
    Associative(soi + printed, Fill(fill), rest);
    LiesBetween(soi, printed, Fill(fill) + rest);
    PastAll(data, |soi|, segs, |soi + printed|);
    WalkFill(soi + printed, fill, rest);
  }

  lemma WalkFill(front: seq<byte>, fill: nat, rest: seq<byte>)
    requires fill > 0 ==> rest != [] && rest[0] == 0xFF
    ensures ScanFrom(front + Fill(fill) + rest, |front|) == ScanFrom(front + Fill(fill) + rest, |front + Fill(fill)|)
  {
    var data := front + Fill(fill) + rest;
    if fill > 0 {
      LiesBetween(front, Fill(fill), rest);
      FillMore(data, |front|, fill);
      PastFill(data, |front|, fill);
    }
  }

  /** The walk ends where it stops. */
  lemma StopsHere(data: seq<byte>, pos: nat)
    requires pos <= |data| && Stops(data[pos..])
    ensures ScanFrom(data, pos) == Absent
  {
    var rest := data[pos..];
    if pos + 4 <= |data| {
      assert rest[2..4] == data[pos + 2..pos + 4];
      ShortLength(data[pos + 2], data[pos + 3]);
      assert data[pos + 2..pos + 4] == [data[pos + 2], data[pos + 3]];
    }
  }

  lemma ShortLength(high: byte, low: byte)
    ensures FromBe([high, low]) == 0x100 * high + low
  {
    assert [high, low][..1] == [high];
    assert FromBe([high]) == high;
  }

  /** No packet is read where the walk stops, and none is stripped. */
  lemma NothingFound(l: Layout)
    requires LaidOut(l) && Stops(l.rest)
    ensures Walkable(File(l)) && Read(File(l)) == None && Strip(File(l)) == File(l)
  {
    WalkToRest(l);
    StopsHere(File(l), RestAt(l));
  }

  lemma FaultsHere(l: Layout)
    requires LaidOut(l) && TooShort(l.rest)
    ensures !Walkable(File(l))
  {
    WalkToRest(l);
    var data, pos := File(l), RestAt(l);
    assert l.rest[..2][0] == data[pos] && l.rest[..2][1] == data[pos + 1];
    assert l.rest[2..4] == data[pos + 2..pos + 4];
  }

  /** Whatever segments it stands behind, a packet is read, and only its segment is stripped. */
  lemma FoundBehind(l: Layout, xmp: seq<byte>, tail: seq<byte>)
    requires LaidOut(l) && Holds(l.rest, xmp, tail)
    ensures Walkable(File(l)) && Read(File(l)) == Some(xmp) && Strip(File(l)) == Front(l.segs, l.fill) + tail
  {
    WalkToRest(l);
    FoundAt(Front(l.segs, l.fill), xmp, tail, File(l));
  }

  lemma FoundAt(front: seq<byte>, xmp: seq<byte>, tail: seq<byte>, data: seq<byte>)
    requires |NAMESPACE| + |xmp| + 2 < U16_LIMIT
    requires data == front + (PrintSegment(0xE1, NAMESPACE + xmp) + tail)
    requires IsJpeg(data) && ScanFrom(data, 2) == ScanFrom(data, |front|)
    ensures Walkable(data) && Read(data) == Some(xmp) && Strip(data) == front + tail
  {
    var pos, payload := |front|, NAMESPACE + xmp;
    var segment, end := PrintSegment(0xE1, payload), pos + 4 + |payload|;
    assert data == front + segment + tail;
    LiesBetween(front, segment, tail);
    SegmentAt(data, pos, 0xE1, payload);
    assert ScanFrom(data, pos) == Found(pos, end);
    assert payload[|NAMESPACE|..] == xmp && data[pos + 4 + |NAMESPACE|..end] == data[pos + 4..end][|NAMESPACE|..];
    assert data[..pos] == front && data[end..] == tail;
  }

  /** The rest is of one of the three kinds. */
  ghost predicate Decides(rest: seq<byte>) {
    Stops(rest) || TooShort(rest) || exists xmp, tail :: Holds(rest, xmp, tail)
  }

  /** Every file is laid out in this way. */
  lemma {:induction false} EveryFile(data: seq<byte>) returns (l: Layout)
    requires IsJpeg(data)
    ensures LaidOut(l) && File(l) == data && Decides(l.rest)
  {
    var fill, rest := FillOf(data[2..]);
    l := Layout([], fill, rest);
    assert data == [0xFF, 0xD8] + data[2..];
    while !Decides(l.rest)
      invariant LaidOut(l) && File(l) == data && NoFill(l.rest)
      decreases |l.rest|
    {
      l := NextLayout(l);
    }
  }

  /** It does not start with a fill byte. */
  predicate NoFill(rest: seq<byte>) {
    |rest| >= 2 && rest[0] == 0xFF ==> rest[1] != 0xFF
  }

  lemma {:induction false} NextLayout(l: Layout) returns (next: Layout)
    requires LaidOut(l) && NoFill(l.rest) && !Decides(l.rest)
    ensures LaidOut(next) && File(next) == File(l) && NoFill(next.rest) && |next.rest| < |l.rest|
  {
    var length, marker := FromBe(l.rest[2..4]), l.rest[1];
    var payload, tail := l.rest[4..2 + length], l.rest[2 + length..];
    SegmentOf(l.rest);
    if marker == 0xE1 && NAMESPACE <= payload {
      assert payload == NAMESPACE + payload[|NAMESPACE|..];
      assert Holds(l.rest, payload[|NAMESPACE|..], tail);
    }
    var one := Passed(l.fill, marker, payload);
    var fill, rest := FillOf(tail);
    PrintSnoc(l.segs, one);
    next := Layout(l.segs + [one], fill, rest);
    Regrouped([0xFF, 0xD8], PrintAll(l.segs), Fill(l.fill), PrintSegment(marker, payload), Fill(fill), rest);
  }

  lemma Regrouped(a: seq<byte>, b: seq<byte>, c: seq<byte>, d: seq<byte>, e: seq<byte>, f: seq<byte>)
    ensures a + (b + (c + d)) + e + f == a + b + c + (d + (e + f))
  {
  }

  /** The segment that starts the rest, when the walk does not stop there. */
  lemma SegmentOf(rest: seq<byte>)
    requires !Stops(rest) && !TooShort(rest) && rest[1] != 0xFF
    ensures var length := FromBe(rest[2..4]);
            && IsMarker(rest[1]) && 2 <= length < U16_LIMIT && 2 + length <= |rest|
            && rest == PrintSegment(rest[1], rest[4..2 + length]) + rest[2 + length..]
  {
    var length := FromBe(rest[2..4]);
    Capacities();
    BeRoundTripBytes(rest[2..4]);
    assert rest[..2] == [0xFF, rest[1]];
    assert rest[..4] == rest[..2] + rest[2..4];
  }

  /** The fill bytes in front, but for the last byte FF. */
  lemma {:induction false} FillOf(s: seq<byte>) returns (fill: nat, rest: seq<byte>)
    ensures s == Fill(fill) + rest && (fill > 0 ==> rest != [] && rest[0] == 0xFF)
    ensures |rest| >= 2 && rest[0] == 0xFF ==> rest[1] != 0xFF
  {
    fill, rest := 0, s;
    while |rest| >= 2 && rest[0] == 0xFF && rest[1] == 0xFF
      invariant s == Fill(fill) + rest && (fill > 0 ==> rest != [] && rest[0] == 0xFF)
      decreases |rest|
    {
      assert Fill(fill + 1) == Fill(fill) + [0xFF];
      assert rest == [0xFF] + rest[1..];
      fill, rest := fill + 1, rest[1..];
    }
  }

  lemma {:induction false} PrintSnoc(segs: seq<Passed>, s: Passed)
    ensures PrintAll(segs + [s]) == PrintAll(segs) + Print(s)
  {
    if segs == [] {
      assert [s][1..] == [] && [] + [s] == [s];
    } else {
      assert (segs + [s])[1..] == segs[1..] + [s];
      PrintSnoc(segs[1..], s);
    }
  }

  /** A packet is read exactly if it stands behind segments that are passed over. */
  lemma ReadIff(data: seq<byte>, xmp: seq<byte>)
    requires IsJpeg(data)
    ensures Read(data) == Some(xmp) <==>
              exists l, tail :: LaidOut(l) && File(l) == data && Holds(l.rest, xmp, tail)
  {
    if l, tail :| LaidOut(l) && File(l) == data && Holds(l.rest, xmp, tail) {
      FoundBehind(l, xmp, tail);
    }
    if Read(data) == Some(xmp) {
      var l := EveryFile(data);
      if Stops(l.rest) {
        NothingFound(l);
      } else if TooShort(l.rest) {
        FaultsHere(l);
      } else {
        var packet, tail :| Holds(l.rest, packet, tail);
        FoundBehind(l, packet, tail);
      }
    }
  }

  /** A write puts the new segment first, and leaves all others as they were. */
  lemma WriteMoves(l: Layout, before: seq<byte>, tail: seq<byte>, xmp: seq<byte>)
    requires LaidOut(l) && Holds(l.rest, before, tail) && |NAMESPACE| + |xmp| + 2 < U16_LIMIT
    ensures Write(File(l), xmp)
         == Ok([0xFF, 0xD8] + PrintSegment(0xE1, NAMESPACE + xmp) + (PrintAll(l.segs) + Fill(l.fill) + tail))
  {
    var soi, segs, fill := [0xFF, 0xD8], PrintAll(l.segs), Fill(l.fill);
    WalkToRest(l);
    FoundBehind(l, before, tail);
    AfterTwo(soi, segs, fill, tail);
    NewSegment(xmp);
  }

  lemma AfterTwo(soi: seq<byte>, a: seq<byte>, b: seq<byte>, c: seq<byte>)
    ensures (soi + a + b + c)[|soi|..] == a + b + c
  {
  }

  lemma NewSegment(xmp: seq<byte>)
    ensures Segment(xmp) == PrintSegment(0xE1, NAMESPACE + xmp)
  {
  }

  /** The packet stands behind this name and a NUL byte. */
  lemma NamespaceName()
    ensures NAMESPACE == Ascii("http://ns.adobe.com/xap/1.0/") + [0x00]
  {
  }

  /** Only what starts like a JPEG file is read or written to, with up to 65504 bytes. */
  lemma WhenWritten(data: seq<byte>, xmp: seq<byte>)
    ensures !([0xFF, 0xD8] <= data) ==> Read(data) == None && Write(data, xmp) == Err(InvalidJpeg)
    ensures [0xFF, 0xD8] <= data ==>
              if |xmp| <= 65504 then Write(data, xmp).Ok? else Write(data, xmp) == Err(TooLarge(|xmp| + 29))
  {
    NamespaceName();
    assert [0xFF, 0xD8] <= data ==> data[..2] == [0xFF, 0xD8];
  }
}
