/**
 What is written, as the XML library reads it: tags with proper names are read as they are
 written, an end tag that does not match makes the whole packet malformed, and text comes
 in the pieces between references. So this says which packets survive.
 */
module PacketRoundTrip {
  import opened Results
  import opened Packet
  import opened PacketMeaning
  import opened PacketWriting
  import Registry

  // ----- What the library makes of what is written -----

  function ReadEvent(e: Event, lib: Library): seq<Event> {
    match e
    case Start(name, pairs) =>
      var (n, p) := lib.start(name, pairs);
      [Start(n, p)]
    case Empty(name, pairs) =>
      var (n, p) := lib.start(name, pairs);
      [Empty(n, p)]
    case Text(content) => Texts(lib.text(content))
    case _ => [e]
  }

  function ReadEvents(written: seq<Event>, lib: Library): seq<Event> {
    if written == [] then [] else ReadEvent(written[0], lib) + ReadEvents(written[1..], lib)
  }

  /** The names of the elements that are open after what is written; nothing if an end tag does not match. */
  function OpenAfter(open: seq<string>, written: seq<Event>, lib: Library): Option<seq<string>>
    decreases |written|
  {
    if written == [] then Some(open)
    else
      match written[0]
      case Start(name, pairs) => OpenAfter(open + [lib.start(name, pairs).0], written[1..], lib)
      case End(name) =>
        if open != [] && open[|open| - 1] == name then OpenAfter(open[..|open| - 1], written[1..], lib) else None
      case _ => OpenAfter(open, written[1..], lib)
  }

  /** What is parsed of what was written for `d`. */
  ghost function Reread(d: XmpData, o: Order, lib: Library, numeric: Numeric, t: Tags): XmpData
    requires Orders(o, d)
  {
    Parsed(ReadEvents(Written(d, o, t), lib), OpenAfter([], Written(d, o, t), lib).None?, numeric)
  }

  // ----- The library reads well-named tags as they are written -----

  lemma ReadEventsMore(e: Event, rest: seq<Event>, lib: Library)
    ensures ReadEvents([e] + rest, lib) == ReadEvent(e, lib) + ReadEvents(rest, lib)
  {
    assert ([e] + rest)[1..] == rest;
  }

  lemma Associates(a: seq<Event>, b: seq<Event>, c: seq<Event>)
    ensures a + b + c == a + (b + c)
  {
  }

  lemma {:induction false} ReadEventsAppend(a: seq<Event>, b: seq<Event>, lib: Library)
    ensures ReadEvents(a + b, lib) == ReadEvents(a, lib) + ReadEvents(b, lib)
    decreases |a|
  {
    if a == [] {
      assert a + b == b;
    } else {
      var e, rest := a[0], a[1..];
      assert a == [e] + rest;
      Associates([e], rest, b);
      ReadEventsMore(e, rest, lib);
      ReadEventsMore(e, rest + b, lib);
      ReadEventsAppend(rest, b, lib);
      Associates(ReadEvent(e, lib), ReadEvents(rest, lib), ReadEvents(b, lib));
    }
  }

  lemma ReadEventOne(e: Event, lib: Library)
    ensures ReadEvents([e], lib) == ReadEvent(e, lib)
  {
    assert [e][1..] == [];
  }

  lemma ReadEventTwo(a: Event, b: Event, lib: Library)
    ensures ReadEvents([a, b], lib) == ReadEvent(a, lib) + ReadEvent(b, lib)
  {
    assert [a, b] == [a] + [b];
    ReadEventsAppend([a], [b], lib);
    ReadEventOne(a, lib);
    ReadEventOne(b, lib);
  }

  lemma {:induction false} OpenAppend(open: seq<string>, a: seq<Event>, b: seq<Event>, lib: Library)
    ensures OpenAfter(open, a + b, lib)
         == match OpenAfter(open, a, lib) { case None => None case Some(o) => OpenAfter(o, b, lib) }
    decreases |a|
  {
    if a == [] {
      assert a + b == b;
    } else {
      assert (a + b)[1..] == a[1..] + b;
      match a[0]
      case Start(name, pairs) => OpenAppend(open + [lib.start(name, pairs).0], a[1..], b, lib);
      case End(name) =>
        if open != [] && open[|open| - 1] == name {
          OpenAppend(open[..|open| - 1], a[1..], b, lib);
        }
      case _ => OpenAppend(open, a[1..], b, lib);
    }
  }

  lemma OpenOne(open: seq<string>, e: Event, lib: Library)
    ensures OpenAfter(open, [e], lib)
         == match e
            case Start(name, pairs) => Some(open + [lib.start(name, pairs).0])
            case End(name) =>
              if open != [] && open[|open| - 1] == name then Some(open[..|open| - 1]) else None
            case _ => Some(open)
  {
    assert [e][1..] == [];
  }

  lemma OpenTwo(open: seq<string>, a: Event, b: Event, lib: Library)
    ensures OpenAfter(open, [a, b], lib)
         == match OpenAfter(open, [a], lib) { case None => None case Some(o) => OpenAfter(o, [b], lib) }
  {
    assert [a, b] == [a] + [b];
    OpenAppend(open, [a], [b], lib);
  }

  /** Every element that is opened is closed. */
  ghost predicate Closed(w: seq<Event>, lib: Library) {
    forall open :: OpenAfter(open, w, lib) == Some(open)
  }

  lemma ClosedAppend(a: seq<Event>, b: seq<Event>, lib: Library)
    requires Closed(a, lib) && Closed(b, lib)
    ensures Closed(a + b, lib)
  {
    forall open ensures OpenAfter(open, a + b, lib) == Some(open) {
      OpenAppend(open, a, b, lib);
    }
  }

  lemma ItemClosed(item: string, lib: Library, t: Tags)
    requires ReadsTags(lib) && Standard(t)
    ensures Closed(ItemEvent(item, VERBATIM, t), lib)
  {
    var esc := TextEscape(item);
    assert Texts([esc]) == [Text(esc)] by {
      assert [esc][1..] == [];
    }
    forall open ensures OpenAfter(open, ItemEvent(item, VERBATIM, t), lib) == Some(open) {
      assert ProperTag(t.item, []);
      OpenAppend(open, [Start(t.item, [])] + [Text(esc)], [End(t.item)], lib);
      OpenTwo(open, Start(t.item, []), Text(esc), lib);
      OpenOne(open, Start(t.item, []), lib);
      OpenOne(open + [t.item], Text(esc), lib);
      OpenOne(open + [t.item], End(t.item), lib);
      assert (open + [t.item])[..|open|] == open;
    }
  }

  lemma {:induction false} ItemsClosed(items: seq<string>, lib: Library, t: Tags)
    requires ReadsTags(lib) && Standard(t)
    ensures Closed(ItemEvents(items, VERBATIM, t), lib)
  {
    if items != [] {
      ItemClosed(items[0], lib, t);
      ItemsClosed(items[1..], lib, t);
      ClosedAppend(ItemEvent(items[0], VERBATIM, t), ItemEvents(items[1..], VERBATIM, t), lib);
    }
  }

  lemma ItemReads(item: string, lib: Library, t: Tags)
    requires ReadsTags(lib) && Standard(t)
    ensures ReadEvents(ItemEvent(item, VERBATIM, t), lib) == ItemEvent(item, lib, t)
  {
    var esc := TextEscape(item);
    assert Texts([esc]) == [Text(esc)] by {
      assert [esc][1..] == [];
    }
    assert ProperTag(t.item, []);
    ReadEventsAppend([Start(t.item, [])] + [Text(esc)], [End(t.item)], lib);
    ReadEventTwo(Start(t.item, []), Text(esc), lib);
    ReadEventOne(End(t.item), lib);
  }

  lemma {:induction false} ItemsRead(items: seq<string>, lib: Library, t: Tags)
    requires ReadsTags(lib) && Standard(t)
    ensures ReadEvents(ItemEvents(items, VERBATIM, t), lib) == ItemEvents(items, lib, t)
  {
    if items != [] {
      ItemReads(items[0], lib, t);
      ItemsRead(items[1..], lib, t);
      ReadEventsAppend(ItemEvent(items[0], VERBATIM, t), ItemEvents(items[1..], VERBATIM, t), lib);
    }
  }

  /** The name of a list, as it is written. */
  function ListTag(d: XmpData, prefix: string): string {
    prefix + ":" + ElementName(d, prefix)
  }

  /** The elements that are open inside a list, and after it. */
  lemma ListOpens(d: XmpData, prefix: string, open: seq<string>, lib: Library, t: Tags)
    requires prefix in d.listItems && ReadsTags(lib) && Standard(t)
    ensures var name := ListTag(d, prefix);
            OpenAfter(open, ListEvents(d, prefix, VERBATIM, t), lib)
            == if lib.start(name, []).0 == name then Some(open) else None
  {
    var name, items := ListTag(d, prefix), ItemEvents(d.listItems[prefix], VERBATIM, t);
    var read := lib.start(name, []).0;
    var starts, ends := [Start(name, []), Start(t.bag, [])], [End(t.bag), End(name)];
    assert ProperTag(t.bag, []);
    ItemsClosed(d.listItems[prefix], lib, t);
    OpenAppend(open, starts + items, ends, lib);
    OpenAppend(open, starts, items, lib);
    OpenTwo(open, Start(name, []), Start(t.bag, []), lib);
    OpenOne(open, Start(name, []), lib);
    OpenOne(open + [read], Start(t.bag, []), lib);
    OpenTwo(open + [read] + [t.bag], End(t.bag), End(name), lib);
    OpenOne(open + [read] + [t.bag], End(t.bag), lib);
    assert (open + [read] + [t.bag])[..|open| + 1] == open + [read];
    OpenOne(open + [read], End(name), lib);
    assert (open + [read])[..|open|] == open;
  }

  /** Tags that are read as they are written. */
  lemma TagsRead(open: string, bag: string, lib: Library)
    requires ReadsTags(lib) && TagName(open) && TagName(bag)
    ensures ReadEvents([Start(open, []), Start(bag, [])], lib) == [Start(open, []), Start(bag, [])]
    ensures ReadEvents([End(bag), End(open)], lib) == [End(bag), End(open)]
  {
    assert ProperTag(open, []) && ProperTag(bag, []);
    ReadEventTwo(Start(open, []), Start(bag, []), lib);
    ReadEventTwo(End(bag), End(open), lib);
  }

  lemma ListReads(d: XmpData, prefix: string, lib: Library, t: Tags)
    requires prefix in d.listItems && ReadsTags(lib) && Standard(t) && TagName(ListTag(d, prefix))
    ensures ReadEvents(ListEvents(d, prefix, VERBATIM, t), lib) == ListEvents(d, prefix, lib, t)
  {
    var name, items := ListTag(d, prefix), ItemEvents(d.listItems[prefix], VERBATIM, t);
    var starts, ends := [Start(name, []), Start(t.bag, [])], [End(t.bag), End(name)];
    TagsRead(name, t.bag, lib);
    ItemsRead(d.listItems[prefix], lib, t);
    ReadEventsAppend(starts + items, ends, lib);
    ReadEventsAppend(starts, items, lib);
  }

  /** All names of lists are proper. */
  ghost predicate TagsProper(d: XmpData, lists: seq<string>) {
    forall p <- lists :: TagName(ListTag(d, p))
  }

  lemma {:induction false} ListsRead(d: XmpData, lists: seq<string>, lib: Library, t: Tags)
    requires (forall p <- lists :: p in d.listItems) && TagsProper(d, lists) && ReadsTags(lib) && Standard(t)
    ensures ReadEvents(ListsEvents(d, lists, VERBATIM, t), lib) == ListsEvents(d, lists, lib, t)
  {
    if lists != [] {
      ListReads(d, lists[0], lib, t);
      ListsRead(d, lists[1..], lib, t);
      ReadEventsAppend(ListEvents(d, lists[0], VERBATIM, t), ListsEvents(d, lists[1..], VERBATIM, t), lib);
    }
  }

  /** A list name is read as it is written if it is proper, and is not if it has white space in it. */
  ghost predicate Named(d: XmpData, lists: seq<string>, lib: Library) {
    forall p <- lists :: lib.start(ListTag(d, p), []).0 == ListTag(d, p)
  }

  lemma NamedMore(d: XmpData, lists: seq<string>, lib: Library)
    requires lists != []
    ensures Named(d, lists, lib)
       <==> lib.start(ListTag(d, lists[0]), []).0 == ListTag(d, lists[0]) && Named(d, lists[1..], lib)
  {
    assert lists == [lists[0]] + lists[1..];
  }

  lemma {:induction false} ListsOpen(d: XmpData, lists: seq<string>, open: seq<string>, lib: Library, t: Tags)
    requires (forall p <- lists :: p in d.listItems) && ReadsTags(lib) && Standard(t)
    ensures OpenAfter(open, ListsEvents(d, lists, VERBATIM, t), lib)
         == if Named(d, lists, lib) then Some(open) else None
  {
    if lists != [] {
      ListOpens(d, lists[0], open, lib, t);
      ListsOpen(d, lists[1..], open, lib, t);
      OpenAppend(open, ListEvents(d, lists[0], VERBATIM, t), ListsEvents(d, lists[1..], VERBATIM, t), lib);
      NamedMore(d, lists, lib);
    }
  }

  // ----- The attributes of the description -----

  lemma {:induction false} EscapedQuotable(s: string)
    ensures Quotable(AttrEscape(s))
  {
    if s != [] {
      assert s == [s[0]] + s[1..];
      AttrEscapeAppend([s[0]], s[1..]);
      EscapeOne(s[0]);
      EscapedQuotable(s[1..]);
    }
  }

  lemma DeclarationProper(prefix: string, uri: string)
    requires Proper(prefix)
    ensures ProperPair(Declaration(prefix, uri))
  {
    EscapedQuotable(uri);
    var xmlns := "xmlns:";
    forall c <- xmlns + prefix ensures NameChar(c) {
      assert c in xmlns || c in prefix;
    }
  }

  lemma DeclarationKey(p: string, uri: string, q: string, other: string)
    ensures Declaration(p, uri).0 == Declaration(q, other).0 ==> p == q
    ensures Declared(Declaration(p, uri).0) == Some(p)
  {
    assert ("xmlns:" + p)[6..] == p && ("xmlns:" + q)[6..] == q && ("xmlns:" + p)[..6] == "xmlns:";
  }

  /** A declaration of one of these prefixes. */
  predicate DeclaresOneOf(pair: (string, string), prefixes: seq<string>) {
    ProperPair(pair) && Declared(pair.0).Some? && Declared(pair.0).value in prefixes
  }

  ghost predicate DeclareOnce(decls: Pairs, prefixes: seq<string>) {
    KeysOnce(decls) && forall i | 0 <= i < |decls| :: DeclaresOneOf(decls[i], prefixes)
  }

  /** The declarations have the keys of the prefixes, each once. */
  lemma {:induction false} DeclsProper(d: XmpData, prefixes: seq<string>)
    requires Once(prefixes) && forall p <- prefixes :: Proper(p)
    ensures DeclareOnce(Decls(d, prefixes), prefixes)
  {
    if prefixes != [] {
      var p, rest := prefixes[0], Decls(d, prefixes[1..]);
      assert prefixes == [p] + prefixes[1..] && p !in prefixes[1..];
      DeclsProper(d, prefixes[1..]);
      match UriOf(d, p)
      case None =>
        assert [] + rest == rest;
        DeclaredMore([], rest, p, prefixes[1..]);
      case Some(uri) =>
        DeclarationProper(p, uri);
        DeclarationKey(p, uri, p, "");
        DeclaredMore([Declaration(p, uri)], rest, p, prefixes[1..]);
    }
  }

  lemma DeclaredMore(first: Pairs, rest: Pairs, p: string, prefixes: seq<string>)
    requires |first| <= 1 && DeclareOnce(rest, prefixes) && p !in prefixes
    requires forall pair <- first :: ProperPair(pair) && Declared(pair.0) == Some(p)
    ensures DeclareOnce(first + rest, [p] + prefixes)
  {
    forall i | 0 <= i < |first + rest| ensures DeclaresOneOf((first + rest)[i], [p] + prefixes) {
      assert i < |first| || DeclaresOneOf(rest[i - |first|], prefixes);
    }
    forall i | first != [] && 0 <= i < |rest| ensures rest[i].0 != first[0].0 {
      assert DeclaresOneOf(rest[i], prefixes) && first[0] in first;
    }
  }

  lemma LineKey(a: (string, string), b: (string, string))
    requires ':' !in a.0 && ':' !in b.0 && a.0 + ":" + a.1 == b.0 + ":" + b.1
    ensures a == b
  {
    QnameSplits(a.0, a.1);
    QnameSplits(b.0, b.1);
  }

  /** The attributes have their own keys, each once. */
  lemma {:induction false} LinesProper(d: XmpData, keys: Pairs)
    requires Once(keys) && forall k <- keys :: HasAttr(d, k) && Writable(d, k.0) && Proper(k.1)
    ensures KeysOnce(Lines(d, keys)) && |Lines(d, keys)| == |keys|
    ensures forall i | 0 <= i < |keys| ::
              Lines(d, keys)[i].0 == keys[i].0 + ":" + keys[i].1 && ProperPair(Lines(d, keys)[i])
  {
    if keys != [] {
      var (p, name) := keys[0];
      var rest := Lines(d, keys[1..]);
      LinesProper(d, keys[1..]);
      ProperName(p, name);
      EscapedQuotable(d.attrs[p][name]);
      assert Lines(d, keys) == [(p + ":" + name, AttrEscape(d.attrs[p][name]))] + rest;
      forall j | 0 <= j < |rest| ensures rest[j].0 != p + ":" + name {
        assert rest[j].0 == keys[j + 1].0 + ":" + keys[j + 1].1 && keys[j + 1] in keys;
        if rest[j].0 == p + ":" + name {
          LineKey(keys[j + 1], keys[0]);
        }
      }
    }
  }

  lemma DescriptionProper(d: XmpData, o: Order, t: Tags)
    requires Spelled(d) && Orders(o, d) && Standard(t)
    ensures ProperTag(t.description, Decls(d, o.prefixes) + Lines(d, o.attrs))
  {
    var decls, lines := Decls(d, o.prefixes), Lines(d, o.attrs);
    forall p <- o.prefixes ensures Proper(p) {
      assert Used(d, p) && Writable(d, p);
    }
    forall k <- o.attrs ensures Writable(d, k.0) && Proper(k.1) {
      assert HasAttr(d, k) && Used(d, k.0);
    }
    DeclsProper(d, o.prefixes);
    LinesProper(d, o.attrs);
    forall i, j | 0 <= i < |decls| && 0 <= j < |lines| ensures decls[i].0 != lines[j].0 {
      assert o.attrs[j] in o.attrs;
      NotDeclared(o.attrs[j].0, o.attrs[j].1);
    }
    KeysOnceBoth(decls, lines);
  }

  lemma KeysOnceBoth(a: Pairs, b: Pairs)
    requires KeysOnce(a) && KeysOnce(b)
    requires forall i, j | 0 <= i < |a| && 0 <= j < |b| :: a[i].0 != b[j].0
    ensures KeysOnce(a + b)
  {
  }

  lemma OpeningProper(t: Tags)
    requires Standard(t)
    ensures ProperTag(t.meta, [Declaration("x", t.metaUri)]) && ProperTag(t.rdf, [Declaration("rdf", t.rdfUri)])
  {
    DeclarationProper("x", t.metaUri);
    DeclarationProper("rdf", t.rdfUri);
  }

  // ----- The whole packet, as the library reads it -----

  /**
   The packet is read as it is written if its tags are proper; it is malformed exactly if
   an end tag does not match.
   */
  lemma WrittenReads(d: XmpData, o: Order, lib: Library, t: Tags)
    requires Spelled(d) && Orders(o, d) && ReadsTags(lib) && Standard(t)
    ensures OpenAfter([], SerializedAs(d, o, VERBATIM, t), lib).Some? <==> Named(d, o.lists, lib)
    ensures TagsProper(d, o.lists) ==>
              ReadEvents(SerializedAs(d, o, VERBATIM, t), lib) == SerializedAs(d, o, lib, t)
  {
    DescriptionProper(d, o, t);
    WrittenOpens(d, o, lib, t);
    if TagsProper(d, o.lists) {
      WrittenRead(d, o, lib, t);
    }
  }

  lemma OpenChain(open: seq<string>, a: seq<Event>, open1: seq<string>, rest: seq<Event>, lib: Library)
    requires OpenAfter(open, a, lib) == Some(open1)
    ensures OpenAfter(open, a + rest, lib) == OpenAfter(open1, rest, lib)
  {
    OpenAppend(open, a, rest, lib);
  }

  lemma WrittenOpens(d: XmpData, o: Order, lib: Library, t: Tags)
    requires Orders(o, d) && ReadsTags(lib) && Standard(t)
    requires ProperTag(t.description, Decls(d, o.prefixes) + Lines(d, o.attrs))
    ensures OpenAfter([], SerializedAs(d, o, VERBATIM, t), lib).Some? <==> Named(d, o.lists, lib)
  {
    var description, lists := [DescriptionEvent(d, o, t)], ListsEvents(d, o.lists, VERBATIM, t);
    var open2 := [t.meta, t.rdf];
    var open3 := open2 + [t.description];
    OpeningOpens(lib, t);
    OpenChain([], OpeningEvents(t), open2, description + (lists + ClosingEvents(t)), lib);
    OpenOne(open2, DescriptionEvent(d, o, t), lib);
    OpenChain(open2, description, open3, lists + ClosingEvents(t), lib);
    OpenAppend(open3, lists, ClosingEvents(t), lib);
    ListsOpen(d, o.lists, open3, lib, t);
    ClosingOpens(lib, t);
  }

  lemma OpeningOpens(lib: Library, t: Tags)
    requires ReadsTags(lib) && Standard(t)
    ensures OpenAfter([], OpeningEvents(t), lib) == Some([t.meta, t.rdf])
  {
    var meta, root := Start(t.meta, [Declaration("x", t.metaUri)]), Start(t.rdf, [Declaration("rdf", t.rdfUri)]);
    OpeningProper(t);
    OpenTwo([], meta, root, lib);
    OpenOne([], meta, lib);
    assert [] + [t.meta] == [t.meta];
    OpenOne([t.meta], root, lib);
    assert [t.meta] + [t.rdf] == [t.meta, t.rdf];
  }

  lemma ClosingOpens(lib: Library, t: Tags)
    ensures OpenAfter([t.meta, t.rdf] + [t.description], ClosingEvents(t), lib) == Some([])
  {
    var open1, open2 := [t.meta], [t.meta, t.rdf];
    var description, rest := [End(t.description)], [End(t.rdf), End(t.meta)];
    assert ClosingEvents(t) == description + rest;
    OpenOne(open2 + [t.description], End(t.description), lib);
    assert (open2 + [t.description])[..|open2|] == open2;
    OpenChain(open2 + [t.description], description, open2, rest, lib);
    OpenTwo(open2, End(t.rdf), End(t.meta), lib);
    OpenOne(open2, End(t.rdf), lib);
    assert open2[..1] == open1;
    OpenOne(open1, End(t.meta), lib);
    assert open1[..0] == [];
  }

  lemma ReadParts(a: seq<Event>, b: seq<Event>, c: seq<Event>, e: seq<Event>, lib: Library)
    ensures ReadEvents(a + (b + (c + e)), lib)
         == ReadEvents(a, lib) + (ReadEvents(b, lib) + (ReadEvents(c, lib) + ReadEvents(e, lib)))
  {
    ReadEventsAppend(a, b + (c + e), lib);
    ReadEventsAppend(b, c + e, lib);
    ReadEventsAppend(c, e, lib);
  }

  lemma WrittenRead(d: XmpData, o: Order, lib: Library, t: Tags)
    requires Orders(o, d) && ReadsTags(lib) && Standard(t) && TagsProper(d, o.lists)
    requires ProperTag(t.description, Decls(d, o.prefixes) + Lines(d, o.attrs))
    ensures ReadEvents(SerializedAs(d, o, VERBATIM, t), lib) == SerializedAs(d, o, lib, t)
  {
    var description, lists := [DescriptionEvent(d, o, t)], ListsEvents(d, o.lists, VERBATIM, t);
    ReadParts(OpeningEvents(t), description, lists, ClosingEvents(t), lib);
    OpeningRead(lib, t);
    ReadEventOne(DescriptionEvent(d, o, t), lib);
    ListsRead(d, o.lists, lib, t);
    ClosingRead(lib, t);
  }

  lemma OpeningRead(lib: Library, t: Tags)
    requires ReadsTags(lib) && Standard(t)
    ensures ReadEvents(OpeningEvents(t), lib) == OpeningEvents(t)
  {
    var meta, root := Start(t.meta, [Declaration("x", t.metaUri)]), Start(t.rdf, [Declaration("rdf", t.rdfUri)]);
    OpeningProper(t);
    ReadEventTwo(meta, root, lib);
  }

  lemma ClosingRead(lib: Library, t: Tags)
    ensures ReadEvents(ClosingEvents(t), lib) == ClosingEvents(t)
  {
    assert ClosingEvents(t) == [End(t.description)] + [End(t.rdf), End(t.meta)];
    ReadEventsAppend([End(t.description)], [End(t.rdf), End(t.meta)], lib);
    ReadEventOne(End(t.description), lib);
    ReadEventTwo(End(t.rdf), End(t.meta), lib);
  }

  // ----- What is read back -----

  ghost predicate SameView(d: XmpData, e: XmpData) {
    && (forall uri, local :: AttrAt(d, uri, local) == AttrAt(e, uri, local))
    && (forall uri :: ListAt(d, uri) == ListAt(e, uri))
  }

  /** The attributes are all read back, and the lists that are heard in time. */
  ghost predicate ReadBack(d: XmpData, lists: seq<string>, e: XmpData) {
    && (forall uri, local :: AttrAt(e, uri, local) == AttrAt(d, uri, local))
    && (forall uri :: ListAt(e, uri) == HeardList(d, lists, uri))
  }

  lemma ShownReadBack(d: XmpData, lists: seq<string>, w: View, e: XmpData)
    requires ShownOf(d, lists, w) && Shows(e, w)
    ensures ReadBack(d, lists, e)
  {
  }

  lemma TagsAreProper(d: XmpData, lists: seq<string>, lib: Library)
    requires (forall p <- lists :: ReadableList(d, p)) && ReadsTags(lib)
    ensures TagsProper(d, lists) && Named(d, lists, lib)
  {
    forall p <- lists ensures TagName(ListTag(d, p)) && lib.start(ListTag(d, p), []).0 == ListTag(d, p) {
      ProperName(p, ElementName(d, p));
      assert ProperTag(ListTag(d, p), []);
    }
  }

  /**
   Whatever packet is written, in whatever order: what is parsed shows every attribute, and
   each list but those named `li` and those that come too late, with each item as it is
   read.
   */
  lemma SerializedShows(d: XmpData, o: Order, lib: Library, numeric: Numeric, t: Tags)
    requires Spelled(d) && ReadableLists(d) && Orders(o, d) && ReadsXml(lib) && Standard(t)
    ensures ReadBack(d, o.lists, Reread(d, o, lib, numeric, t))
  {
    var events := SerializedAs(d, o, lib, t);
    TagsAreProper(d, o.lists, lib);
    WrittenReads(d, o, lib, t);
    SerializedAsMeans(d, o, lib, numeric, t);
    ParsedShows(events, false, numeric);
    ShownReadBack(d, o.lists, Meaning(events, false, numeric), Parsed(events, false, numeric));
  }

  lemma {:induction false} AllReadAsIff(items: seq<string>)
    requires forall item <- items :: Readable(item)
    ensures AllReadAs(items) == items <==> forall item <- items :: Plain(item)
  {
    if items != [] {
      ReadAsIff(items[0]);
      AllReadAsIff(items[1..]);
      assert items == [items[0]] + items[1..];
    }
  }

  /** The list is heard, comes in time, and has only items that survive. */
  ghost predicate Survives(d: XmpData, lists: seq<string>, p: string)
    requires p in d.listItems
  {
    Heard(d, p) && InTime(d, lists, p) && forall item <- d.listItems[p] :: Plain(item)
  }

  /** Every list with a URI survives. */
  ghost predicate AllSurvive(d: XmpData, lists: seq<string>) {
    forall p | p in d.listItems && UriOf(d, p).Some? :: Survives(d, lists, p)
  }

  lemma SameListIff(d: XmpData, lists: seq<string>, e: XmpData, p: string)
    requires Distinct(d) && ReadBack(d, lists, e) && ReadableLists(d) && p in d.listItems && UriOf(d, p).Some?
    ensures ListAt(d, UriOf(d, p).value) == ListAt(e, UriOf(d, p).value) <==> Survives(d, lists, p)
  {
    var uri := UriOf(d, p).value;
    OwnerIs(d, p, uri);
    assert ReadableList(d, p);
    AllReadAsIff(d.listItems[p]);
    assert ListAt(e, uri) == HeardList(d, lists, uri);
  }

  lemma SameIffSurvive(d: XmpData, lists: seq<string>, e: XmpData)
    requires Distinct(d) && ReadBack(d, lists, e) && ReadableLists(d)
    ensures SameView(d, e) <==> AllSurvive(d, lists)
  {
    forall p | p in d.listItems && UriOf(d, p).Some?
      ensures ListAt(d, UriOf(d, p).value) == ListAt(e, UriOf(d, p).value) <==> Survives(d, lists, p)
    {
      SameListIff(d, lists, e, p);
    }
    forall uri | AllSurvive(d, lists) ensures ListAt(e, uri) == ListAt(d, uri) {
      if ListAt(d, uri).Some? {
        assert Owns(d, Owner(d, uri).value, uri);
      }
    }
  }

  // ----- Names with white space in them -----

  lemma SpacedTag(d: XmpData, p: string)
    requires TagName(p) && Spaced(ElementName(d, p))
    ensures Spaced(ListTag(d, p))
  {
    var name, element := ListTag(d, p), ElementName(d, p);
    var c :| c in element && XmlSpace(c);
    assert name[|name| - 1] == element[|element| - 1] && c in name;
    forall x <- name ensures XmlSpace(x) || NameChar(x) {
      assert x in p || x in ":" || x in element;
    }
  }

  /** With such a list name the end tag does not match, and nothing at all is read back. */
  lemma SpacedLost(d: XmpData, o: Order, lib: Library, numeric: Numeric, t: Tags, p: string)
    requires Spelled(d) && Orders(o, d) && ReadsTags(lib) && NamesEnd(lib) && Standard(t)
    requires p in d.listItems && Spaced(ElementName(d, p))
    ensures Reread(d, o, lib, numeric, t) == EMPTY
  {
    assert Used(d, p) && Writable(d, p) && p in o.lists;
    SpacedTag(d, p);
    WrittenReads(d, o, lib, t);
  }

  predicate EventUnspaced(e: Event) {
    match e
    case Start(_, pairs) => UnspacedKeys(pairs)
    case Empty(_, pairs) => UnspacedKeys(pairs)
    case _ => true
  }

  ghost predicate AllUnspaced(events: seq<Event>) {
    forall e <- events :: EventUnspaced(e)
  }

  lemma {:induction false} TextsUnspaced(contents: seq<string>)
    ensures AllUnspaced(Texts(contents))
  {
    if contents != [] {
      TextsUnspaced(contents[1..]);
    }
  }

  /** Whatever is written, no name that is read has white space in it. */
  lemma {:induction false} ReadUnspaced(written: seq<Event>, lib: Library)
    requires NamesEnd(lib)
    ensures AllUnspaced(ReadEvents(written, lib))
  {
    if written != [] {
      ReadUnspaced(written[1..], lib);
      if written[0].Text? {
        TextsUnspaced(lib.text(written[0].content));
      }
    }
  }

  /** Attributes under names without white space. */
  predicate UnspacedView(v: View) {
    forall k <- v.attrs :: Unspaced(k.1)
  }

  lemma {:induction false} PutUnspaced(v: View, scope: Scope, pairs: Pairs, numeric: Numeric)
    requires UnspacedView(v) && UnspacedKeys(pairs)
    ensures UnspacedView(PutAttrs(v, scope, Ordinary(pairs, numeric)))
    decreases |pairs|
  {
    if pairs != [] {
      var (key, raw) := pairs[0];
      assert UnspacedKeys(pairs[1..]);
      if Declared(key).Some? {
        PutUnspaced(v, scope, pairs[1..], numeric);
      } else {
        var rest := Ordinary(pairs[1..], numeric);
        assert Ordinary(pairs, numeric)[1..] == rest;
        LocalUnspaced(key);
        PutUnspaced(PutAttr(v, scope, key, AttrValue(raw, numeric)), scope, pairs[1..], numeric);
      }
    }
  }

  lemma LocalUnspaced(key: string)
    requires Unspaced(key)
    ensures Unspaced(SplitQname(key).1)
  {
    forall c <- SplitQname(key).1 ensures !XmlSpace(c) {
      assert c in key;
    }
  }

  lemma StepUnspaced(r: Reader, e: Event, numeric: Numeric)
    requires UnspacedView(r.reading.view) && EventUnspaced(e)
    ensures UnspacedView(Read(r, e, numeric).reading.view)
  {
    if e.Start? || e.Empty? {
      PutUnspaced(r.reading.view, ScopeOf(Top(r.stack), e.pairs, numeric), e.pairs, numeric);
    }
  }

  lemma {:induction false} StepsUnspaced(r: Reader, events: seq<Event>, numeric: Numeric)
    requires UnspacedView(r.reading.view) && AllUnspaced(events)
    ensures UnspacedView(ReadAll(r, events, numeric).reading.view)
    decreases |events|
  {
    if events != [] {
      assert EventUnspaced(events[0]);
      StepUnspaced(r, events[0], numeric);
      StepsUnspaced(Read(r, events[0], numeric), events[1..], numeric);
    }
  }

  /** Whatever packet is written: an attribute with white space in its name is not read back. */
  lemma SpacedAttrLost(d: XmpData, o: Order, lib: Library, numeric: Numeric, t: Tags, uri: string, local: string)
    requires Orders(o, d) && NamesEnd(lib) && !Unspaced(local)
    ensures AttrAt(Reread(d, o, lib, numeric, t), uri, local) == None
  {
    var events, malformed := ReadEvents(Written(d, o, t), lib), OpenAfter([], Written(d, o, t), lib).None?;
    ReadUnspaced(Written(d, o, t), lib);
    StepsUnspaced(UNREAD, events, numeric);
    ParsedShows(events, malformed, numeric);
    assert UnspacedView(Meaning(events, malformed, numeric));
  }

  /** A name that is proper, or has white space in it; without a URI only a proper one. */
  predicate WritableAttr(d: XmpData, key: (string, string)) {
    Proper(key.1) || (NameLike(key.1) && !Unspaced(key.1) && UriOf(d, key.0).Some?)
  }

  /** Prefixes and attribute names that can be written, or have white space in them. */
  ghost predicate Spellable(d: XmpData) {
    && Distinct(d) && (forall p | Used(d, p) :: Writable(d, p))
    && forall k | HasAttr(d, k) :: WritableAttr(d, k)
  }

  ghost predicate ProperAttrs(d: XmpData) {
    forall k | HasAttr(d, k) :: Proper(k.1)
  }

  /** A list whose name is proper, or has white space in it, though not at its end. */
  predicate WritableList(d: XmpData, prefix: string) {
    && prefix in d.listItems && Writable(d, prefix)
    && (Proper(ElementName(d, prefix)) || Spaced(ElementName(d, prefix)))
    && forall item <- d.listItems[prefix] :: Readable(item)
  }

  ghost predicate WritableLists(d: XmpData) {
    forall p | p in d.listItems :: WritableList(d, p)
  }

  ghost predicate ProperLists(d: XmpData) {
    forall p | p in d.listItems :: Proper(ElementName(d, p))
  }

  lemma ProperReadable(d: XmpData)
    requires WritableLists(d) && ProperLists(d)
    ensures ReadableLists(d)
  {
    forall p | p in d.listItems ensures ReadableList(d, p) {
      assert WritableList(d, p);
    }
  }

  ghost predicate ShowsNothing(d: XmpData) {
    && (forall uri, local :: AttrAt(d, uri, local) == None)
    && (forall uri :: ListAt(d, uri) == None)
  }

  lemma EmptyShowsNothing()
    ensures ShowsNothing(EMPTY)
  {
  }

  lemma SameAsEmpty(d: XmpData)
    ensures SameView(d, EMPTY) <==> ShowsNothing(d)
  {
    EmptyShowsNothing();
  }

  /**
   So parsing what was written shows what was to be written exactly when no name has white
   space in it and all lists survive; otherwise only if there was nothing to show.
   */
  lemma ParseOfSerialize(d: XmpData, o: Order, lib: Library, numeric: Numeric, t: Tags)
    requires Spellable(d) && WritableLists(d) && Orders(o, d) && ReadsXml(lib) && Standard(t)
    ensures SameView(d, Reread(d, o, lib, numeric, t))
       <==> if ProperAttrs(d) && ProperLists(d) then AllSurvive(d, o.lists) else ShowsNothing(d)
  {
    if !ProperAttrs(d) {
      SpacedAttrsLost(d, o, lib, numeric, t);
    } else if ProperLists(d) {
      ProperReadable(d);
      SerializedShows(d, o, lib, numeric, t);
      SameIffSurvive(d, o.lists, Reread(d, o, lib, numeric, t));
    } else {
      var p :| p in d.listItems && !Proper(ElementName(d, p));
      assert WritableList(d, p);
      SpacedLost(d, o, lib, numeric, t, p);
      SameAsEmpty(d);
    }
  }

  lemma SpacedAttrsLost(d: XmpData, o: Order, lib: Library, numeric: Numeric, t: Tags)
    requires Spellable(d) && Orders(o, d) && NamesEnd(lib) && !ProperAttrs(d)
    ensures !SameView(d, Reread(d, o, lib, numeric, t)) && !ShowsNothing(d)
  {
    var k :| HasAttr(d, k) && !Proper(k.1);
    var uri := UriOf(d, k.0).value;
    assert WritableAttr(d, k);
    OwnerIs(d, k.0, uri);
    assert AttrAt(d, uri, k.1).Some?;
    SpacedAttrLost(d, o, lib, numeric, t, uri, k.1);
  }

  lemma ListShown(d: XmpData, p: string)
    requires Distinct(d) && p in d.listItems && UriOf(d, p).Some?
    ensures !ShowsNothing(d)
  {
    OwnerIs(d, p, UriOf(d, p).value);
    assert ListAt(d, UriOf(d, p).value).Some?;
  }

  lemma {:induction false} NoneLate(d: XmpData, lists: seq<string>, prefix: string)
    requires prefix in lists && forall p <- lists :: !EndsDescription(d, p)
    ensures InTime(d, lists, prefix)
  {
    if lists[0] != prefix {
      assert lists == [lists[0]] + lists[1..];
      NoneLate(d, lists[1..], prefix);
    }
  }

  /** No list is named `li`. */
  ghost predicate NoLi(d: XmpData) {
    forall p | p in d.listItems :: ElementName(d, p) != "li"
  }

  ghost predicate PlainItems(d: XmpData) {
    forall p | p in d.listItems :: AllPlain(d.listItems[p])
  }

  ghost predicate AllPlain(items: seq<string>) {
    forall item <- items :: Plain(item)
  }

  lemma SurvivesIf(d: XmpData, lists: seq<string>, p: string)
    requires p in d.listItems && UriOf(d, p).Some? && InTime(d, lists, p)
    ensures Survives(d, lists, p) <==> ElementName(d, p) != "li" && AllPlain(d.listItems[p])
  {
  }

  /**
   If every list has a URI, all that matters is that no name has white space in it, no list
   is named `li`, and all items are plain.
   */
  lemma LiIsLost(d: XmpData, o: Order, lib: Library, numeric: Numeric, t: Tags)
    requires Spellable(d) && WritableLists(d) && Orders(o, d) && ReadsXml(lib) && Standard(t)
    requires forall p | p in d.listItems :: UriOf(d, p).Some?
    ensures SameView(d, Reread(d, o, lib, numeric, t))
       <==> ProperAttrs(d) && ProperLists(d) && NoLi(d) && PlainItems(d)
  {
    ParseOfSerialize(d, o, lib, numeric, t);
    if !ProperAttrs(d) {
      SpacedAttrsLost(d, o, lib, numeric, t);
    } else if !ProperLists(d) {
      var p :| p in d.listItems && !Proper(ElementName(d, p));
      ListShown(d, p);
    } else {
      forall p | p in d.listItems
        ensures Survives(d, o.lists, p) <==> ElementName(d, p) != "li" && AllPlain(d.listItems[p])
      {
        NoneLate(d, o.lists, p);
        SurvivesIf(d, o.lists, p);
      }
    }
  }

  // ----- Packets that are not read back -----

  function OneList(p: string, value: ListValue): XmpData {
    XmpData(map[], map[p := value.items], map[p := value.element], map[])
  }

  function TwoLists(p: string, value: ListValue, q: string, other: ListValue): XmpData {
    XmpData(map[], map[p := value.items, q := other.items], map[p := value.element, q := other.element], map[])
  }

  lemma RegisteredWritable(d: XmpData, p: string)
    requires Registry.UriFor(p).Some? && d.namespaceUris == map[]
    ensures Writable(d, p) && UriOf(d, p) == Registry.UriFor(p)
  {
    RegisteredProper(p);
    var uri := Registry.UriFor(p).value;
    Registry.Inverse(p, uri);
    Registry.RegisteredNames(uri);
  }

  lemma OneListWritten(p: string, value: ListValue)
    requires Registry.UriFor(p).Some?
    ensures Spelled(OneList(p, value)) && Orders(Order([p], [], [p]), OneList(p, value))
    ensures UriOf(OneList(p, value), p).Some? && Writable(OneList(p, value), p)
  {
    var d := OneList(p, value);
    RegisteredWritable(d, p);
    assert forall q :: Used(d, q) <==> q == p;
  }

  /**
   A packet with one list of a registered prefix survives exactly when the list is not named
   `li` and its items are plain.
   */
  lemma OneListSurvives(p: string, value: ListValue, lib: Library, numeric: Numeric, t: Tags)
    requires Registry.UriFor(p).Some? && ReadsXml(lib) && Standard(t)
    requires Proper(value.element) && forall item <- value.items :: Readable(item)
    ensures Orders(Order([p], [], [p]), OneList(p, value))
    ensures SameView(OneList(p, value), Reread(OneList(p, value), Order([p], [], [p]), lib, numeric, t))
       <==> value.element != "li" && AllPlain(value.items)
  {
    var d := OneList(p, value);
    OneListWritten(p, value);
    assert ReadableList(d, p);
    LiIsLost(d, Order([p], [], [p]), lib, numeric, t);
    assert p in d.listItems && ElementName(d, p) == value.element && d.listItems[p] == value.items;
  }

  /** And one whose name has white space in it is lost. */
  lemma SpacedNameLost(p: string, value: ListValue, lib: Library, numeric: Numeric, t: Tags)
    requires Registry.UriFor(p).Some? && ReadsXml(lib) && Standard(t) && Spaced(value.element)
    ensures Orders(Order([p], [], [p]), OneList(p, value))
    ensures !SameView(OneList(p, value), Reread(OneList(p, value), Order([p], [], [p]), lib, numeric, t))
  {
    var d := OneList(p, value);
    OneListWritten(p, value);
    SpacedLost(d, Order([p], [], [p]), lib, numeric, t, p);
    SameAsEmpty(d);
    ListShown(d, p);
  }

  lemma TwoListsSpelled(p: string, value: ListValue, q: string, other: ListValue)
    requires Registry.UriFor(p).None? && Writable(EMPTY, p) && Registry.UriFor(q).Some?
    requires Proper(value.element) && Proper(other.element)
    requires (forall item <- value.items :: Readable(item)) && (forall item <- other.items :: Readable(item))
    ensures Spelled(TwoLists(p, value, q, other)) && ReadableLists(TwoLists(p, value, q, other))
  {
    var d := TwoLists(p, value, q, other);
    RegisteredWritable(d, q);
    assert forall r :: Used(d, r) <==> r == p || r == q;
    assert Writable(d, p);
  }

  lemma TwoListsOrders(p: string, value: ListValue, q: string, other: ListValue)
    requires p != q
    ensures Orders(Order([p, q], [], [p, q]), TwoLists(p, value, q, other))
  {
    assert forall r :: Used(TwoLists(p, value, q, other), r) <==> r == p || r == q;
  }

  /** A list without a URI that is named like the description takes the list after it along. */
  lemma LateListLost(p: string, q: string, value: ListValue, lib: Library, numeric: Numeric, t: Tags)
    requires Registry.UriFor(p).None? && Writable(EMPTY, p) && Registry.UriFor(q).Some?
    requires ReadsXml(lib) && Standard(t) && Proper(value.element) && forall item <- value.items :: Readable(item)
    ensures var (d, o) := (TwoLists(p, ListValue([], "Description"), q, value), Order([p, q], [], [p, q]));
            Orders(o, d) && !SameView(d, Reread(d, o, lib, numeric, t))
  {
    var late := ListValue([], "Description");
    var d := TwoLists(p, late, q, value);
    LocalsProper();
    TwoListsSpelled(p, late, q, value);
    TwoListsOrders(p, late, q, value);
    RegisteredWritable(d, q);
    assert EndsDescription(d, p) && q in d.listItems && !InTime(d, [p, q], q);
    SerializedShows(d, Order([p, q], [], [p, q]), lib, numeric, t);
    SameIffSurvive(d, [p, q], Reread(d, Order([p, q], [], [p, q]), lib, numeric, t));
  }

  lemma RegisteredProper(p: string)
    requires Registry.UriFor(p).Some?
    ensures TagName(p)
  {
  }
}
