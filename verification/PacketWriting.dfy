/** Writing a packet as XML, and reading back what was written. */
module PacketWriting {
  import opened Results
  import opened Packet
  import opened PacketMeaning
  import Registry

  // ----- Escaping is undone by unescaping -----

  lemma {:induction false} ReplaceAppend(a: string, b: string, c: char, with: string)
    ensures Replace(a + b, c, with) == Replace(a, c, with) + Replace(b, c, with)
  {
    if a == [] {
      assert a + b == b;
    } else {
      assert (a + b)[1..] == a[1..] + b;
      ReplaceAppend(a[1..], b, c, with);
    }
  }

  lemma {:induction false} NothingToReplace(s: string, c: char, with: string)
    requires c !in s
    ensures Replace(s, c, with) == s
  {
    if s != [] {
      NothingToReplace(s[1..], c, with);
    }
  }

  lemma AttrEscapeAppend(a: string, b: string)
    ensures AttrEscape(a + b) == AttrEscape(a) + AttrEscape(b)
  {
    ReplaceAppend(a, b, '&', "&amp;");
    var a1, b1 := Replace(a, '&', "&amp;"), Replace(b, '&', "&amp;");
    ReplaceAppend(a1, b1, '<', "&lt;");
    var a2, b2 := Replace(a1, '<', "&lt;"), Replace(b1, '<', "&lt;");
    ReplaceAppend(a2, b2, '>', "&gt;");
    ReplaceAppend(Replace(a2, '>', "&gt;"), Replace(b2, '>', "&gt;"), '"', "&quot;");
  }

  /** The name of the entity that stands for a character, if one does. */
  function EntityOf(c: char): Option<string> {
    if c == '&' then Some("amp")
    else if c == '<' then Some("lt")
    else if c == '>' then Some("gt")
    else if c == '"' then Some("quot")
    else None
  }

  lemma ReplaceOne(c: char, d: char, with: string)
    ensures Replace([c], d, with) == if c == d then with else [c]
  {
    assert [c][1..] == [];
    assert with + [] == with && [c] + [] == [c];
  }

  /** The last three replacements leave alone what has none of their characters. */
  lemma Untouched(s: string)
    requires '<' !in s && '>' !in s && '"' !in s
    ensures Replace(Replace(Replace(s, '<', "&lt;"), '>', "&gt;"), '"', "&quot;") == s
  {
    NothingToReplace(s, '<', "&lt;");
    NothingToReplace(s, '>', "&gt;");
    NothingToReplace(s, '"', "&quot;");
  }

  lemma UntouchedLast(s: string)
    requires '>' !in s && '"' !in s
    ensures Replace(Replace(s, '>', "&gt;"), '"', "&quot;") == s
  {
    NothingToReplace(s, '>', "&gt;");
    NothingToReplace(s, '"', "&quot;");
  }

  lemma EscapeAmpersand(c: char, name: string)
    requires c == '&' && name == "amp"
    ensures AttrEscape([c]) == "&" + name + ";"
  {
    ReplaceOne('&', '&', "&amp;");
    Untouched("&amp;");
  }

  lemma EscapeLess(c: char, name: string)
    requires c == '<' && name == "lt"
    ensures AttrEscape([c]) == "&" + name + ";"
  {
    ReplaceOne('<', '&', "&amp;");
    ReplaceOne('<', '<', "&lt;");
    UntouchedLast("&lt;");
  }

  lemma EscapeGreater(c: char, name: string)
    requires c == '>' && name == "gt"
    ensures AttrEscape([c]) == "&" + name + ";"
  {
    ReplaceOne('>', '&', "&amp;");
    ReplaceOne('>', '<', "&lt;");
    ReplaceOne('>', '>', "&gt;");
    NothingToReplace("&gt;", '"', "&quot;");
  }

  lemma EscapeQuote(c: char, name: string)
    requires c == '"' && name == "quot"
    ensures AttrEscape([c]) == "&" + name + ";"
  {
    ReplaceOne('"', '&', "&amp;");
    ReplaceOne('"', '<', "&lt;");
    ReplaceOne('"', '>', "&gt;");
    ReplaceOne('"', '"', "&quot;");
  }

  lemma EscapeOther(c: char)
    requires EntityOf(c).None?
    ensures AttrEscape([c]) == [c]
  {
    ReplaceOne(c, '&', "&amp;");
    Untouched([c]);
  }

  lemma EscapeOne(c: char)
    ensures AttrEscape([c]) == match EntityOf(c) { case None => [c] case Some(name) => "&" + name + ";" }
  {
    if EntityOf(c).None? {
      EscapeOther(c);
    } else {
      EscapeEntity(c, EntityOf(c).value);
    }
  }

  lemma EscapeEntity(c: char, name: string)
    requires EntityOf(c) == Some(name)
    ensures AttrEscape([c]) == "&" + name + ";"
  {
    if c == '&' {
      EscapeAmpersand(c, name);
    } else if c == '<' {
      EscapeLess(c, name);
    } else if c == '>' {
      EscapeGreater(c, name);
    } else {
      EscapeQuote(c, name);
    }
  }

  lemma {:induction false} FindSemicolon(name: string, rest: string)
    requires ';' !in name && '&' !in name
    ensures Semicolon(name + ";" + rest) == Some(|name|)
  {
    var s := name + ";" + rest;
    if name != [] {
      assert s[1..] == name[1..] + ";" + rest;
      FindSemicolon(name[1..], rest);
    }
  }

  lemma UnescapeReference(tail: string, k: nat, text: string, numeric: Numeric)
    requires Semicolon(tail) == Some(k) && Entity(tail[..k], numeric) == Some(text)
    requires Unescape(tail[k + 1..], numeric).Some?
    ensures Unescape(['&'] + tail, numeric) == Some(text + Unescape(tail[k + 1..], numeric).value)
  {
    assert (['&'] + tail)[1..] == tail;
  }

  lemma ReferenceParts(name: string, rest: string, tail: string)
    requires tail == name + ";" + rest
    ensures |tail| > |name| && tail[..|name|] == name && tail[|name| + 1..] == rest
  {
  }

  lemma UnescapeNamed(name: string, text: string, rest: string, numeric: Numeric)
    requires ';' !in name && '&' !in name && Entity(name, numeric) == Some(text) && Unescape(rest, numeric).Some?
    ensures Unescape("&" + name + ";" + rest, numeric) == Some(text + Unescape(rest, numeric).value)
  {
    var tail := name + ";" + rest;
    assert "&" + name + ";" + rest == ['&'] + tail;
    FindSemicolon(name, rest);
    ReferenceParts(name, rest, tail);
    UnescapeReference(tail, |name|, text, numeric);
  }

  lemma UnescapeEntity(c: char, rest: string, numeric: Numeric)
    requires EntityOf(c).Some? && Unescape(rest, numeric).Some?
    ensures Unescape("&" + EntityOf(c).value + ";" + rest, numeric) == Some([c] + Unescape(rest, numeric).value)
  {
    assert Entity(EntityOf(c).value, numeric) == Some([c]);
    UnescapeNamed(EntityOf(c).value, [c], rest, numeric);
  }

  /** Every attribute value comes back from its escaped form. */
  lemma {:induction false} UnescapeEscaped(s: string, numeric: Numeric)
    ensures Unescape(AttrEscape(s), numeric) == Some(s)
  {
    if s != [] {
      var rest := AttrEscape(s[1..]);
      assert s == [s[0]] + s[1..];
      AttrEscapeAppend([s[0]], s[1..]);
      EscapeOne(s[0]);
      UnescapeEscaped(s[1..], numeric);
      if EntityOf(s[0]).Some? {
        UnescapeEntity(s[0], rest, numeric);
      } else {
        assert ([s[0]] + rest)[1..] == rest;
      }
    }
  }

  // ----- Text that the library reads as it is written -----

  predicate XmlSpace(c: char) {
    c == ' ' || c == '\t' || c == '\n' || c == '\r'
  }

  /** No line end that is normalised. */
  predicate Readable(s: string) {
    forall c <- s :: c != '\r' && c != '\U{85}' && c != '\U{2028}'
  }

  /** A character that is written as a reference. */
  predicate Referred(c: char) {
    c == '&' || c == '<' || c == '>'
  }

  /** No line end that is normalised, no reference, no white space around it. */
  predicate Plain(s: string) {
    && Readable(s) && (forall c <- s :: !Referred(c))
    && (s != [] ==> !XmlSpace(s[0]) && !XmlSpace(s[|s| - 1]))
  }

  lemma PlainAppend(a: string, b: string)
    requires Plain(a) && Plain(b)
    ensures Plain(a + b)
  {
    var s := a + b;
    assert a != [] ==> s != [] && s[0] == a[0];
    assert b != [] ==> s != [] && s[|s| - 1] == b[|b| - 1];
    assert a == [] ==> s == b;
    assert b == [] ==> s == a;
  }

  /** The pieces of a text between references, the first one continuing `cur`. */
  function PiecesFrom(s: string, cur: string): seq<string>
    decreases |s|
  {
    if s == [] then [cur]
    else if Referred(s[0]) then [cur] + PiecesFrom(s[1..], [])
    else PiecesFrom(s[1..], cur + [s[0]])
  }

  function TrimFront(s: string): (r: string)
    ensures |r| <= |s|
  {
    if s != [] && XmlSpace(s[0]) then TrimFront(s[1..]) else s
  }

  function TrimBack(s: string): (r: string)
    ensures |r| <= |s|
  {
    if s != [] && XmlSpace(s[|s| - 1]) then TrimBack(s[..|s| - 1]) else s
  }

  function Trimmed(s: string): (r: string)
    ensures |r| <= |s|
  {
    TrimBack(TrimFront(s))
  }

  /** The pieces without white space around them, but for those that are empty then. */
  function TrimmedAll(pieces: seq<string>): seq<string> {
    if pieces == [] then []
    else (if Trimmed(pieces[0]) == [] then [] else [Trimmed(pieces[0])]) + TrimmedAll(pieces[1..])
  }

  function Concat(texts: seq<string>): string {
    if texts == [] then [] else texts[0] + Concat(texts[1..])
  }

  /** What a text is read back as: its pieces between references, without white space around each. */
  function ReadAs(s: string): string {
    Concat(TrimmedAll(PiecesFrom(s, [])))
  }

  /** How many references a text is written with. */
  function References(s: string): nat {
    if s == [] then 0 else (if Referred(s[0]) then 1 else 0) + References(s[1..])
  }

  lemma TrimmedMore(piece: string, rest: seq<string>)
    ensures |Concat(TrimmedAll([piece] + rest))| <= |piece| + |Concat(TrimmedAll(rest))|
  {
    assert ([piece] + rest)[1..] == rest;
    if Trimmed(piece) == [] {
      assert [] + TrimmedAll(rest) == TrimmedAll(rest);
    } else {
      assert ([Trimmed(piece)] + TrimmedAll(rest))[1..] == TrimmedAll(rest);
    }
  }

  lemma {:induction false} PiecesShorter(s: string, cur: string)
    ensures |Concat(TrimmedAll(PiecesFrom(s, cur)))| + References(s) <= |cur| + |s|
    decreases |s|
  {
    if s == [] {
      TrimmedMore(cur, []);
      assert [cur] + [] == [cur];
    } else if Referred(s[0]) {
      PiecesShorter(s[1..], []);
      TrimmedMore(cur, PiecesFrom(s[1..], []));
    } else {
      PiecesShorter(s[1..], cur + [s[0]]);
    }
  }

  lemma {:induction false} NoReferences(s: string, cur: string)
    ensures References(s) == 0 <==> forall c <- s :: !Referred(c)
    ensures References(s) == 0 ==> PiecesFrom(s, cur) == [cur + s]
    decreases |s|
  {
    if s == [] {
      assert cur + s == cur;
    } else {
      NoReferences(s[1..], cur + [s[0]]);
      assert cur + [s[0]] + s[1..] == cur + s && s == [s[0]] + s[1..];
    }
  }

  /** Trimming changes exactly what has white space around it. */
  lemma TrimmedSame(s: string)
    ensures Trimmed(s) == s <==> (s != [] ==> !XmlSpace(s[0]) && !XmlSpace(s[|s| - 1]))
  {
    if s != [] && XmlSpace(s[0]) {
      assert |TrimFront(s)| < |s|;
    }
  }

  /** A text survives exactly when it is plain. */
  lemma ReadAsIff(s: string)
    requires Readable(s)
    ensures ReadAs(s) == s <==> Plain(s)
  {
    PiecesShorter(s, []);
    NoReferences(s, []);
    if References(s) == 0 {
      assert [] + s == s && TrimmedAll([s][1..]) == [];
      assert Concat([Trimmed(s)]) == Trimmed(s);
      TrimmedSame(s);
    }
  }

  /** The XML library: the text events between two tags, and what it takes a start tag for. */
  datatype Library = Library(text: string -> seq<string>, start: (string, Pairs) -> (string, Pairs))

  ghost predicate ReadsText(lib: Library) {
    forall s | Readable(s) :: lib.text(TextEscape(s)) == TrimmedAll(PiecesFrom(s, []))
  }

  // ----- Names that the library reads as they are written -----

  predicate NameChar(c: char) {
    !XmlSpace(c) && c != '=' && c != '/' && c != '<' && c != '>' && c != '"' && c != '\''
  }

  predicate Proper(s: string) {
    forall c <- s :: NameChar(c)
  }

  /** What may follow an opening angle bracket. */
  predicate TagName(s: string) {
    Proper(s) && s != [] && s[0] != '!' && s[0] != '?'
  }

  predicate Quotable(value: string) {
    '<' !in value && '"' !in value
  }

  predicate KeysOnce(pairs: Pairs) {
    forall i, j | 0 <= i < j < |pairs| :: pairs[i].0 != pairs[j].0
  }

  predicate ProperPair(pair: (string, string)) {
    pair.0 != [] && Proper(pair.0) && Quotable(pair.1)
  }

  /** A start tag that is read as it is written. */
  predicate ProperTag(name: string, pairs: Pairs) {
    TagName(name) && KeysOnce(pairs) && forall i | 0 <= i < |pairs| :: ProperPair(pairs[i])
  }

  ghost predicate ReadsTags(lib: Library) {
    forall name, pairs | ProperTag(name, pairs) :: lib.start(name, pairs) == (name, pairs)
  }

  predicate Unspaced(s: string) {
    forall c <- s :: !XmlSpace(c)
  }

  /** A name ends at white space, whatever is written. */
  ghost predicate NamesEnd(lib: Library) {
    forall name, pairs :: Unspaced(lib.start(name, pairs).0) && UnspacedKeys(lib.start(name, pairs).1)
  }

  predicate UnspacedKeys(pairs: Pairs) {
    forall i | 0 <= i < |pairs| :: Unspaced(pairs[i].0)
  }

  ghost predicate ReadsXml(lib: Library) {
    ReadsText(lib) && ReadsTags(lib) && NamesEnd(lib)
  }

  /** The pieces of what was written, if it was a text. */
  ghost function PiecesOf(written: string): seq<string> {
    if s: string :| Readable(s) && TextEscape(s) == written then TrimmedAll(PiecesFrom(s, [])) else []
  }

  function TagOf(name: string, pairs: Pairs): (string, Pairs) {
    if ProperTag(name, pairs) then (name, pairs) else ("", [])
  }

  lemma TextEscapeInjective(s: string, u: string)
    requires TextEscape(s) == TextEscape(u)
    ensures s == u
  {
    UnescapeEscaped(s, _ => None);
    UnescapeEscaped(u, _ => None);
  }

  /** All this can be had at once. */
  lemma {:induction false} LibraryExists() returns (lib: Library)
    ensures ReadsXml(lib)
  {
    lib := Library(PiecesOf, TagOf);
    forall s | Readable(s) ensures lib.text(TextEscape(s)) == TrimmedAll(PiecesFrom(s, [])) {
      var u: string :|
        Readable(u) && TextEscape(u) == TextEscape(s) && PiecesOf(TextEscape(s)) == TrimmedAll(PiecesFrom(u, []));
      TextEscapeInjective(s, u);
    }
  }

  /** Proper but for white space. */
  predicate NameLike(s: string) {
    forall c <- s :: XmlSpace(c) || NameChar(c)
  }

  /** A name with white space in it, though not at its end. */
  predicate Spaced(s: string) {
    s != [] && !XmlSpace(s[|s| - 1]) && NameLike(s) && !Unspaced(s)
  }

  // ----- The XML of a packet -----

  /** The order in which prefixes, attributes and lists are written. */
  datatype Order = Order(prefixes: seq<string>, attrs: Pairs, lists: seq<string>)

  predicate Once<T(==)>(s: seq<T>) {
    forall i, j | 0 <= i < j < |s| :: s[i] != s[j]
  }

  /** Every prefix, attribute and list comes once. */
  ghost predicate Orders(o: Order, d: XmpData) {
    && Once(o.prefixes) && Once(o.attrs) && Once(o.lists)
    && (forall p :: p in o.prefixes <==> Used(d, p))
    && (forall k :: k in o.attrs <==> HasAttr(d, k))
    && (forall p :: p in o.lists <==> p in d.listItems)
  }

  predicate HasAttr(d: XmpData, key: (string, string)) {
    key.0 in d.attrs && key.1 in d.attrs[key.0]
  }

  function Decls(d: XmpData, prefixes: seq<string>): Pairs {
    if prefixes == [] then []
    else
      (match UriOf(d, prefixes[0])
       case None => []
       case Some(uri) => [Declaration(prefixes[0], uri)])
      + Decls(d, prefixes[1..])
  }

  function Lines(d: XmpData, keys: Pairs): Pairs
    requires forall k <- keys :: HasAttr(d, k)
  {
    if keys == [] then []
    else
      assert HasAttr(d, keys[0]);
      var (p, name) := keys[0];
      [(p + ":" + name, AttrEscape(d.attrs[p][name]))] + Lines(d, keys[1..])
  }

  function Texts(contents: seq<string>): seq<Event> {
    if contents == [] then [] else [Text(contents[0])] + Texts(contents[1..])
  }

  /** The element names that every packet has. */
  datatype Tags = Tags(meta: string, rdf: string, description: string, bag: string, item: string,
                       metaUri: string, rdfUri: string)

  const TAGS := Tags("x:xmpmeta", "rdf:RDF", "rdf:Description", "rdf:Bag", "rdf:li",
                     "adobe:ns:meta/", "http://www.w3.org/1999/02/22-rdf-syntax-ns#")

  predicate Standard(t: Tags) {
    && TagName(t.meta) && TagName(t.rdf) && TagName(t.description) && TagName(t.bag) && TagName(t.item)
    && SplitQname(t.meta) == ("x", "xmpmeta")
    && SplitQname(t.rdf) == ("rdf", "RDF")
    && SplitQname(t.description) == ("rdf", "Description")
    && SplitQname(t.bag) == ("rdf", "Bag")
    && SplitQname(t.item) == ("rdf", "li")
  }

  function ItemEvent(item: string, lib: Library, t: Tags): seq<Event> {
    [Start(t.item, [])] + Texts(lib.text(TextEscape(item))) + [End(t.item)]
  }

  function ItemEvents(items: seq<string>, lib: Library, t: Tags): seq<Event> {
    if items == [] then [] else ItemEvent(items[0], lib, t) + ItemEvents(items[1..], lib, t)
  }

  function ListEvents(d: XmpData, prefix: string, lib: Library, t: Tags): seq<Event>
    requires prefix in d.listItems
  {
    var name := prefix + ":" + ElementName(d, prefix);
    [Start(name, []), Start(t.bag, [])] + ItemEvents(d.listItems[prefix], lib, t) + [End(t.bag), End(name)]
  }

  function ListsEvents(d: XmpData, lists: seq<string>, lib: Library, t: Tags): seq<Event>
    requires forall p <- lists :: p in d.listItems
  {
    if lists == [] then [] else ListEvents(d, lists[0], lib, t) + ListsEvents(d, lists[1..], lib, t)
  }

  function Declaration(prefix: string, uri: string): (string, string) {
    ("xmlns:" + prefix, AttrEscape(uri))
  }

  function OpeningEvents(t: Tags): seq<Event> {
    [Start(t.meta, [Declaration("x", t.metaUri)]), Start(t.rdf, [Declaration("rdf", t.rdfUri)])]
  }

  function ClosingEvents(t: Tags): seq<Event> {
    [End(t.description), End(t.rdf), End(t.meta)]
  }

  function DescriptionEvent(d: XmpData, o: Order, t: Tags): Event
    requires forall k <- o.attrs :: HasAttr(d, k)
  {
    Start(t.description, Decls(d, o.prefixes) + Lines(d, o.attrs))
  }

  ghost function SerializedAs(d: XmpData, o: Order, lib: Library, t: Tags): seq<Event>
    requires Orders(o, d)
  {
    OpeningEvents(t) + ([DescriptionEvent(d, o, t)] + (ListsEvents(d, o.lists, lib, t) + ClosingEvents(t)))
  }

  /** What would give back everything as it is written. */
  const VERBATIM := Library(s => [s], (name, pairs) => (name, pairs))

  /** The tags and texts that are written for `d`. */
  ghost function Written(d: XmpData, o: Order, t: Tags): seq<Event>
    requires Orders(o, d)
  {
    SerializedAs(d, o, VERBATIM, t)
  }

  // ----- The attributes are read back -----

  /** A prefix that can be written in front of a name. */
  predicate Writable(d: XmpData, prefix: string) {
    && prefix !in ["", "rdf", "xmlns"] && ':' !in prefix && TagName(prefix)
    && (UriOf(d, prefix).None? ==> prefix != "x")
  }

  lemma QnameSplits(prefix: string, local: string)
    requires ':' !in prefix
    ensures SplitQname(prefix + ":" + local) == (prefix, local)
  {
    var name := prefix + ":" + local;
    assert name[|prefix|] == ':';
    var k := Colon(name);
    assert forall i | 0 <= i < |prefix| :: name[i] == prefix[i];
    assert forall i | 0 <= i < k :: name[i] == name[..k][i];
    assert name[..|prefix|] == prefix && name[|prefix| + 1..] == local;
  }

  lemma NotDeclared(prefix: string, local: string)
    requires ':' !in prefix && prefix != "xmlns"
    ensures Declared(prefix + ":" + local).None?
  {
    var name := prefix + ":" + local;
    assert name[|prefix|] == ':' && ':' !in "xmlns";
    if |name| >= 6 && name[..6] == "xmlns:" {
      XmlnsFirst(name, prefix);
    }
  }

  lemma XmlnsFirst(name: string, prefix: string)
    requires |name| >= 6 && name[..6] == "xmlns:"
    requires |prefix| < |name| && name[..|prefix|] == prefix && name[|prefix|] == ':' && ':' !in prefix
    ensures prefix == "xmlns"
  {
    var xmlns := "xmlns:";
    assert xmlns[5] == ':' && xmlns[..5] == "xmlns" && forall i | 0 <= i < 5 :: xmlns[i] != ':';
    assert forall i | 0 <= i < 6 :: name[i] == xmlns[i];
    assert forall i | 0 <= i < |prefix| :: name[i] == prefix[i];
    assert prefix == xmlns[..5];
  }

  lemma {:induction false} ScopeAppend(outer: Scope, a: Pairs, b: Pairs, numeric: Numeric)
    ensures ScopeOf(outer, a + b, numeric) == ScopeOf(ScopeOf(outer, a, numeric), b, numeric)
    ensures Ordinary(a + b, numeric) == Ordinary(a, numeric) + Ordinary(b, numeric)
    decreases |a|
  {
    if a == [] {
      assert a + b == b;
    } else {
      assert (a + b)[1..] == a[1..] + b;
      var (key, raw) := a[0];
      match Declared(key)
      case None => ScopeAppend(outer, a[1..], b, numeric);
      case Some(p) => ScopeAppend(outer[p := AttrValue(raw, numeric)], a[1..], b, numeric);
    }
  }

  lemma DeclareOne(outer: Scope, prefix: string, uri: string, numeric: Numeric)
    ensures ScopeOf(outer, [Declaration(prefix, uri)], numeric) == outer[prefix := uri]
    ensures Ordinary([Declaration(prefix, uri)], numeric) == []
  {
    var (key, raw) := Declaration(prefix, uri);
    assert key[..6] == "xmlns:" && key[6..] == prefix;
    UnescapeEscaped(uri, numeric);
    assert [(key, raw)][1..] == [];
  }

  function DeclaredAt(d: XmpData, prefixes: seq<string>, outer: Scope, p: string): Option<string> {
    if p in prefixes && UriOf(d, p).Some? then UriOf(d, p) else Get(outer, p)
  }

  lemma DeclaredStep(d: XmpData, prefixes: seq<string>, outer: Scope, p: string)
    requires prefixes != []
    ensures DeclaredAt(d, prefixes, outer, p)
         == DeclaredAt(d, prefixes[1..],
                       match UriOf(d, prefixes[0]) {
                         case None => outer
                         case Some(uri) => outer[prefixes[0] := uri]
                       }, p)
  {
    assert prefixes == [prefixes[0]] + prefixes[1..];
  }

  /** The declarations bring each prefix into scope with its URI. */
  lemma {:induction false} DeclsScope(d: XmpData, prefixes: seq<string>, outer: Scope, p: string, numeric: Numeric)
    ensures Get(ScopeOf(outer, Decls(d, prefixes), numeric), p) == DeclaredAt(d, prefixes, outer, p)
    decreases |prefixes|
  {
    if prefixes != [] {
      var rest := Decls(d, prefixes[1..]);
      DeclaredStep(d, prefixes, outer, p);
      match UriOf(d, prefixes[0])
      case None =>
        assert [] + rest == rest;
        DeclsScope(d, prefixes[1..], outer, p, numeric);
      case Some(uri) =>
        ScopeAppend(outer, [Declaration(prefixes[0], uri)], rest, numeric);
        DeclareOne(outer, prefixes[0], uri, numeric);
        DeclsScope(d, prefixes[1..], outer[prefixes[0] := uri], p, numeric);
    }
  }

  /** The declarations are not attributes. */
  lemma {:induction false} DeclsOrdinary(d: XmpData, prefixes: seq<string>, numeric: Numeric)
    ensures Ordinary(Decls(d, prefixes), numeric) == []
    decreases |prefixes|
  {
    if prefixes != [] {
      var rest := Decls(d, prefixes[1..]);
      DeclsOrdinary(d, prefixes[1..], numeric);
      match UriOf(d, prefixes[0])
      case None =>
        assert [] + rest == rest;
      case Some(uri) =>
        ScopeAppend(map[], [Declaration(prefixes[0], uri)], rest, numeric);
        DeclareOne(map[], prefixes[0], uri, numeric);
    }
  }

  /** The attributes as they are read: no longer escaped. */
  function Plainly(d: XmpData, keys: Pairs): Pairs
    requires forall k <- keys :: HasAttr(d, k)
  {
    if keys == [] then []
    else
      assert HasAttr(d, keys[0]);
      [(keys[0].0 + ":" + keys[0].1, d.attrs[keys[0].0][keys[0].1])] + Plainly(d, keys[1..])
  }

  lemma {:induction false} LinesOrdinary(d: XmpData, keys: Pairs, outer: Scope, numeric: Numeric)
    requires forall k <- keys :: HasAttr(d, k) && Writable(d, k.0)
    ensures ScopeOf(outer, Lines(d, keys), numeric) == outer
    ensures Ordinary(Lines(d, keys), numeric) == Plainly(d, keys)
    decreases |keys|
  {
    if keys != [] {
      var (p, name) := keys[0];
      NotDeclared(p, name);
      UnescapeEscaped(d.attrs[p][name], numeric);
      assert Lines(d, keys)[1..] == Lines(d, keys[1..]);
      LinesOrdinary(d, keys[1..], outer, numeric);
    }
  }

  /** What the attributes among `keys` add to a view. */
  ghost predicate Gained(d: XmpData, keys: Pairs, v: View, w: View) {
    && w.lists == v.lists
    && forall uri, local :: Get(w.attrs, (uri, local)) == GainedAt(d, keys, v, uri, local)
  }

  ghost function GainedAt(d: XmpData, keys: Pairs, v: View, uri: string, local: string): Option<string> {
    match Owner(d, uri)
    case None => Get(v.attrs, (uri, local))
    case Some(p) =>
      if (p, local) in keys && HasAttr(d, (p, local)) then Some(d.attrs[p][local]) else Get(v.attrs, (uri, local))
  }

  lemma {:induction false} LinesGain(d: XmpData, keys: Pairs, scope: Scope, v: View)
    requires Distinct(d)
    requires forall k <- keys :: HasAttr(d, k) && Writable(d, k.0) && Get(scope, k.0) == UriOf(d, k.0)
    ensures Gained(d, keys, v, PutAttrs(v, scope, Plainly(d, keys)))
    decreases |keys|
  {
    if keys != [] {
      var (p, name) := keys[0];
      QnameSplits(p, name);
      var v1 := PutAttr(v, scope, p + ":" + name, d.attrs[p][name]);
      LineGains(d, keys[0], scope, v);
      LinesGain(d, keys[1..], scope, v1);
      var w := PutAttrs(v1, scope, Plainly(d, keys[1..]));
      assert Plainly(d, keys)[1..] == Plainly(d, keys[1..]);
      forall uri, local ensures GainedAt(d, keys[1..], v1, uri, local) == GainedAt(d, keys, v, uri, local) {
        assert Get(v1.attrs, (uri, local)) == GainedAt(d, [keys[0]], v, uri, local);
      }
    }
  }

  lemma LineGains(d: XmpData, key: (string, string), scope: Scope, v: View)
    requires Distinct(d) && HasAttr(d, key) && Writable(d, key.0) && Get(scope, key.0) == UriOf(d, key.0)
    ensures Gained(d, [key], v, PutAttr(v, scope, key.0 + ":" + key.1, d.attrs[key.0][key.1]))
  {
    var (p, name) := key;
    var w := PutAttr(v, scope, p + ":" + name, d.attrs[p][name]);
    QnameSplits(p, name);
    forall uri, local ensures Get(w.attrs, (uri, local)) == GainedAt(d, [key], v, uri, local) {
      if UriOf(d, p).Some? {
        OwnerIs(d, p, UriOf(d, p).value);
      }
    }
  }

  // ----- The lists are read back -----

  lemma {:induction false} ReadAppend(r: Reader, a: seq<Event>, b: seq<Event>, numeric: Numeric)
    ensures ReadAll(r, a + b, numeric) == ReadAll(ReadAll(r, a, numeric), b, numeric)
    decreases |a|
  {
    if a == [] {
      assert a + b == b;
    } else {
      assert (a + b)[1..] == a[1..] + b;
      ReadAppend(Read(r, a[0], numeric), a[1..], b, numeric);
    }
  }

  lemma ReadOne(r: Reader, e: Event, numeric: Numeric)
    ensures ReadAll(r, [e], numeric) == Read(r, e, numeric)
  {
    assert [e][1..] == [];
  }

  lemma ReadChain(r: Reader, a: seq<Event>, r1: Reader, b: seq<Event>, r2: Reader, numeric: Numeric)
    requires ReadAll(r, a, numeric) == r1 && ReadAll(r1, b, numeric) == r2
    ensures ReadAll(r, a + b, numeric) == r2
  {
    ReadAppend(r, a, b, numeric);
  }

  lemma ReadThree(r: Reader, a: seq<Event>, r1: Reader, b: seq<Event>, r2: Reader, c: seq<Event>, r3: Reader,
                  numeric: Numeric)
    requires ReadAll(r, a, numeric) == r1 && ReadAll(r1, b, numeric) == r2 && ReadAll(r2, c, numeric) == r3
    ensures ReadAll(r, a + b + c, numeric) == r3
  {
    ReadChain(r, a, r1, b, r2, numeric);
    ReadChain(r, a + b, r2, c, r3, numeric);
  }

  /** Inside a description, with no list open. */
  const INSIDE := FRESH.(inDescription := true)

  /** Between two lists. A list that is open still can only be one named `li`. */
  predicate Between(s: ParseState, inside: bool) {
    s.inDescription == inside && !s.inLi && s.liText == "" && (s.list.Some? ==> s.list.value.local == "li")
  }

  /** Inside a list of which `items` have been read. */
  function Listing(uri: string, element: string, items: seq<string>): ParseState {
    INSIDE.(list := Some(Open(uri, element)), items := items)
  }

  /** What items do to a state. */
  function WithItems(s: ParseState, items: seq<string>): ParseState {
    if items == [] then s else s.(items := s.items + items, inLi := false, liText := "")
  }

  lemma ReadItem(v: View, s: ParseState, item: string, stack: seq<Scope>, lib: Library, numeric: Numeric, t: Tags)
    requires stack != [] && Readable(item) && ReadsText(lib) && Standard(t)
    ensures ReadAll(Reader(Reading(v, s), stack), ItemEvent(item, lib, t), numeric)
         == Reader(Reading(v, WithItems(s, [ReadAs(item)])), stack)
  {
    var r := Reader(Reading(v, s), stack);
    var texts := lib.text(TextEscape(item));
    var r1 := Reader(Reading(v, OpenItem(s)), stack + [Top(stack)]);
    ReadOne(r, Start(t.item, []), numeric);
    assert Kind(s, t.item, Top(stack)) == Item;
    ReadTexts(r1, texts, numeric);
    assert "" + Concat(texts) == Concat(texts);
    var r2 := r1.(reading := r1.reading.(state := r1.reading.state.(liText := Concat(texts))));
    ReadOne(r2, End(t.item), numeric);
    assert Popped(stack + [Top(stack)]) == stack;
    var r3 := Reader(Reading(v, WithItems(s, [ReadAs(item)])), stack);
    ReadThree(r, [Start(t.item, [])], r1, Texts(texts), r2, [End(t.item)], r3, numeric);
  }

  lemma {:induction false} ReadTexts(r: Reader, texts: seq<string>, numeric: Numeric)
    requires r.reading.state.inLi
    ensures ReadAll(r, Texts(texts), numeric)
         == r.(reading := r.reading.(state := r.reading.state.(liText := r.reading.state.liText + Concat(texts))))
    decreases |texts|
  {
    var before := r.reading.state.liText;
    if texts == [] {
      assert before + [] == before;
    } else {
      assert before + texts[0] + Concat(texts[1..]) == before + Concat(texts);
      assert Texts(texts)[1..] == Texts(texts[1..]);
      ReadTexts(Read(r, Text(texts[0]), numeric), texts[1..], numeric);
    }
  }

  function AllReadAs(items: seq<string>): seq<string> {
    if items == [] then [] else [ReadAs(items[0])] + AllReadAs(items[1..])
  }

  lemma WithItemsMore(s: ParseState, item: string, items: seq<string>)
    ensures WithItems(WithItems(s, [item]), items) == WithItems(s, [item] + items)
  {
    assert s.items + [item] + items == s.items + ([item] + items);
    assert [item] + [] == [item];
  }

  lemma {:induction false} ReadItems(v: View, s: ParseState, items: seq<string>,
                                     stack: seq<Scope>, lib: Library, numeric: Numeric, t: Tags)
    requires stack != [] && (forall item <- items :: Readable(item)) && ReadsText(lib) && Standard(t)
    ensures ReadAll(Reader(Reading(v, s), stack), ItemEvents(items, lib, t), numeric)
         == Reader(Reading(v, WithItems(s, AllReadAs(items))), stack)
    decreases |items|
  {
    if items != [] {
      var more := WithItems(s, [ReadAs(items[0])]);
      WithItemsMore(s, ReadAs(items[0]), AllReadAs(items[1..]));
      ReadItem(v, s, items[0], stack, lib, numeric, t);
      ReadItems(v, more, items[1..], stack, lib, numeric, t);
      ReadChain(Reader(Reading(v, s), stack), ItemEvent(items[0], lib, t),
                Reader(Reading(v, more), stack), ItemEvents(items[1..], lib, t),
                Reader(Reading(v, WithItems(s, AllReadAs(items))), stack), numeric);
    }
  }

  function WithListValue(v: View, uri: string, value: ListValue): View {
    v.(lists := v.lists[uri := value])
  }

  lemma ReadTwo(r: Reader, a: Event, b: Event, numeric: Numeric)
    ensures ReadAll(r, [a, b], numeric) == Read(Read(r, a, numeric), b, numeric)
  {
    assert [a, b] == [a] + [b];
    ReadAppend(r, [a], [b], numeric);
    ReadOne(r, a, numeric);
    ReadOne(Read(r, a, numeric), b, numeric);
  }

  /** The state after the tag that starts a list, if `uri` is what its prefix stands for. */
  function AfterStart(s: ParseState, uri: Option<string>, element: string): ParseState {
    if s.inDescription then
      if uri.Some? then OpenList(s, uri.value, element) else s
    else if element == "li" then OpenItem(s)
    else s
  }

  /** The start tags of a list, in any state. */
  lemma ReadStarts(v: View, s: ParseState, prefix: string, element: string, uri: Option<string>, name: string,
                   stack: seq<Scope>, numeric: Numeric, t: Tags)
    requires stack != [] && Standard(t) && Get(Top(stack), prefix) == uri
    requires SplitQname(name) == (prefix, element) && prefix != "" && prefix != "rdf"
    ensures ReadAll(Reader(Reading(v, s), stack), [Start(name, []), Start(t.bag, [])], numeric)
         == Reader(Reading(v, AfterStart(s, uri, element)), stack + [Top(stack)] + [Top(stack)])
  {
    var r := Reader(Reading(v, s), stack);
    ReadTwo(r, Start(name, []), Start(t.bag, []), numeric);
    var r1 := Reader(Reading(v, AfterStart(s, uri, element)), stack + [Top(stack)]);
    assert Read(r, Start(name, []), numeric) == r1;
    assert Kind(r1.reading.state, t.bag, Top(stack)) == Nothing;
  }

  /** The end tags of a list, in any state. */
  lemma ReadEnds(r: Reading, r': Reading, name: string, stack: seq<Scope>, numeric: Numeric, t: Tags)
    requires stack != [] && Standard(t) && MeantEnd(MeantEnd(r, t.bag), name) == r'
    ensures ReadAll(Reader(r, stack + [Top(stack)] + [Top(stack)]), [End(t.bag), End(name)], numeric)
         == Reader(r', stack)
  {
    var inner := stack + [Top(stack)];
    ReadTwo(Reader(r, inner + [Top(stack)]), End(t.bag), End(name), numeric);
    assert Popped(inner + [Top(stack)]) == inner && Popped(inner) == stack;
  }

  /** A list that is listened to is kept; one named like the bag is closed a tag early. */
  lemma EndListed(v: View, uri: string, element: string, items: seq<string>, name: string, t: Tags)
    requires SplitQname(name).1 == element && element != "li" && Standard(t)
    ensures MeantEnd(MeantEnd(Reading(v, Listing(uri, element, items)), t.bag), name)
         == Reading(WithListValue(v, uri, ListValue(items, element)), INSIDE)
  {
    var r := Reading(v, Listing(uri, element, items));
    var closed := Reading(WithListValue(v, uri, ListValue(items, element)), INSIDE);
    assert MeantEnd(r, t.bag) == if element == "Bag" then closed else r;
    if element == "Bag" {
      assert MeantEnd(closed, name) == closed;
    }
  }

  /** The end tag of a list named `li` is taken for that of an item, and the list stays open. */
  lemma EndLi(v: View, uri: string, items: seq<string>, name: string, t: Tags)
    requires SplitQname(name).1 == "li" && Standard(t)
    ensures var r := MeantEnd(MeantEnd(Reading(v, Listing(uri, "li", items)), t.bag), name);
            r.view == v && Between(r.state, true)
  {
    var r := Reading(v, Listing(uri, "li", items));
    assert MeantEnd(r, t.bag) == r;
  }

  /** The end tag of a list that is not listened to may be taken for that of the description. */
  lemma EndIgnored(v: View, s: ParseState, inside: bool, element: string, items: seq<string>, name: string, t: Tags)
    requires SplitQname(name).1 == element && Standard(t) && Between(s, inside)
    ensures var s1 := if !inside && element == "li" then OpenItem(s) else s;
            var r := MeantEnd(MeantEnd(Reading(v, WithItems(s1, items)), t.bag), name);
            r.view == v && Between(r.state, inside && element != "Description")
  {
    var s1 := if !inside && element == "li" then OpenItem(s) else s;
    var r := Reading(v, WithItems(s1, items));
    assert MeantEnd(r, t.bag) == r;
  }

  /** A list that is listened to, if its description is still open. */
  predicate Heard(d: XmpData, prefix: string) {
    UriOf(d, prefix).Some? && ElementName(d, prefix) != "li"
  }

  /** A list whose end tag ends the description. */
  predicate EndsDescription(d: XmpData, prefix: string) {
    UriOf(d, prefix).None? && ElementName(d, prefix) == "Description"
  }

  /** A list whose tags and items are read as they are written, but for references and white space in items. */
  predicate ReadableList(d: XmpData, prefix: string) {
    && prefix in d.listItems && Writable(d, prefix) && Proper(ElementName(d, prefix))
    && forall item <- d.listItems[prefix] :: Readable(item)
  }

  /** The list as it is read back. */
  function ListRead(d: XmpData, prefix: string): ListValue
    requires prefix in d.listItems
  {
    ListValue(AllReadAs(d.listItems[prefix]), ElementName(d, prefix))
  }

  /** What is shown once a list has been read, inside a description or after it. */
  function Hearing(v: View, d: XmpData, prefix: string, inside: bool): View
    requires prefix in d.listItems
  {
    if inside && Heard(d, prefix) then WithListValue(v, UriOf(d, prefix).value, ListRead(d, prefix)) else v
  }

  lemma {:induction false} EndList(d: XmpData, prefix: string, v: View, s: ParseState, inside: bool, name: string,
                                   t: Tags) returns (s': ParseState)
    requires ReadableList(d, prefix) && Standard(t) && Between(s, inside)
    requires SplitQname(name).1 == ElementName(d, prefix)
    ensures MeantEnd(MeantEnd(Reading(v, WithItems(AfterStart(s, UriOf(d, prefix), ElementName(d, prefix)),
                                                   AllReadAs(d.listItems[prefix]))), t.bag), name)
         == Reading(Hearing(v, d, prefix, inside), s')
    ensures Between(s', inside && !EndsDescription(d, prefix))
  {
    var uri, element, items := UriOf(d, prefix), ElementName(d, prefix), AllReadAs(d.listItems[prefix]);
    var s1 := AfterStart(s, uri, element);
    s' := MeantEnd(MeantEnd(Reading(v, WithItems(s1, items)), t.bag), name).state;
    if inside && uri.Some? {
      assert WithItems(s1, items) == Listing(uri.value, element, items) by {
        assert [] + items == items;
      }
      if element == "li" {
        EndLi(v, uri.value, items, name, t);
      } else {
        EndListed(v, uri.value, element, items, name, t);
      }
    } else {
      EndIgnored(v, s, inside, element, items, name, t);
    }
  }

  lemma {:induction false} ReadList(d: XmpData, prefix: string, v: View, s: ParseState, inside: bool,
                                    stack: seq<Scope>, lib: Library, numeric: Numeric, t: Tags)
    returns (s': ParseState)
    requires ReadableList(d, prefix) && ReadsText(lib) && Standard(t) && Between(s, inside)
    requires stack != [] && Get(Top(stack), prefix) == UriOf(d, prefix)
    ensures ReadAll(Reader(Reading(v, s), stack), ListEvents(d, prefix, lib, t), numeric)
         == Reader(Reading(Hearing(v, d, prefix, inside), s'), stack)
    ensures Between(s', inside && !EndsDescription(d, prefix))
  {
    var uri, element, items := UriOf(d, prefix), ElementName(d, prefix), d.listItems[prefix];
    var name := prefix + ":" + element;
    var inner := stack + [Top(stack)] + [Top(stack)];
    var s1 := AfterStart(s, uri, element);
    var s2 := WithItems(s1, AllReadAs(items));
    QnameSplits(prefix, element);
    ReadStarts(v, s, prefix, element, uri, name, stack, numeric, t);
    ReadItems(v, s1, items, inner, lib, numeric, t);
    s' := EndList(d, prefix, v, s, inside, name, t);
    ReadEnds(Reading(v, s2), Reading(Hearing(v, d, prefix, inside), s'), name, stack, numeric, t);
    ReadThree(Reader(Reading(v, s), stack), [Start(name, []), Start(t.bag, [])],
              Reader(Reading(v, s1), inner), ItemEvents(items, lib, t),
              Reader(Reading(v, s2), inner), [End(t.bag), End(name)],
              Reader(Reading(Hearing(v, d, prefix, inside), s'), stack), numeric);
  }

  /** It is written before any list that ends the description. */
  predicate InTime(d: XmpData, lists: seq<string>, prefix: string) {
    lists != [] && (lists[0] == prefix || (!EndsDescription(d, lists[0]) && InTime(d, lists[1..], prefix)))
  }

  /** What the lists among `lists` add to a view, when they are read inside a description. */
  ghost predicate GainedLists(d: XmpData, lists: seq<string>, v: View, w: View) {
    && w.attrs == v.attrs
    && forall uri :: Get(w.lists, uri) == GainedList(d, lists, v, uri)
  }

  ghost function GainedList(d: XmpData, lists: seq<string>, v: View, uri: string): Option<ListValue> {
    match Owner(d, uri)
    case None => Get(v.lists, uri)
    case Some(p) =>
      if p in d.listItems && Heard(d, p) && InTime(d, lists, p) then Some(ListRead(d, p)) else Get(v.lists, uri)
  }

  lemma ListGains(d: XmpData, lists: seq<string>, v: View, w: View)
    requires Distinct(d) && lists != [] && lists[0] in d.listItems
    requires GainedLists(d, if EndsDescription(d, lists[0]) then [] else lists[1..], Hearing(v, d, lists[0], true), w)
    ensures GainedLists(d, lists, v, w)
  {
    var p := lists[0];
    var rest := if EndsDescription(d, p) then [] else lists[1..];
    var v1 := Hearing(v, d, p, true);
    if Heard(d, p) {
      OwnerIs(d, p, UriOf(d, p).value);
    }
    forall u ensures GainedList(d, rest, v1, u) == GainedList(d, lists, v, u) {
      if Owner(d, u) == Some(p) {
        assert Owns(d, p, u);
      }
    }
  }

  lemma {:induction false} ReadLists(d: XmpData, lists: seq<string>, v: View, s: ParseState, inside: bool,
                                     stack: seq<Scope>, lib: Library, numeric: Numeric, t: Tags)
    returns (w: View, s': ParseState, inside': bool)
    requires Distinct(d) && ReadsText(lib) && stack != [] && Standard(t) && Between(s, inside)
    requires forall p <- lists :: p in d.listItems
    requires forall p <- lists :: ReadableList(d, p) && Get(Top(stack), p) == UriOf(d, p)
    ensures ReadAll(Reader(Reading(v, s), stack), ListsEvents(d, lists, lib, t), numeric)
         == Reader(Reading(w, s'), stack)
    ensures Between(s', inside') && GainedLists(d, if inside then lists else [], v, w)
    decreases |lists|
  {
    w, s', inside' := v, s, inside;
    if lists != [] {
      var p := lists[0];
      var v1 := Hearing(v, d, p, inside);
      var s1 := ReadList(d, p, v, s, inside, stack, lib, numeric, t);
      var inside1 := inside && !EndsDescription(d, p);
      w, s', inside' := ReadLists(d, lists[1..], v1, s1, inside1, stack, lib, numeric, t);
      ReadChain(Reader(Reading(v, s), stack), ListEvents(d, p, lib, t), Reader(Reading(v1, s1), stack),
                ListsEvents(d, lists[1..], lib, t), Reader(Reading(w, s'), stack), numeric);
      if inside {
        ListGains(d, lists, v, w);
      }
    }
  }

  // ----- The whole packet is read back -----

  /** Prefixes and attribute names that can be written, each prefix for a URI of its own. */
  ghost predicate Spelled(d: XmpData) {
    && Distinct(d) && (forall p | Used(d, p) :: Writable(d, p))
    && forall k | HasAttr(d, k) :: Proper(k.1)
  }

  ghost predicate ReadableLists(d: XmpData) {
    forall p | p in d.listItems :: ReadableList(d, p)
  }

  /** A start tag that only declares a namespace. */
  lemma ReadDeclaring(stack: seq<Scope>, name: string, prefix: string, uri: string, numeric: Numeric)
    requires SplitQname(name).1 != "li" && SplitQname(name).1 != "Description"
    ensures Read(Reader(Reading(NO_VIEW, FRESH), stack), Start(name, [Declaration(prefix, uri)]), numeric)
         == Reader(Reading(NO_VIEW, FRESH), stack + [Top(stack)[prefix := uri]])
  {
    DeclareOne(Top(stack), prefix, uri, numeric);
  }

  lemma ReadOpening(numeric: Numeric, t: Tags) returns (stack: seq<Scope>)
    requires Standard(t)
    ensures ReadAll(UNREAD, OpeningEvents(t), numeric) == Reader(Reading(NO_VIEW, FRESH), stack)
    ensures stack != [] && Top(stack).Keys == {"x", "rdf"}
  {
    var x, rdf := "x", "rdf";
    var meta, root := Start(t.meta, [Declaration(x, t.metaUri)]), Start(t.rdf, [Declaration(rdf, t.rdfUri)]);
    ReadTwo(UNREAD, meta, root, numeric);
    ReadDeclaring([map[]], t.meta, x, t.metaUri, numeric);
    stack := [map[]] + [map[x := t.metaUri]];
    assert Read(UNREAD, meta, numeric) == Reader(Reading(NO_VIEW, FRESH), stack);
    ReadDeclaring(stack, t.rdf, rdf, t.rdfUri, numeric);
    stack := stack + [Top(stack)[rdf := t.rdfUri]];
  }

  /** Every prefix in use is in scope in the description. */
  lemma InScope(d: XmpData, o: Order, outer: Scope, p: string, numeric: Numeric)
    requires Spelled(d) && Orders(o, d) && Used(d, p) && outer.Keys == {"x", "rdf"}
    ensures Get(ScopeOf(outer, Decls(d, o.prefixes), numeric), p) == UriOf(d, p)
  {
    assert Writable(d, p);
    DeclsScope(d, o.prefixes, outer, p, numeric);
  }

  lemma DescriptionPairs(d: XmpData, o: Order, outer: Scope, numeric: Numeric)
    requires Spelled(d) && Orders(o, d)
    ensures ScopeOf(outer, Decls(d, o.prefixes) + Lines(d, o.attrs), numeric)
         == ScopeOf(outer, Decls(d, o.prefixes), numeric)
    ensures Ordinary(Decls(d, o.prefixes) + Lines(d, o.attrs), numeric) == Plainly(d, o.attrs)
  {
    ScopeAppend(outer, Decls(d, o.prefixes), Lines(d, o.attrs), numeric);
    LinesOrdinary(d, o.attrs, ScopeOf(outer, Decls(d, o.prefixes), numeric), numeric);
    DeclsOrdinary(d, o.prefixes, numeric);
    assert [] + Plainly(d, o.attrs) == Plainly(d, o.attrs);
  }

  /** The namespaces in scope in the description. */
  function DescriptionScope(d: XmpData, o: Order, outer: seq<Scope>, numeric: Numeric): Scope {
    ScopeOf(Top(outer), Decls(d, o.prefixes), numeric)
  }

  lemma AllInScope(d: XmpData, o: Order, outer: seq<Scope>, numeric: Numeric)
    requires Spelled(d) && Orders(o, d) && Top(outer).Keys == {"x", "rdf"}
    ensures forall p | Used(d, p) :: Get(DescriptionScope(d, o, outer, numeric), p) == UriOf(d, p)
  {
    forall p | Used(d, p) ensures Get(DescriptionScope(d, o, outer, numeric), p) == UriOf(d, p) {
      InScope(d, o, Top(outer), p, numeric);
    }
  }

  /** What is read when the tag of the description has been read. */
  lemma {:induction false} ReadDescription(d: XmpData, o: Order, outer: seq<Scope>, numeric: Numeric, t: Tags)
    returns (r: Reader)
    requires Spelled(d) && Orders(o, d) && Standard(t)
    requires outer != [] && Top(outer).Keys == {"x", "rdf"}
    ensures r == Read(Reader(Reading(NO_VIEW, FRESH), outer), DescriptionEvent(d, o, t), numeric)
    ensures Gained(d, o.attrs, NO_VIEW, r.reading.view) && r.reading.state == INSIDE
    ensures |r.stack| > 1 && forall p | Used(d, p) :: Get(Top(r.stack), p) == UriOf(d, p)
  {
    var scope := DescriptionScope(d, o, outer, numeric);
    AllInScope(d, o, outer, numeric);
    DescriptionPairs(d, o, Top(outer), numeric);
    LinesGain(d, o.attrs, scope, NO_VIEW);
    r := Reader(Reading(PutAttrs(NO_VIEW, scope, Plainly(d, o.attrs)), INSIDE), outer + [scope]);
  }

  lemma ReadClosing(v: View, s: ParseState, inside: bool, stack: seq<Scope>, numeric: Numeric, t: Tags)
    requires Standard(t) && Between(s, inside)
    ensures ReadAll(Reader(Reading(v, s), stack), ClosingEvents(t), numeric).reading.view == v
  {
    var r := Reader(Reading(v, s), stack);
    assert ClosingEvents(t) == [End(t.description)] + [End(t.rdf), End(t.meta)];
    ReadAppend(r, [End(t.description)], [End(t.rdf), End(t.meta)], numeric);
    ReadOne(r, End(t.description), numeric);
    ReadTwo(Read(r, End(t.description), numeric), End(t.rdf), End(t.meta), numeric);
  }

  /** What is read back as the list of a URI, if it is heard and comes in time. */
  ghost function HeardList(d: XmpData, lists: seq<string>, uri: string): Option<ListValue> {
    if ListAt(d, uri).None? then None
    else
      var p := Owner(d, uri).value;
      if Heard(d, p) && InTime(d, lists, p) then Some(ListRead(d, p)) else None
  }

  lemma GainedFromNothing(d: XmpData, lists: seq<string>, uri: string)
    ensures GainedList(d, lists, NO_VIEW, uri) == HeardList(d, lists, uri)
  {
  }

  /** The attributes are all there, and the lists that are heard in time. */
  ghost predicate ShownOf(d: XmpData, lists: seq<string>, w: View) {
    && (forall uri, local :: Get(w.attrs, (uri, local)) == AttrAt(d, uri, local))
    && (forall uri :: Get(w.lists, uri) == HeardList(d, lists, uri))
  }

  lemma GainedShows(d: XmpData, o: Order, v: View, w: View)
    requires Orders(o, d)
    requires Gained(d, o.attrs, NO_VIEW, v) && GainedLists(d, o.lists, v, w)
    ensures ShownOf(d, o.lists, w)
  {
    forall uri, local ensures AttrAt(d, uri, local) == Get(w.attrs, (uri, local)) {
      assert Get(w.attrs, (uri, local)) == GainedAt(d, o.attrs, NO_VIEW, uri, local);
      if Owner(d, uri).Some? {
        assert (Owner(d, uri).value, local) in o.attrs <==> HasAttr(d, (Owner(d, uri).value, local));
      }
    }
    forall uri ensures Get(w.lists, uri) == HeardList(d, o.lists, uri) {
      GainedFromNothing(d, o.lists, uri);
    }
  }

  lemma ProperName(prefix: string, local: string)
    requires TagName(prefix) && Proper(local)
    ensures TagName(prefix + ":" + local)
  {
    var name := prefix + ":" + local;
    forall c <- name ensures NameChar(c) {
      assert c in prefix || c in ":" || c in local;
    }
  }

  lemma StandardName(name: string, prefix: string, local: string)
    requires name == prefix + ":" + local && ':' !in prefix && TagName(prefix) && Proper(local)
    ensures SplitQname(name) == (prefix, local) && TagName(name)
  {
    QnameSplits(prefix, local);
    ProperName(prefix, local);
  }

  lemma RdfTag(name: string, local: string)
    requires |name| > 4 && name[0] == 'r' && name[1] == 'd' && name[2] == 'f' && name[3] == ':'
    requires name[4..] == local && Proper(local)
    ensures SplitQname(name) == ("rdf", local) && TagName(name)
  {
    StandardName(name, "rdf", local);
  }

  lemma XTag(name: string, local: string)
    requires |name| > 2 && name[0] == 'x' && name[1] == ':'
    requires name[2..] == local && Proper(local)
    ensures SplitQname(name) == ("x", local) && TagName(name)
  {
    StandardName(name, "x", local);
  }

  lemma BagTag()
    ensures SplitQname(TAGS.bag) == ("rdf", "Bag") && TagName(TAGS.bag)
  {
    RdfTag(TAGS.bag, "Bag");
  }

  lemma ItemTag()
    ensures SplitQname(TAGS.item) == ("rdf", "li") && TagName(TAGS.item)
  {
    RdfTag(TAGS.item, "li");
  }

  lemma DescriptionTag()
    ensures SplitQname(TAGS.description) == ("rdf", "Description") && TagName(TAGS.description)
  {
    LocalsProper();
    RdfTag(TAGS.description, "Description");
  }

  lemma LocalsProper()
    ensures Proper("Description") && Proper("xmpmeta")
  {
  }

  lemma RootTags()
    ensures SplitQname(TAGS.rdf) == ("rdf", "RDF") && TagName(TAGS.rdf)
  {
    RdfTag(TAGS.rdf, "RDF");
  }

  lemma MetaTag()
    ensures SplitQname(TAGS.meta) == ("x", "xmpmeta") && TagName(TAGS.meta)
  {
    LocalsProper();
    XTag(TAGS.meta, "xmpmeta");
  }

  /** The element names of a packet are read as they should be. */
  lemma StandardTags()
    ensures Standard(TAGS)
  {
    BagTag();
    ItemTag();
    DescriptionTag();
    RootTags();
    MetaTag();
  }

  lemma SerializedAsMeans(d: XmpData, o: Order, lib: Library, numeric: Numeric, t: Tags)
    requires Spelled(d) && ReadableLists(d) && Orders(o, d) && ReadsText(lib) && Standard(t)
    ensures ShownOf(d, o.lists, ReadAll(UNREAD, SerializedAs(d, o, lib, t), numeric).reading.view)
  {
    var description, lists, closing := [DescriptionEvent(d, o, t)], ListsEvents(d, o.lists, lib, t), ClosingEvents(t);
    var stack := ReadOpening(numeric, t);
    var r0 := Reader(Reading(NO_VIEW, FRESH), stack);
    var r := ReadDescription(d, o, stack, numeric, t);
    ReadOne(r0, DescriptionEvent(d, o, t), numeric);
    var w, s, inside := ReadLists(d, o.lists, r.reading.view, INSIDE, true, r.stack, lib, numeric, t);
    var r1 := Reader(Reading(w, s), r.stack);
    ReadClosing(w, s, inside, r.stack, numeric, t);
    var r2 := ReadAll(r1, closing, numeric);
    ReadChain(r, lists, r1, closing, r2, numeric);
    ReadChain(r0, description, r, lists + closing, r2, numeric);
    ReadChain(UNREAD, OpeningEvents(t), r0, description + (lists + closing), r2, numeric);
    GainedShows(d, o, r.reading.view, w);
  }
}
