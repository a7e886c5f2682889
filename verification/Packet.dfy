/** The namespaces that have a prefix of their own. */
module Registry {
  import opened Results

  const WDTAG := "http://ns.yu-ai-manager/wdtag/1.0/"
  const SWEEP := "http://ns.yu-ai-manager/sweep/1.0/"
  const DC := "http://purl.org/dc/elements/1.1/"

  function UriFor(prefix: string): Option<string> {
    if prefix == "wdtag" then Some(WDTAG)
    else if prefix == "sweep" then Some(SWEEP)
    else if prefix == "dc" then Some(DC)
    else None
  }

  function PrefixFor(uri: string): Option<string> {
    if uri == WDTAG then Some("wdtag")
    else if uri == SWEEP then Some("sweep")
    else if uri == DC then Some("dc")
    else None
  }

  /** The two lookups are inverses. */
  lemma Inverse(prefix: string, uri: string)
    ensures UriFor(prefix) == Some(uri) <==> PrefixFor(uri) == Some(prefix)
  {
    assert WDTAG[7] == 'n' && SWEEP[7] == 'n' && DC[7] == 'p';
    assert WDTAG[24] == 'w' && SWEEP[24] == 's';
    assert "wdtag"[0] == 'w' && "sweep"[0] == 's' && "dc"[0] == 'd';
  }

  lemma RegisteredNames(uri: string)
    ensures PrefixFor(uri).Some? ==> PrefixFor(uri).value[0] in "wsd" && ':' !in PrefixFor(uri).value
    ensures PrefixFor(uri).Some? ==> PrefixFor(uri).value !in ["", "rdf", "xmlns", "x"]
  {
    assert "rdf"[0] == 'r' && "xmlns"[0] == 'x' && "x"[0] == 'x';
    assert "wdtag"[0] == 'w' && "sweep"[0] == 's' && "dc"[0] == 'd';
  }
}

/** An XMP packet as data, and the parser that reads it from XML events. */
module Packet {
  import opened Results
  import Registry

  type Attrs = map<string, string>

  datatype XmpData = XmpData(
    attrs: map<string, Attrs>,
    listItems: map<string, seq<string>>,
    listElementName: map<string, string>,
    namespaceUris: map<string, string>)

  const EMPTY := XmpData(map[], map[], map[], map[])

  // ----- Names -----

  /** The part before the first colon, and the part after it. */
  function SplitQname(name: string): (string, string) {
    if ':' in name then
      var k := Colon(name);
      (name[..k], name[k + 1..])
    else ("", name)
  }

  function Colon(name: string): (k: nat)
    requires ':' in name
    ensures k < |name| && name[k] == ':' && ':' !in name[.. k]
  {
    if name[0] == ':' then 0
    else
      var k := Colon(name[1..]);
      assert name[..k + 1] == [name[0]] + name[1..][..k];
      k + 1
  }

  function Decimal(n: nat): string {
    (if n < 10 then [] else Decimal(n / 10)) + [('0' as int + n % 10) as char]
  }

  function Synthetic(n: nat): string {
    "ns" + Decimal(n)
  }

  lemma {:induction false} DecimalInjective(m: nat, n: nat)
    requires Decimal(m) == Decimal(n)
    ensures m == n
  {
    DecimalLast(m);
    DecimalLast(n);
    assert m % 10 == n % 10;
    if m >= 10 && n >= 10 {
      DecimalInjective(m / 10, n / 10);
    }
  }

  lemma DecimalLast(n: nat)
    ensures |Decimal(n)| > 0 && Decimal(n)[|Decimal(n)| - 1] == ('0' as int + n % 10) as char
    ensures n >= 10 ==> Decimal(n)[..|Decimal(n)| - 1] == Decimal(n / 10)
    ensures n < 10 <==> |Decimal(n)| == 1
  {
  }

  lemma SyntheticInjective(m: nat, n: nat)
    requires Synthetic(m) == Synthetic(n)
    ensures m == n
  {
    assert Synthetic(m)[2..] == Decimal(m) && Synthetic(n)[2..] == Decimal(n);
    DecimalInjective(m, n);
  }

  /** If the first `n` synthetic prefixes are taken, at least `n` prefixes are. */
  lemma {:induction false} TakenCount(taken: set<string>, n: nat)
    requires forall m: nat | m < n :: Synthetic(m) in taken
    ensures n <= |taken|
    decreases n
  {
    if n > 0 {
      var last := Synthetic(n - 1);
      forall m: nat | m < n - 1 ensures Synthetic(m) in taken - {last} {
        if Synthetic(m) == last {
          SyntheticInjective(m, n - 1);
        }
      }
      TakenCount(taken - {last}, n - 1);
    }
  }

  /** The first synthetic prefix that is free, from number `n` on. */
  function FirstFree(uris: map<string, string>, n: nat): (k: nat)
    requires forall m: nat | m < n :: Synthetic(m) in uris
    ensures Synthetic(k) !in uris
    decreases |uris| - n
  {
    if Synthetic(n) !in uris then n
    else
      TakenCount(uris.Keys, n + 1);
      FirstFree(uris, n + 1)
  }

  /** The prefix that stands for `uri` from now on. */
  ghost function Resolved(uris: map<string, string>, uri: string): string {
    if uri in uris.Values then
      var p :| p in uris && uris[p] == uri; p
    else if Registry.PrefixFor(uri).Some? then Registry.PrefixFor(uri).value
    else Synthetic(FirstFree(uris, 0))
  }

  ghost predicate Injective(uris: map<string, string>) {
    forall p, q | p in uris && q in uris && uris[p] == uris[q] :: p == q
  }

  // ----- Escaping -----

  function Replace(s: string, c: char, with: string): string {
    if s == [] then [] else (if s[0] == c then with else [s[0]]) + Replace(s[1..], c, with)
  }

  function TextEscape(s: string): string {
    Replace(Replace(Replace(s, '&', "&amp;"), '<', "&lt;"), '>', "&gt;")
  }

  function AttrEscape(s: string): string {
    Replace(Replace(Replace(Replace(s, '&', "&amp;"), '<', "&lt;"), '>', "&gt;"), '"', "&quot;")
  }

  /** What a character reference such as `#65` stands for; the library's business. */
  type Numeric = string -> Option<string>

  function Entity(name: string, numeric: Numeric): Option<string> {
    if name == "amp" then Some("&")
    else if name == "lt" then Some("<")
    else if name == "gt" then Some(">")
    else if name == "quot" then Some("\"")
    else if name == "apos" then Some("'")
    else if name != [] && name[0] == '#' then numeric(name)
    else None
  }

  /** The text with its references replaced; nothing if one of them is malformed. */
  function Unescape(s: string, numeric: Numeric): Option<string> {
    if s == [] then Some([])
    else if s[0] != '&' then
      match Unescape(s[1..], numeric)
      case None => None
      case Some(t) => Some([s[0]] + t)
    else
      match Semicolon(s[1..])
      case None => None
      case Some(k) =>
        match Entity(s[1..][..k], numeric)
        case None => None
        case Some(e) =>
          match Unescape(s[1..][k + 1..], numeric)
          case None => None
          case Some(t) => Some(e + t)
  }

  /** Where the name of a reference ends. */
  function Semicolon(s: string): (k: Option<nat>)
    ensures k.Some? ==> k.value < |s| && s[k.value] == ';'
  {
    if s == [] || s[0] == '&' then None
    else if s[0] == ';' then Some(0)
    else
      match Semicolon(s[1..])
      case None => None
      case Some(k) => Some(k + 1)
  }

  function AttrValue(raw: string, numeric: Numeric): string {
    match Unescape(raw, numeric)
    case None => ""
    case Some(t) => t
  }

  // ----- Events -----

  type Pairs = seq<(string, string)>
  type Scope = map<string, string>

  datatype Event =
    | Start(name: string, pairs: Pairs)
    | Empty(name: string, pairs: Pairs)
    | Text(content: string)
    | End(name: string)
    | Other

  /** The namespace prefix that an attribute declares, if it is a declaration. */
  function Declared(key: string): Option<string> {
    if |key| >= 6 && key[..6] == "xmlns:" then Some(key[6..])
    else if key == "xmlns" then Some("")
    else None
  }

  function ScopeOf(outer: Scope, pairs: Pairs, numeric: Numeric): Scope
    decreases |pairs|
  {
    if pairs == [] then outer
    else
      var (key, raw) := pairs[0];
      match Declared(key)
      case None => ScopeOf(outer, pairs[1..], numeric)
      case Some(p) => ScopeOf(outer[p := AttrValue(raw, numeric)], pairs[1..], numeric)
  }

  function Ordinary(pairs: Pairs, numeric: Numeric): Pairs {
    if pairs == [] then []
    else if Declared(pairs[0].0).Some? then Ordinary(pairs[1..], numeric)
    else [(pairs[0].0, AttrValue(pairs[0].1, numeric))] + Ordinary(pairs[1..], numeric)
  }

  /** An open list element: its namespace (a prefix or a URI) and its local name. */
  datatype Open = Open(space: string, local: string)

  datatype ParseState = ParseState(
    inDescription: bool, list: Option<Open>, items: seq<string>, inLi: bool, liText: string)

  const FRESH := ParseState(false, None, [], false, "")

  /** What a start tag means, given what is open and which prefixes are in scope. */
  datatype Opening = Description | List(uri: string, local: string) | Item | Nothing

  function Kind(state: ParseState, name: string, scope: Scope): Opening {
    var (prefix, local) := SplitQname(name);
    if local == "Description" && prefix == "rdf" then Description
    else if state.inDescription && prefix != "rdf" && prefix != "" then
      if prefix in scope then List(scope[prefix], local) else Nothing
    else if local == "li" then Item
    else Nothing
  }

  /** The URI and local name under which an attribute is kept, if it is. */
  function AttrTarget(key: string, scope: Scope): Option<(string, string)> {
    var (prefix, local) := SplitQname(key);
    if prefix == "" || prefix == "rdf" || prefix !in scope then None else Some((scope[prefix], local))
  }

  function OpenList(state: ParseState, space: string, local: string): ParseState {
    state.(list := Some(Open(space, local)), items := [])
  }

  function OpenItem(state: ParseState): ParseState {
    state.(inLi := true, liText := "")
  }

  function CloseItem(state: ParseState): ParseState {
    state.(inLi := false, items := state.items + [state.liText], liText := "")
  }

  function CloseList(state: ParseState): ParseState {
    state.(list := None, items := [])
  }

  predicate ClosesList(state: ParseState, local: string) {
    local != "li" && state.list.Some? && state.list.value.local == local
  }

  /** What an end tag does to the state, when it does not close a list. */
  function EndState(state: ParseState, local: string): ParseState {
    if local == "li" then CloseItem(state)
    else if local == "Description" then state.(inDescription := false)
    else state
  }

  function TextState(state: ParseState, content: string): ParseState {
    if state.inLi then state.(liText := state.liText + content) else state
  }

  // ----- The parser, on prefixes -----

  function Named(data: XmpData, prefix: string, uri: string): XmpData {
    data.(namespaceUris := data.namespaceUris[prefix := uri])
  }

  function Put(attrs: map<string, Attrs>, prefix: string, local: string, value: string): map<string, Attrs> {
    attrs[prefix := (if prefix in attrs then attrs[prefix] else map[])[local := value]]
  }

  ghost function AddAttr(data: XmpData, scope: Scope, key: string, value: string): XmpData {
    match AttrTarget(key, scope)
    case None => data
    case Some((uri, local)) =>
      var p := Resolved(data.namespaceUris, uri);
      var d := Named(data, p, uri);
      d.(attrs := Put(d.attrs, p, local, value))
  }

  ghost function AddAttrs(data: XmpData, scope: Scope, pairs: Pairs): XmpData
    decreases |pairs|
  {
    if pairs == [] then data else AddAttrs(AddAttr(data, scope, pairs[0].0, pairs[0].1), scope, pairs[1..])
  }

  datatype Parsing = Parsing(data: XmpData, state: ParseState)

  ghost function HandledStart(p: Parsing, name: string, scope: Scope, pairs: Pairs): Parsing {
    match Kind(p.state, name, scope)
    case Description => Parsing(AddAttrs(p.data, scope, pairs), p.state.(inDescription := true))
    case List(uri, local) =>
      var q := Resolved(p.data.namespaceUris, uri);
      Parsing(Named(p.data, q, uri), OpenList(p.state, q, local))
    case Item => p.(state := OpenItem(p.state))
    case Nothing => p
  }

  function HandledEnd(p: Parsing, name: string): Parsing {
    var local := SplitQname(name).1;
    if ClosesList(p.state, local) then
      var q := p.state.list.value.space;
      Parsing(
        p.data.(listItems := p.data.listItems[q := p.state.items],
                listElementName := p.data.listElementName[q := local]),
        CloseList(p.state))
    else p.(state := EndState(p.state, local))
  }

  function Top(stack: seq<Scope>): Scope {
    if stack == [] then map[] else stack[|stack| - 1]
  }

  function Popped(stack: seq<Scope>): seq<Scope> {
    if |stack| > 1 then stack[..|stack| - 1] else stack
  }

  /** The parser and the namespaces of the open elements. */
  datatype Machine = Machine(parsing: Parsing, stack: seq<Scope>)

  ghost function Step(m: Machine, e: Event, numeric: Numeric): Machine {
    match e
    case Start(name, pairs) =>
      var scope := ScopeOf(Top(m.stack), pairs, numeric);
      Machine(HandledStart(m.parsing, name, scope, Ordinary(pairs, numeric)), m.stack + [scope])
    case Empty(name, pairs) =>
      var scope := ScopeOf(Top(m.stack), pairs, numeric);
      Machine(HandledEnd(HandledStart(m.parsing, name, scope, Ordinary(pairs, numeric)), name), m.stack)
    case Text(content) => m.(parsing := m.parsing.(state := TextState(m.parsing.state, content)))
    case End(name) => Machine(HandledEnd(m.parsing, name), Popped(m.stack))
    case Other => m
  }

  ghost function Steps(m: Machine, events: seq<Event>, numeric: Numeric): Machine
    decreases |events|
  {
    if events == [] then m else Steps(Step(m, events[0], numeric), events[1..], numeric)
  }

  const INITIAL := Machine(Parsing(EMPTY, FRESH), [map[]])

  /** What is read from the events; nothing at all if the XML turns out malformed. */
  ghost function Parsed(events: seq<Event>, malformed: bool, numeric: Numeric): XmpData {
    if malformed then EMPTY else Steps(INITIAL, events, numeric).parsing.data
  }

  class Parser {
    const numeric: Numeric
    var data: XmpData
    var state: ParseState
    var nsStack: seq<Scope>

    constructor (numeric: Numeric)
      ensures this.numeric == numeric && Now() == INITIAL && Valid()
    {
      this.numeric := numeric;
      data := EMPTY;
      state := FRESH;
      nsStack := [map[]];
    }

    ghost function Now(): Machine
      reads this
    {
      Machine(Parsing(data, state), nsStack)
    }

    ghost predicate Valid()
      reads this
    {
      Sound(data.namespaceUris)
    }

    method ResolvePrefix(uri: string) returns (r: string)
      requires Valid()
      modifies this`data
      ensures Valid() && r == Resolved(old(data.namespaceUris), uri) && data == Named(old(data), r, uri)
    {
      ResolvedNew(data.namespaceUris, uri);
      ResolvedSound(data.namespaceUris, uri);
      var keys := data.namespaceUris.Keys;
      while keys != {}
        invariant keys <= data.namespaceUris.Keys
        invariant forall p | p in data.namespaceUris && p !in keys :: data.namespaceUris[p] != uri
        decreases |keys|
      {
        var p :| p in keys;
        if data.namespaceUris[p] == uri {
          assert data.namespaceUris[p := uri] == data.namespaceUris;
          return p;
        }
        keys := keys - {p};
      }
      var known := Registry.PrefixFor(uri);
      if known.Some? {
        data := data.(namespaceUris := data.namespaceUris[known.value := uri]);
        return known.value;
      }
      r := SyntheticPrefix(uri);
    }

    /** The search for a free synthetic prefix. */
    method SyntheticPrefix(uri: string) returns (r: string)
      modifies this`data
      ensures r == Synthetic(FirstFree(old(data.namespaceUris), 0)) && data == Named(old(data), r, uri)
    {
      var n: nat := 0;
      ghost var free := FirstFree(data.namespaceUris, 0);
      while true
        invariant data == old(data)
        invariant forall m: nat | m < n :: Synthetic(m) in data.namespaceUris
        invariant FirstFree(data.namespaceUris, n) == free
        decreases |data.namespaceUris| - n
      {
        var candidate := Synthetic(n);
        assert candidate[0] == 'n' && "rdf"[0] == 'r' && "x"[0] == 'x';
        if candidate !in data.namespaceUris && candidate != "rdf" && candidate != "x" {
          data := data.(namespaceUris := data.namespaceUris[candidate := uri]);
          return candidate;
        }
        TakenCount(data.namespaceUris.Keys, n + 1);
        n := n + 1;
      }
    }

    method HandleStart(name: string, localNs: Scope, attrPairs: Pairs)
      requires Valid()
      modifies this`data, this`state
      ensures Valid()
      ensures Parsing(data, state) == HandledStart(old(Parsing(data, state)), name, localNs, attrPairs)
    {
      var (tagPrefix, tagLocal) := SplitQname(name);
      if tagLocal == "Description" && tagPrefix == "rdf" {
        state := state.(inDescription := true);
        ghost var goal := AddAttrs(data, localNs, attrPairs);
        for i := 0 to |attrPairs|
          invariant Valid()
          invariant state == old(state).(inDescription := true)
          invariant AddAttrs(data, localNs, attrPairs[i..]) == goal
        {
          assert attrPairs[i..][1..] == attrPairs[i + 1..];
          KeepAttr(localNs, attrPairs[i].0, attrPairs[i].1);
        }
      } else if state.inDescription && tagPrefix != "rdf" && tagPrefix != "" {
        if tagPrefix in localNs {
          var resolved := ResolvePrefix(localNs[tagPrefix]);
          state := state.(list := Some(Open(resolved, tagLocal)), items := []);
        }
      } else if tagLocal == "li" {
        state := state.(inLi := true, liText := "");
      }
    }

    /** One attribute of a description. */
    method KeepAttr(localNs: Scope, key: string, value: string)
      requires Valid()
      modifies this`data
      ensures Valid() && data == AddAttr(old(data), localNs, key, value)
    {
      var (prefix, local) := SplitQname(key);
      if prefix == "" || prefix == "rdf" || prefix !in localNs {
        return;
      }
      var resolved := ResolvePrefix(localNs[prefix]);
      var names := if resolved in data.attrs then data.attrs[resolved] else map[];
      data := data.(attrs := data.attrs[resolved := names[local := value]]);
    }

    method HandleEnd(name: string)
      requires Valid()
      modifies this`data, this`state
      ensures Valid()
      ensures Parsing(data, state) == HandledEnd(old(Parsing(data, state)), name)
    {
      var (_, local) := SplitQname(name);
      if local == "li" {
        state := state.(inLi := false, items := state.items + [state.liText], liText := "");
      } else if state.list.Some? && state.list.value.local == local {
        var open := state.list.value;
        data := data.(listItems := data.listItems[open.space := state.items],
                      listElementName := data.listElementName[open.space := open.local]);
        state := state.(list := None, items := []);
      } else if local == "Description" {
        state := state.(inDescription := false);
      }
    }

    method HandleEvent(e: Event)
      requires Valid()
      modifies this
      ensures Valid() && Now() == Step(old(Now()), e, numeric)
    {
      match e
      case Start(name, pairs) =>
        var localNs := ScopeOf(Top(nsStack), pairs, numeric);
        nsStack := nsStack + [localNs];
        HandleStart(name, localNs, Ordinary(pairs, numeric));
      case Empty(name, pairs) =>
        var localNs := ScopeOf(Top(nsStack), pairs, numeric);
        nsStack := nsStack + [localNs];
        HandleStart(name, localNs, Ordinary(pairs, numeric));
        HandleEnd(name);
        nsStack := nsStack[..|nsStack| - 1];
      case Text(content) =>
        if state.inLi {
          state := state.(liText := state.liText + content);
        }
      case End(name) =>
        HandleEnd(name);
        if |nsStack| > 1 {
          nsStack := nsStack[..|nsStack| - 1];
        }
      case Other =>
    }
  }

  method Parse(events: seq<Event>, malformed: bool, numeric: Numeric) returns (data: XmpData)
    ensures data == Parsed(events, malformed, numeric)
  {
    var parser := new Parser(numeric);
    ghost var goal := Steps(INITIAL, events, numeric);
    for i := 0 to |events|
      invariant parser.Valid() && fresh(parser) && parser.numeric == numeric
      invariant Steps(parser.Now(), events[i..], numeric) == goal
    {
      assert events[i..][1..] == events[i + 1..];
      parser.HandleEvent(events[i]);
    }
    if malformed {
      return EMPTY;
    }
    return parser.data;
  }

  // ----- Prefixes stay unambiguous -----

  /**
   No two prefixes stand for one URI; a registered prefix stands for its registered URI,
   and every other prefix is a synthetic one, for a URI that is not registered.
   */
  ghost predicate Sound(uris: map<string, string>) {
    Injective(uris) && forall p | p in uris :: SoundPair(p, uris[p])
  }

  ghost predicate SoundPair(prefix: string, uri: string) {
    || Registry.UriFor(prefix) == Some(uri)
    || (Registry.PrefixFor(uri).None? && exists n: nat :: prefix == Synthetic(n))
  }

  /** A prefix given to a new URI is new. */
  lemma ResolvedNew(uris: map<string, string>, uri: string)
    requires Sound(uris)
    ensures uri in uris.Values ==> Resolved(uris, uri) in uris && uris[Resolved(uris, uri)] == uri
    ensures uri !in uris.Values ==> Resolved(uris, uri) !in uris
  {
    if uri !in uris.Values && Registry.PrefixFor(uri).Some? {
      var known := Registry.PrefixFor(uri).value;
      Registry.Inverse(known, uri);
      Registry.RegisteredNames(uri);
      NotSynthetic(known);
    }
  }

  lemma NotSynthetic(name: string)
    requires name != [] && name[0] in "wsd"
    ensures forall n: nat :: name != Synthetic(n)
  {
    forall n: nat ensures name != Synthetic(n) {
      assert Synthetic(n)[0] == 'n';
    }
  }

  lemma ResolvedSound(uris: map<string, string>, uri: string)
    requires Sound(uris)
    ensures Sound(uris[Resolved(uris, uri) := uri])
  {
    var p := Resolved(uris, uri);
    ResolvedNew(uris, uri);
    if uri in uris.Values {
      assert uris[p := uri] == uris;
    } else {
      if Registry.PrefixFor(uri).Some? {
        Registry.Inverse(p, uri);
      }
      assert SoundPair(p, uri);
    }
  }
}
