/**
 What a packet says, by namespace URI: prefixes are only a way of writing it. The
 parser, which renames prefixes as it goes, keeps exactly this meaning.
 */
module PacketMeaning {
  import opened Results
  import opened Packet
  import Registry

  datatype ListValue = ListValue(items: seq<string>, element: string)

  /** Attribute values by URI and local name, and lists by URI. */
  datatype View = View(attrs: map<(string, string), string>, lists: map<string, ListValue>)

  // ----- The view of packet data -----

  function UriOf(d: XmpData, prefix: string): Option<string> {
    if prefix in d.namespaceUris then Some(d.namespaceUris[prefix]) else Registry.UriFor(prefix)
  }

  ghost predicate Used(d: XmpData, prefix: string) {
    prefix in d.attrs || prefix in d.listItems
  }

  ghost predicate Owns(d: XmpData, prefix: string, uri: string) {
    Used(d, prefix) && UriOf(d, prefix) == Some(uri)
  }

  /** The prefix under which `uri` is used. */
  ghost function Owner(d: XmpData, uri: string): Option<string> {
    if p: string :| Owns(d, p, uri) then Some(p) else None
  }

  ghost function AttrAt(d: XmpData, uri: string, local: string): Option<string> {
    match Owner(d, uri)
    case None => None
    case Some(p) => if p in d.attrs then Get(d.attrs[p], local) else None
  }

  function ElementName(d: XmpData, prefix: string): string {
    if prefix in d.listElementName then d.listElementName[prefix] else "items"
  }

  ghost function ListAt(d: XmpData, uri: string): Option<ListValue> {
    match Owner(d, uri)
    case None => None
    case Some(p) =>
      if p in d.listItems then Some(ListValue(d.listItems[p], ElementName(d, p))) else None
  }

  ghost predicate Shows(d: XmpData, v: View) {
    && (forall uri, local :: AttrAt(d, uri, local) == Get(v.attrs, (uri, local)))
    && (forall uri :: ListAt(d, uri) == Get(v.lists, uri))
  }

  /** Each URI is used under one prefix only. */
  ghost predicate Distinct(d: XmpData) {
    forall p, q, uri | Owns(d, p, uri) && Owns(d, q, uri) :: p == q
  }

  lemma OwnerIs(d: XmpData, prefix: string, uri: string)
    requires Distinct(d) && Owns(d, prefix, uri)
    ensures Owner(d, uri) == Some(prefix)
  {
  }

  lemma SameOwner(d: XmpData, e: XmpData, uri: string)
    requires Distinct(d) && Distinct(e)
    requires forall p :: Owns(d, p, uri) <==> Owns(e, p, uri)
    ensures Owner(d, uri) == Owner(e, uri)
  {
    if p: string :| Owns(d, p, uri) {
      OwnerIs(d, p, uri);
      OwnerIs(e, p, uri);
    }
  }

  // ----- Reading by URI -----

  datatype Reading = Reading(view: View, state: ParseState)

  function PutAttr(v: View, scope: Scope, key: string, value: string): View {
    match AttrTarget(key, scope)
    case None => v
    case Some(target) => v.(attrs := v.attrs[target := value])
  }

  function PutAttrs(v: View, scope: Scope, pairs: Pairs): View
    decreases |pairs|
  {
    if pairs == [] then v else PutAttrs(PutAttr(v, scope, pairs[0].0, pairs[0].1), scope, pairs[1..])
  }

  function MeantStart(r: Reading, name: string, scope: Scope, pairs: Pairs): Reading {
    match Kind(r.state, name, scope)
    case Description => Reading(PutAttrs(r.view, scope, pairs), r.state.(inDescription := true))
    case List(uri, local) => r.(state := OpenList(r.state, uri, local))
    case Item => r.(state := OpenItem(r.state))
    case Nothing => r
  }

  function MeantEnd(r: Reading, name: string): Reading {
    var local := SplitQname(name).1;
    if ClosesList(r.state, local) then
      Reading(r.view.(lists := r.view.lists[r.state.list.value.space := ListValue(r.state.items, local)]),
              CloseList(r.state))
    else r.(state := EndState(r.state, local))
  }

  datatype Reader = Reader(reading: Reading, stack: seq<Scope>)

  function Read(r: Reader, e: Event, numeric: Numeric): Reader {
    match e
    case Start(name, pairs) =>
      var scope := ScopeOf(Top(r.stack), pairs, numeric);
      Reader(MeantStart(r.reading, name, scope, Ordinary(pairs, numeric)), r.stack + [scope])
    case Empty(name, pairs) =>
      var scope := ScopeOf(Top(r.stack), pairs, numeric);
      Reader(MeantEnd(MeantStart(r.reading, name, scope, Ordinary(pairs, numeric)), name), r.stack)
    case Text(content) => r.(reading := r.reading.(state := TextState(r.reading.state, content)))
    case End(name) => Reader(MeantEnd(r.reading, name), Popped(r.stack))
    case Other => r
  }

  function ReadAll(r: Reader, events: seq<Event>, numeric: Numeric): Reader
    decreases |events|
  {
    if events == [] then r else ReadAll(Read(r, events[0], numeric), events[1..], numeric)
  }

  const NO_VIEW := View(map[], map[])

  const UNREAD := Reader(Reading(NO_VIEW, FRESH), [map[]])

  /** What the events say, without any prefix. */
  function Meaning(events: seq<Event>, malformed: bool, numeric: Numeric): View {
    if malformed then NO_VIEW else ReadAll(UNREAD, events, numeric).reading.view
  }

  // ----- The parser keeps the meaning -----

  /** What parsing keeps: every prefix in use has a URI, and no two have the same. */
  ghost predicate Kept(d: XmpData) {
    && Sound(d.namespaceUris)
    && d.attrs.Keys <= d.namespaceUris.Keys
    && d.listItems.Keys <= d.namespaceUris.Keys
    && d.listElementName.Keys == d.listItems.Keys
  }

  lemma KeptDistinct(d: XmpData)
    requires Kept(d)
    ensures Distinct(d)
  {
  }

  ghost predicate KeptState(state: ParseState, uris: map<string, string>) {
    state.list.Some? ==> state.list.value.space in uris
  }

  /** The parser's state with the URI in the place of the prefix. */
  ghost function Renamed(state: ParseState, uris: map<string, string>): ParseState
    requires KeptState(state, uris)
  {
    match state.list
    case None => state
    case Some(open) => state.(list := Some(Open(uris[open.space], open.local)))
  }

  ghost predicate Agree(p: Parsing, r: Reading) {
    && Kept(p.data)
    && KeptState(p.state, p.data.namespaceUris)
    && Shows(p.data, r.view)
    && Renamed(p.state, p.data.namespaceUris) == r.state
  }

  /** Another prefix declared, and used by nothing yet. */
  lemma NamedKept(d: XmpData, uri: string)
    requires Kept(d)
    ensures var p := Resolved(d.namespaceUris, uri);
            var e := Named(d, p, uri);
            && Kept(e) && p in e.namespaceUris && e.namespaceUris[p] == uri
            && forall q | q in d.namespaceUris :: q in e.namespaceUris && e.namespaceUris[q] == d.namespaceUris[q]
  {
    ResolvedNew(d.namespaceUris, uri);
    ResolvedSound(d.namespaceUris, uri);
  }

  lemma NamedShows(d: XmpData, e: XmpData, v: View)
    requires Kept(d) && Kept(e) && Shows(d, v)
    requires e == d.(namespaceUris := e.namespaceUris)
    requires forall q | q in d.namespaceUris :: q in e.namespaceUris && e.namespaceUris[q] == d.namespaceUris[q]
    ensures Shows(e, v)
  {
    KeptDistinct(d);
    KeptDistinct(e);
    forall u ensures Owner(d, u) == Owner(e, u) {
      SameOwner(d, e, u);
    }
    forall u, l ensures AttrAt(d, u, l) == AttrAt(e, u, l) && ListAt(d, u) == ListAt(e, u) {
    }
  }

  /** Giving a URI a prefix changes nothing that is shown. */
  lemma NamedAgrees(d: XmpData, uri: string, v: View, state: ParseState)
    requires Kept(d) && Shows(d, v) && KeptState(state, d.namespaceUris)
    ensures var p := Resolved(d.namespaceUris, uri);
            var e := Named(d, p, uri);
            && Kept(e) && Shows(e, v)
            && p in e.namespaceUris && e.namespaceUris[p] == uri
            && KeptState(state, e.namespaceUris)
            && Renamed(state, e.namespaceUris) == Renamed(state, d.namespaceUris)
  {
    NamedKept(d, uri);
    NamedShows(d, Named(d, Resolved(d.namespaceUris, uri), uri), v);
  }

  /** The data after an attribute has been kept. */
  ghost function WithAttr(d: XmpData, prefix: string, local: string, value: string): XmpData {
    d.(attrs := Put(d.attrs, prefix, local, value))
  }

  /** When one more prefix comes into use, only its own URI gets a new owner. */
  lemma Owners(d: XmpData, e: XmpData, prefix: string, uri: string)
    requires Distinct(d) && Distinct(e) && d.namespaceUris == e.namespaceUris
    requires UriOf(d, prefix) == Some(uri) && Used(e, prefix)
    requires forall q | q != prefix :: Used(d, q) <==> Used(e, q)
    ensures Owner(e, uri) == Some(prefix)
    ensures Owner(d, uri) == if Used(d, prefix) then Some(prefix) else None
    ensures forall u | u != uri :: Owner(d, u) == Owner(e, u)
  {
    OwnerIs(e, prefix, uri);
    if Used(d, prefix) {
      OwnerIs(d, prefix, uri);
    } else if q: string :| Owns(d, q, uri) {
      assert Owns(e, q, uri) && Owns(e, prefix, uri);
      assert false;
    }
    forall u | u != uri ensures Owner(d, u) == Owner(e, u) {
      forall q ensures Owns(d, q, u) <==> Owns(e, q, u) {
        if q == prefix {
        }
      }
      SameOwner(d, e, u);
    }
  }

  /** `e` has one more prefix in use than `d`, or the same ones. */
  ghost predicate OneMore(d: XmpData, e: XmpData, prefix: string, uri: string) {
    && Owner(e, uri) == Some(prefix)
    && Owner(d, uri) == (if Used(d, prefix) then Some(prefix) else None)
    && forall u | u != uri :: Owner(d, u) == Owner(e, u)
  }

  lemma WithAttrKept(d: XmpData, prefix: string, local: string, value: string)
    requires Kept(d) && prefix in d.namespaceUris
    ensures Kept(WithAttr(d, prefix, local, value))
    ensures OneMore(d, WithAttr(d, prefix, local, value), prefix, d.namespaceUris[prefix])
  {
    var e := WithAttr(d, prefix, local, value);
    assert e.attrs.Keys == d.attrs.Keys + {prefix};
    KeptDistinct(d);
    KeptDistinct(e);
    Owners(d, e, prefix, d.namespaceUris[prefix]);
  }

  lemma WithAttrShows(d: XmpData, prefix: string, local: string, value: string, v: View)
    requires Kept(d) && Shows(d, v) && prefix in d.namespaceUris
    ensures Kept(WithAttr(d, prefix, local, value))
    ensures Shows(WithAttr(d, prefix, local, value),
                  v.(attrs := v.attrs[(d.namespaceUris[prefix], local) := value]))
  {
    var e, uri := WithAttr(d, prefix, local, value), d.namespaceUris[prefix];
    var w := v.(attrs := v.attrs[(uri, local) := value]);
    WithAttrKept(d, prefix, local, value);
    forall u, l ensures AttrAt(e, u, l) == Get(w.attrs, (u, l)) {
      WithAttrAt(d, prefix, local, value, u, l);
      assert AttrAt(d, u, l) == Get(v.attrs, (u, l));
    }
    forall u ensures ListAt(e, u) == Get(w.lists, u) {
      WithAttrListAt(d, prefix, local, value, u);
      assert ListAt(d, u) == Get(v.lists, u);
    }
  }

  lemma WithAttrAt(d: XmpData, prefix: string, local: string, value: string, u: string, l: string)
    requires prefix in d.namespaceUris
    requires OneMore(d, WithAttr(d, prefix, local, value), prefix, d.namespaceUris[prefix])
    ensures AttrAt(WithAttr(d, prefix, local, value), u, l)
         == if (u, l) == (d.namespaceUris[prefix], local) then Some(value) else AttrAt(d, u, l)
  {
  }

  lemma WithAttrListAt(d: XmpData, prefix: string, local: string, value: string, u: string)
    requires prefix in d.namespaceUris
    requires OneMore(d, WithAttr(d, prefix, local, value), prefix, d.namespaceUris[prefix])
    ensures ListAt(WithAttr(d, prefix, local, value), u) == ListAt(d, u)
  {
  }

  ghost function WithList(d: XmpData, prefix: string, items: seq<string>, element: string): XmpData {
    d.(listItems := d.listItems[prefix := items], listElementName := d.listElementName[prefix := element])
  }

  lemma WithListKept(d: XmpData, prefix: string, items: seq<string>, element: string)
    requires Kept(d) && prefix in d.namespaceUris
    ensures Kept(WithList(d, prefix, items, element))
    ensures OneMore(d, WithList(d, prefix, items, element), prefix, d.namespaceUris[prefix])
  {
    var e := WithList(d, prefix, items, element);
    assert e.listItems.Keys == d.listItems.Keys + {prefix};
    KeptDistinct(d);
    KeptDistinct(e);
    Owners(d, e, prefix, d.namespaceUris[prefix]);
  }

  lemma WithListAttrAt(d: XmpData, prefix: string, items: seq<string>, element: string, u: string, l: string)
    requires prefix in d.namespaceUris
    requires OneMore(d, WithList(d, prefix, items, element), prefix, d.namespaceUris[prefix])
    ensures AttrAt(WithList(d, prefix, items, element), u, l) == AttrAt(d, u, l)
  {
  }

  lemma WithListAt(d: XmpData, prefix: string, items: seq<string>, element: string, u: string)
    requires prefix in d.namespaceUris
    requires OneMore(d, WithList(d, prefix, items, element), prefix, d.namespaceUris[prefix])
    ensures ListAt(WithList(d, prefix, items, element), u)
         == if u == d.namespaceUris[prefix] then Some(ListValue(items, element)) else ListAt(d, u)
  {
  }

  lemma WithListShows(d: XmpData, prefix: string, items: seq<string>, element: string, v: View)
    requires Kept(d) && Shows(d, v) && prefix in d.namespaceUris
    ensures Kept(WithList(d, prefix, items, element))
    ensures Shows(WithList(d, prefix, items, element),
                  v.(lists := v.lists[d.namespaceUris[prefix] := ListValue(items, element)]))
  {
    var e, uri := WithList(d, prefix, items, element), d.namespaceUris[prefix];
    var w := v.(lists := v.lists[uri := ListValue(items, element)]);
    WithListKept(d, prefix, items, element);
    forall u, l ensures AttrAt(e, u, l) == Get(w.attrs, (u, l)) {
      WithListAttrAt(d, prefix, items, element, u, l);
      assert AttrAt(d, u, l) == Get(v.attrs, (u, l));
    }
    forall u ensures ListAt(e, u) == Get(w.lists, u) {
      WithListAt(d, prefix, items, element, u);
      assert ListAt(d, u) == Get(v.lists, u);
    }
  }

  lemma {:induction false} AttrsAgree(d: XmpData, scope: Scope, pairs: Pairs, v: View, state: ParseState)
    requires Kept(d) && Shows(d, v) && KeptState(state, d.namespaceUris)
    ensures var e := AddAttrs(d, scope, pairs);
            && Kept(e) && Shows(e, PutAttrs(v, scope, pairs))
            && KeptState(state, e.namespaceUris)
            && Renamed(state, e.namespaceUris) == Renamed(state, d.namespaceUris)
    decreases |pairs|
  {
    if pairs != [] {
      var (key, value) := pairs[0];
      AttrAgrees(d, scope, key, value, v, state);
      AttrsAgree(AddAttr(d, scope, key, value), scope, pairs[1..], PutAttr(v, scope, key, value), state);
    }
  }

  lemma AttrAgrees(d: XmpData, scope: Scope, key: string, value: string, v: View, state: ParseState)
    requires Kept(d) && Shows(d, v) && KeptState(state, d.namespaceUris)
    ensures var e := AddAttr(d, scope, key, value);
            && Kept(e) && Shows(e, PutAttr(v, scope, key, value))
            && KeptState(state, e.namespaceUris)
            && Renamed(state, e.namespaceUris) == Renamed(state, d.namespaceUris)
  {
    match AttrTarget(key, scope)
    case None =>
    case Some((uri, local)) =>
      var p := Resolved(d.namespaceUris, uri);
      NamedAgrees(d, uri, v, state);
      WithAttrShows(Named(d, p, uri), p, local, value, v);
  }

  lemma StartAgrees(p: Parsing, r: Reading, name: string, scope: Scope, pairs: Pairs)
    requires Agree(p, r)
    ensures Agree(HandledStart(p, name, scope, pairs), MeantStart(r, name, scope, pairs))
  {
    assert Kind(p.state, name, scope) == Kind(r.state, name, scope);
    match Kind(p.state, name, scope)
    case Description =>
      AttrsAgree(p.data, scope, pairs, r.view, p.state);
    case List(uri, local) =>
      NamedAgrees(p.data, uri, r.view, p.state);
    case Item =>
    case Nothing =>
  }

  lemma EndAgrees(p: Parsing, r: Reading, name: string)
    requires Agree(p, r)
    ensures Agree(HandledEnd(p, name), MeantEnd(r, name))
  {
    var local := SplitQname(name).1;
    if ClosesList(p.state, local) {
      WithListShows(p.data, p.state.list.value.space, p.state.items, local, r.view);
    }
  }

  lemma StepAgrees(m: Machine, r: Reader, e: Event, numeric: Numeric)
    requires Agree(m.parsing, r.reading) && m.stack == r.stack
    ensures var (m', r') := (Step(m, e, numeric), Read(r, e, numeric));
            Agree(m'.parsing, r'.reading) && m'.stack == r'.stack
  {
    match e
    case Start(name, pairs) =>
      StartAgrees(m.parsing, r.reading, name, ScopeOf(Top(m.stack), pairs, numeric), Ordinary(pairs, numeric));
    case Empty(name, pairs) =>
      var scope, plain := ScopeOf(Top(m.stack), pairs, numeric), Ordinary(pairs, numeric);
      StartAgrees(m.parsing, r.reading, name, scope, plain);
      EndAgrees(HandledStart(m.parsing, name, scope, plain), MeantStart(r.reading, name, scope, plain), name);
    case Text(content) =>
    case End(name) =>
      EndAgrees(m.parsing, r.reading, name);
    case Other =>
  }

  lemma {:induction false} StepsAgree(m: Machine, r: Reader, events: seq<Event>, numeric: Numeric)
    requires Agree(m.parsing, r.reading) && m.stack == r.stack
    ensures Agree(Steps(m, events, numeric).parsing, ReadAll(r, events, numeric).reading)
    decreases |events|
  {
    if events != [] {
      StepAgrees(m, r, events[0], numeric);
      StepsAgree(Step(m, events[0], numeric), Read(r, events[0], numeric), events[1..], numeric);
    }
  }

  lemma EmptyShows()
    ensures Kept(EMPTY) && Shows(EMPTY, NO_VIEW)
  {
  }

  /** For every stream of events, what is parsed shows exactly what the events say. */
  lemma ParsedShows(events: seq<Event>, malformed: bool, numeric: Numeric)
    ensures Kept(Parsed(events, malformed, numeric))
    ensures Shows(Parsed(events, malformed, numeric), Meaning(events, malformed, numeric))
  {
    EmptyShows();
    StepsAgree(INITIAL, UNREAD, events, numeric);
  }
}
