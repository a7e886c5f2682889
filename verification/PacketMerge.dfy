/**
 Merging namespaces into a packet: the packet that is written and read back says what
 the old one said, with the merges made and every other namespace as it was.
 */
module PacketMerge {
  import opened Results
  import opened Packet
  import opened PacketMeaning
  import opened PacketWriting
  import opened PacketRoundTrip
  import Registry

  datatype NamespaceMerge = NamespaceMerge(
    prefix: string, attrs: Option<Attrs>, list: Option<ListValue>, replaceAttrs: bool)

  // ----- Merging data -----

  function SetAttrs(d: XmpData, prefix: string, names: Attrs): XmpData {
    d.(attrs := d.attrs[prefix := names])
  }

  function SetList(d: XmpData, prefix: string, value: ListValue): XmpData {
    d.(listItems := d.listItems[prefix := value.items],
       listElementName := d.listElementName[prefix := value.element])
  }

  function AttrsOf(d: XmpData, prefix: string): Attrs {
    if prefix in d.attrs then d.attrs[prefix] else map[]
  }

  function MergedAttrs(d: XmpData, m: NamespaceMerge): XmpData {
    match m.attrs
    case None => d
    case Some(names) =>
      SetAttrs(d, m.prefix, if m.replaceAttrs then names else AttrsOf(d, m.prefix) + names)
  }

  function MergedList(d: XmpData, m: NamespaceMerge): XmpData {
    match m.list
    case None => d
    case Some(value) => SetList(d, m.prefix, value)
  }

  function Merged(d: XmpData, merges: seq<NamespaceMerge>): XmpData
    decreases |merges|
  {
    if merges == [] then d else Merged(MergedList(MergedAttrs(d, merges[0]), merges[0]), merges[1..])
  }

  /** The loop of a merge. */
  method ApplyMerges(existing: XmpData, merges: seq<NamespaceMerge>) returns (data: XmpData)
    ensures data == Merged(existing, merges)
  {
    data := existing;
    for i := 0 to |merges|
      invariant Merged(data, merges[i..]) == Merged(existing, merges)
    {
      var m := merges[i];
      assert merges[i..][1..] == merges[i + 1..];
      if m.attrs.Some? {
        if m.replaceAttrs {
          data := data.(attrs := data.attrs[m.prefix := m.attrs.value]);
        } else {
          var names := if m.prefix in data.attrs then data.attrs[m.prefix] else map[];
          data := data.(attrs := data.attrs[m.prefix := names + m.attrs.value]);
        }
      }
      if m.list.Some? {
        data := data.(listItems := data.listItems[m.prefix := m.list.value.items],
                      listElementName := data.listElementName[m.prefix := m.list.value.element]);
      }
    }
  }

  // ----- Merging views -----

  /** The attributes of one namespace added to, or put in the place of, what was there. */
  function ViewWithAttrs(v: View, uri: string, names: Attrs, replace: bool): View {
    var others := if replace then map k | k in v.attrs && k.0 != uri :: v.attrs[k] else v.attrs;
    v.(attrs := others + map name | name in names :: (uri, name) := names[name])
  }

  function MergedView(v: View, m: NamespaceMerge, uri: string): View {
    var w := match m.attrs { case None => v case Some(names) => ViewWithAttrs(v, uri, names, m.replaceAttrs) };
    match m.list
    case None => w
    case Some(value) => WithListValue(w, uri, value)
  }

  /** Merges into a packet that has these namespaces, by URI. */
  function MergedViews(v: View, merges: seq<NamespaceMerge>, d: XmpData): View
    requires forall m <- merges :: Mergeable(m, d)
    decreases |merges|
  {
    if merges == [] then v
    else
      assert Mergeable(merges[0], d);
      MergedViews(MergedView(v, merges[0], UriOf(d, merges[0].prefix).value), merges[1..], d)
  }

  /** A merge into a namespace that the packet declares or that is registered, of names that can be written. */
  predicate Mergeable(m: NamespaceMerge, d: XmpData) {
    && UriOf(d, m.prefix).Some?
    && (m.attrs.Some? ==> WritableKeys(m.attrs.value))
    && (m.list.Some? ==> WritableValue(m.list.value))
  }

  /** Names that are proper or have white space in them. */
  predicate WritableKeys(names: Attrs) {
    forall name <- names :: Proper(name) || (NameLike(name) && !Unspaced(name))
  }

  predicate ProperKeys(names: Attrs) {
    forall name <- names :: Proper(name)
  }

  /** A list whose name is proper or has white space in it, and whose items have no line ends that are normalised. */
  predicate WritableValue(value: ListValue) {
    && (Proper(value.element) || Spaced(value.element))
    && forall item <- value.items :: Readable(item)
  }

  // ----- Data that was parsed, with merges made -----

  /** Every prefix in use was found in the packet or is registered, and all names can be written. */
  ghost predicate Tidy(d: XmpData) {
    && Sound(d.namespaceUris)
    && (forall p | Used(d, p) :: p in d.namespaceUris || Registry.UriFor(p).Some?)
    && d.listElementName.Keys == d.listItems.Keys
    && (forall p | p in d.attrs :: WritableKeys(d.attrs[p]))
    && (forall p | p in d.listItems :: WritableValue(ListOf(d, p)))
  }

  function ListOf(d: XmpData, prefix: string): ListValue
    requires prefix in d.listItems
  {
    ListValue(d.listItems[prefix], ElementName(d, prefix))
  }

  lemma TidyDistinct(d: XmpData)
    requires Tidy(d)
    ensures Distinct(d)
  {
    forall p, q, uri | Owns(d, p, uri) && Owns(d, q, uri) ensures p == q {
      if p in d.namespaceUris {
        if q !in d.namespaceUris {
          RegisteredOnce(d, q, p, uri);
        }
      } else if q in d.namespaceUris {
        RegisteredOnce(d, p, q, uri);
      } else {
        Registry.Inverse(p, uri);
        Registry.Inverse(q, uri);
      }
    }
  }

  lemma RegisteredOnce(d: XmpData, p: string, q: string, uri: string)
    requires Sound(d.namespaceUris) && Registry.UriFor(p) == Some(uri)
    requires q in d.namespaceUris && d.namespaceUris[q] == uri
    ensures p == q
  {
    Registry.Inverse(p, uri);
    assert SoundPair(q, uri);
    Registry.Inverse(q, uri);
  }

  lemma DigitsOnly(n: nat)
    ensures forall c <- Decimal(n) :: '0' <= c <= '9'
  {
  }

  lemma SyntheticWritable(d: XmpData, n: nat)
    ensures Writable(d, Synthetic(n))
  {
    SyntheticProper(n);
    DigitsOnly(n);
    var digits := Decimal(n);
    assert Synthetic(n)[0] == 'n' && Synthetic(n)[1] == 's' && Synthetic(n)[2..] == Decimal(n);
    forall i | 0 <= i < |Synthetic(n)| ensures Synthetic(n)[i] != ':' {
      if i >= 2 {
        assert Synthetic(n)[i] == digits[i - 2] && digits[i - 2] in digits;
      }
    }
    assert "rdf"[0] == 'r' && "xmlns"[0] == 'x' && "x"[0] == 'x';
  }

  lemma SyntheticProper(n: nat)
    ensures TagName(Synthetic(n))
  {
    DigitsOnly(n);
    forall c <- Synthetic(n) ensures NameChar(c) {
      assert c in "ns" || c in Decimal(n);
    }
  }

  lemma TidyWritable(d: XmpData, p: string)
    requires Tidy(d) && Used(d, p)
    ensures Writable(d, p) && UriOf(d, p).Some?
  {
    var uri := UriOf(d, p).value;
    if p in d.namespaceUris {
      assert SoundPair(p, uri);
    }
    if Registry.UriFor(p) == Some(uri) {
      Registry.Inverse(p, uri);
      Registry.RegisteredNames(uri);
      RegisteredProper(p);
    } else {
      var n: nat :| p == Synthetic(n);
      SyntheticWritable(d, n);
    }
  }

  lemma TidySpellable(d: XmpData)
    requires Tidy(d)
    ensures Spellable(d) && WritableLists(d)
    ensures forall p | p in d.listItems :: UriOf(d, p).Some?
  {
    TidyDistinct(d);
    forall p | Used(d, p) ensures Writable(d, p) && UriOf(d, p).Some? {
      TidyWritable(d, p);
    }
    forall k | HasAttr(d, k) ensures WritableAttr(d, k) {
      assert WritableKeys(d.attrs[k.0]) && Used(d, k.0);
    }
    forall p | p in d.listItems ensures WritableList(d, p) {
      assert Used(d, p) && WritableValue(ListOf(d, p));
    }
  }

  // ----- Merging data merges the view -----

  lemma SetAttrsTidy(d: XmpData, prefix: string, uri: string, names: Attrs)
    requires Tidy(d) && UriOf(d, prefix) == Some(uri) && WritableKeys(names)
    ensures Tidy(SetAttrs(d, prefix, names))
    ensures OneMore(d, SetAttrs(d, prefix, names), prefix, uri)
  {
    var e := SetAttrs(d, prefix, names);
    assert forall p :: Used(e, p) <==> p == prefix || Used(d, p);
    TidyDistinct(d);
    TidyDistinct(e);
    Owners(d, e, prefix, uri);
  }

  lemma SetAttrsAt(d: XmpData, prefix: string, uri: string, names: Attrs, u: string, l: string)
    requires UriOf(d, prefix) == Some(uri) && OneMore(d, SetAttrs(d, prefix, names), prefix, uri)
    ensures AttrAt(SetAttrs(d, prefix, names), u, l) == if u == uri then Get(names, l) else AttrAt(d, u, l)
    ensures ListAt(SetAttrs(d, prefix, names), u) == ListAt(d, u)
    ensures AttrAt(d, uri, l) == Get(AttrsOf(d, prefix), l)
  {
  }

  lemma SetListTidy(d: XmpData, prefix: string, uri: string, value: ListValue)
    requires Tidy(d) && UriOf(d, prefix) == Some(uri) && WritableValue(value)
    ensures Tidy(SetList(d, prefix, value))
    ensures OneMore(d, SetList(d, prefix, value), prefix, uri)
  {
    var e := SetList(d, prefix, value);
    assert forall p :: Used(e, p) <==> p == prefix || Used(d, p);
    TidyDistinct(d);
    TidyDistinct(e);
    Owners(d, e, prefix, uri);
  }

  lemma SetListAt(d: XmpData, prefix: string, uri: string, value: ListValue, u: string, l: string)
    requires UriOf(d, prefix) == Some(uri) && OneMore(d, SetList(d, prefix, value), prefix, uri)
    ensures AttrAt(SetList(d, prefix, value), u, l) == AttrAt(d, u, l)
    ensures ListAt(SetList(d, prefix, value), u) == if u == uri then Some(value) else ListAt(d, u)
  {
  }

  lemma ViewAttrsAt(v: View, uri: string, names: Attrs, replace: bool, u: string, l: string)
    ensures Get(ViewWithAttrs(v, uri, names, replace).attrs, (u, l))
         == if u != uri then Get(v.attrs, (u, l))
            else if l in names then Some(names[l])
            else if replace then None
            else Get(v.attrs, (u, l))
  {
  }

  lemma MergedAttrsShow(d: XmpData, m: NamespaceMerge, uri: string, v: View)
    requires Tidy(d) && Shows(d, v) && Mergeable(m, d) && UriOf(d, m.prefix) == Some(uri) && m.attrs.Some?
    ensures Tidy(MergedAttrs(d, m))
    ensures Shows(MergedAttrs(d, m), ViewWithAttrs(v, uri, m.attrs.value, m.replaceAttrs))
  {
    var names := if m.replaceAttrs then m.attrs.value else AttrsOf(d, m.prefix) + m.attrs.value;
    var e, w := SetAttrs(d, m.prefix, names), ViewWithAttrs(v, uri, m.attrs.value, m.replaceAttrs);
    SetAttrsTidy(d, m.prefix, uri, names);
    forall u, l ensures AttrAt(e, u, l) == Get(w.attrs, (u, l)) {
      SetAttrsAt(d, m.prefix, uri, names, u, l);
      ViewAttrsAt(v, uri, m.attrs.value, m.replaceAttrs, u, l);
      assert AttrAt(d, u, l) == Get(v.attrs, (u, l)) && AttrAt(d, uri, l) == Get(v.attrs, (uri, l));
    }
    forall u ensures ListAt(e, u) == Get(w.lists, u) {
      SetAttrsAt(d, m.prefix, uri, names, u, "");
      assert ListAt(d, u) == Get(v.lists, u);
    }
  }

  lemma MergedListShow(d: XmpData, m: NamespaceMerge, uri: string, v: View)
    requires Tidy(d) && Shows(d, v) && Mergeable(m, d) && UriOf(d, m.prefix) == Some(uri)
    ensures Tidy(MergedList(d, m))
    ensures Shows(MergedList(d, m), match m.list { case None => v case Some(value) => WithListValue(v, uri, value) })
  {
    if m.list.Some? {
      var e, w := SetList(d, m.prefix, m.list.value), WithListValue(v, uri, m.list.value);
      SetListTidy(d, m.prefix, uri, m.list.value);
      forall u, l ensures AttrAt(e, u, l) == Get(w.attrs, (u, l)) {
        SetListAt(d, m.prefix, uri, m.list.value, u, l);
        assert AttrAt(d, u, l) == Get(v.attrs, (u, l));
      }
      forall u ensures ListAt(e, u) == Get(w.lists, u) {
        SetListAt(d, m.prefix, uri, m.list.value, u, "");
        assert ListAt(d, u) == Get(v.lists, u);
      }
    }
  }

  lemma MergeShows(d: XmpData, m: NamespaceMerge, v: View)
    requires Tidy(d) && Shows(d, v) && Mergeable(m, d)
    ensures var e := MergedList(MergedAttrs(d, m), m);
            && Tidy(e) && Shows(e, MergedView(v, m, UriOf(d, m.prefix).value))
            && e.namespaceUris == d.namespaceUris
  {
    var uri := UriOf(d, m.prefix).value;
    match m.attrs
    case None =>
      MergedListShow(d, m, uri, v);
    case Some(names) =>
      MergedAttrsShow(d, m, uri, v);
      MergedListShow(MergedAttrs(d, m), m, uri, ViewWithAttrs(v, uri, names, m.replaceAttrs));
  }

  /** Only the namespaces of a packet matter to what a merge is made into. */
  lemma {:induction false} SameNamespaces(v: View, merges: seq<NamespaceMerge>, d: XmpData, e: XmpData)
    requires d.namespaceUris == e.namespaceUris && forall m <- merges :: Mergeable(m, d)
    ensures forall m <- merges :: Mergeable(m, e)
    ensures MergedViews(v, merges, e) == MergedViews(v, merges, d)
    decreases |merges|
  {
    forall m <- merges ensures Mergeable(m, e) {
      assert Mergeable(m, d);
    }
    if merges != [] {
      assert Mergeable(merges[0], d);
      SameNamespaces(MergedView(v, merges[0], UriOf(d, merges[0].prefix).value), merges[1..], d, e);
    }
  }

  lemma {:induction false} MergesShow(d: XmpData, merges: seq<NamespaceMerge>, v: View)
    requires Tidy(d) && Shows(d, v) && forall m <- merges :: Mergeable(m, d)
    ensures Tidy(Merged(d, merges)) && Shows(Merged(d, merges), MergedViews(v, merges, d))
    decreases |merges|
  {
    if merges != [] {
      var m := merges[0];
      assert Mergeable(m, d);
      var e, w := MergedList(MergedAttrs(d, m), m), MergedView(v, m, UriOf(d, m.prefix).value);
      MergeShows(d, m, v);
      SameNamespaces(w, merges[1..], d, e);
      MergesShow(e, merges[1..], w);
    }
  }

  // ----- What was parsed can be written again -----

  /** A text without line ends that are normalised; a plain one if `plain` is set. */
  predicate Fine(s: string, plain: bool) {
    Readable(s) && (plain ==> Plain(s))
  }

  predicate AllFine(items: seq<string>, plain: bool) {
    forall item <- items :: Fine(item, plain)
  }

  /** A list that parsing has kept, or may keep. */
  predicate CleanList(items: seq<string>, element: string, plain: bool) {
    AllFine(items, plain) && Proper(element) && element != "li"
  }

  ghost predicate CleanData(d: XmpData, plain: bool) {
    && (forall q | q in d.attrs :: ProperKeys(d.attrs[q]))
    && d.listElementName.Keys == d.listItems.Keys
    && (forall q | q in d.listItems :: CleanList(d.listItems[q], d.listElementName[q], plain))
  }

  predicate CleanState(s: ParseState, plain: bool) {
    AllFine(s.items, plain) && Fine(s.liText, plain) && (s.list.Some? ==> Proper(s.list.value.local))
  }

  /** What parsing keeps: names are proper, and no list is named `li`. */
  ghost predicate Clean(p: Parsing, plain: bool) {
    CleanData(p.data, plain) && CleanState(p.state, plain)
  }

  predicate ProperPairs(pairs: Pairs) {
    forall pair <- pairs :: Proper(pair.0)
  }

  /** An event whose names are proper and whose text is fine. */
  predicate Legible(e: Event, plain: bool) {
    match e
    case Start(name, pairs) => Proper(name) && ProperPairs(pairs)
    case Empty(name, pairs) => Proper(name) && ProperPairs(pairs)
    case Text(content) => Fine(content, plain)
    case _ => true
  }

  ghost predicate AllLegible(events: seq<Event>, plain: bool) {
    forall e <- events :: Legible(e, plain)
  }

  lemma LocalProper(name: string)
    requires Proper(name)
    ensures Proper(SplitQname(name).1)
  {
    forall c <- SplitQname(name).1 ensures NameChar(c) {
      assert c in name;
    }
  }

  lemma {:induction false} OrdinaryProper(pairs: Pairs, numeric: Numeric)
    requires ProperPairs(pairs)
    ensures ProperPairs(Ordinary(pairs, numeric))
  {
    if pairs != [] {
      OrdinaryProper(pairs[1..], numeric);
      assert pairs[0] in pairs;
    }
  }

  lemma CleanAttr(d: XmpData, scope: Scope, key: string, value: string, plain: bool)
    requires CleanData(d, plain) && Proper(key)
    ensures CleanData(AddAttr(d, scope, key, value), plain)
  {
    LocalProper(key);
  }

  lemma {:induction false} CleanAttrs(d: XmpData, scope: Scope, pairs: Pairs, plain: bool)
    requires CleanData(d, plain) && ProperPairs(pairs)
    ensures CleanData(AddAttrs(d, scope, pairs), plain)
    decreases |pairs|
  {
    if pairs != [] {
      assert pairs[0] in pairs;
      CleanAttr(d, scope, pairs[0].0, pairs[0].1, plain);
      CleanAttrs(AddAttr(d, scope, pairs[0].0, pairs[0].1), scope, pairs[1..], plain);
    }
  }

  lemma CleanStart(p: Parsing, name: string, scope: Scope, pairs: Pairs, plain: bool)
    requires Clean(p, plain) && Proper(name) && ProperPairs(pairs)
    ensures Clean(HandledStart(p, name, scope, pairs), plain)
  {
    LocalProper(name);
    CleanAttrs(p.data, scope, pairs, plain);
  }

  lemma CleanEnd(p: Parsing, name: string, plain: bool)
    requires Clean(p, plain)
    ensures Clean(HandledEnd(p, name), plain)
  {
  }

  lemma FineAppend(a: string, b: string, plain: bool)
    requires Fine(a, plain) && Fine(b, plain)
    ensures Fine(a + b, plain)
  {
    if plain {
      PlainAppend(a, b);
    }
  }

  lemma CleanStep(m: Machine, e: Event, numeric: Numeric, plain: bool)
    requires Clean(m.parsing, plain) && Legible(e, plain)
    ensures Clean(Step(m, e, numeric).parsing, plain)
  {
    match e
    case Start(name, pairs) =>
      OrdinaryProper(pairs, numeric);
      CleanStart(m.parsing, name, ScopeOf(Top(m.stack), pairs, numeric), Ordinary(pairs, numeric), plain);
    case Empty(name, pairs) =>
      var scope, ordinary := ScopeOf(Top(m.stack), pairs, numeric), Ordinary(pairs, numeric);
      OrdinaryProper(pairs, numeric);
      CleanStart(m.parsing, name, scope, ordinary, plain);
      CleanEnd(HandledStart(m.parsing, name, scope, ordinary), name, plain);
    case Text(content) =>
      FineAppend(m.parsing.state.liText, content, plain);
    case End(name) =>
      CleanEnd(m.parsing, name, plain);
    case Other =>
  }

  lemma {:induction false} CleanSteps(m: Machine, events: seq<Event>, numeric: Numeric, plain: bool)
    requires Clean(m.parsing, plain) && AllLegible(events, plain)
    ensures Clean(Steps(m, events, numeric).parsing, plain)
    decreases |events|
  {
    if events != [] {
      assert Legible(events[0], plain);
      CleanStep(m, events[0], numeric, plain);
      CleanSteps(Step(m, events[0], numeric), events[1..], numeric, plain);
    }
  }

  /** What was parsed can be written again: no list is named `li`, and items are plain if all texts are. */
  lemma ParsedTidy(events: seq<Event>, malformed: bool, numeric: Numeric, plain: bool)
    requires AllLegible(events, plain)
    ensures var d := Parsed(events, malformed, numeric);
            Tidy(d) && ProperAttrs(d) && ProperLists(d) && NoLi(d) && (plain ==> PlainItems(d))
  {
    var d := Parsed(events, malformed, numeric);
    CleanSteps(INITIAL, events, numeric, plain);
    ParsedShows(events, malformed, numeric);
    forall p | p in d.listItems ensures WritableValue(ListOf(d, p)) && (plain ==> AllPlain(d.listItems[p])) {
      assert CleanList(d.listItems[p], d.listElementName[p], plain);
    }
  }

  // ----- The law of a merge -----

  lemma SameViewShows(d: XmpData, e: XmpData, v: View)
    requires Shows(d, v)
    ensures Shows(e, v) <==> SameView(d, e)
  {
    assert forall uri, local :: AttrAt(d, uri, local) == Get(v.attrs, (uri, local));
    assert forall uri :: ListAt(d, uri) == Get(v.lists, uri);
  }

  /** A packet that survives being written, if every prefix has a URI. */
  ghost predicate Lasting(d: XmpData) {
    ProperAttrs(d) && ProperLists(d) && NoLi(d) && PlainItems(d)
  }

  ghost predicate LastingList(element: string, items: seq<string>) {
    Proper(element) && element != "li" && AllPlain(items)
  }

  /** A merge that brings only proper names, no list named `li`, and plain items. */
  ghost predicate Harmless(m: NamespaceMerge) {
    && (m.attrs.Some? ==> ProperKeys(m.attrs.value))
    && (m.list.Some? ==> LastingList(m.list.value.element, m.list.value.items))
  }

  lemma AttrsLast(d: XmpData, m: NamespaceMerge)
    requires ProperAttrs(d) && Harmless(m)
    ensures ProperAttrs(MergedList(MergedAttrs(d, m), m))
  {
    forall k | HasAttr(MergedAttrs(d, m), k) ensures Proper(k.1) {
      assert HasAttr(d, k) ==> Proper(k.1);
    }
  }

  lemma ListsLast(d: XmpData, m: NamespaceMerge)
    requires Lasting(d) && Harmless(m)
    ensures var e := MergedList(MergedAttrs(d, m), m);
            forall p | p in e.listItems :: LastingList(ElementName(e, p), e.listItems[p])
  {
    var e := MergedList(MergedAttrs(d, m), m);
    forall p | p in e.listItems ensures LastingList(ElementName(e, p), e.listItems[p]) {
      assert p in d.listItems ==> LastingList(ElementName(d, p), d.listItems[p]);
    }
  }

  lemma MergeLasts(d: XmpData, m: NamespaceMerge)
    requires Lasting(d) && Harmless(m)
    ensures Lasting(MergedList(MergedAttrs(d, m), m))
  {
    AttrsLast(d, m);
    ListsLast(d, m);
  }

  lemma {:induction false} MergesLast(d: XmpData, merges: seq<NamespaceMerge>)
    requires Lasting(d) && forall m <- merges :: Harmless(m)
    ensures Lasting(Merged(d, merges))
    decreases |merges|
  {
    if merges != [] {
      assert Harmless(merges[0]);
      MergeLasts(d, merges[0]);
      MergesLast(MergedList(MergedAttrs(d, merges[0]), merges[0]), merges[1..]);
    }
  }

  /**
   Whatever packet was there, parsing what a merge writes shows what the old packet meant
   with the merges made, by URI, exactly when it leaves no name with white space in it, no list
   that is named `li`, and only plain items.
   */
  lemma MergeReadsBack(events: seq<Event>, malformed: bool, merges: seq<NamespaceMerge>, o: Order,
                       lib: Library, numeric: Numeric, t: Tags)
    requires AllLegible(events, false)
    requires forall m <- merges :: Mergeable(m, Parsed(events, malformed, numeric))
    requires ReadsXml(lib) && Standard(t)
    requires Orders(o, Merged(Parsed(events, malformed, numeric), merges))
    ensures var d := Parsed(events, malformed, numeric);
            var e := Merged(d, merges);
            var v := MergedViews(Meaning(events, malformed, numeric), merges, d);
            Shows(Reread(e, o, lib, numeric, t), v) <==> Lasting(e)
  {
    var d := Parsed(events, malformed, numeric);
    var v := MergedViews(Meaning(events, malformed, numeric), merges, d);
    ParsedTidy(events, malformed, numeric, false);
    ParsedShows(events, malformed, numeric);
    MergesShow(d, merges, Meaning(events, malformed, numeric));
    TidyReadsBack(Merged(d, merges), v, o, lib, numeric, t);
  }

  /** And so whenever all texts of the old packet are plain and no merge brings anything else. */
  lemma HarmlessLast(events: seq<Event>, malformed: bool, merges: seq<NamespaceMerge>, numeric: Numeric)
    requires AllLegible(events, true) && forall m <- merges :: Harmless(m)
    ensures Lasting(Merged(Parsed(events, malformed, numeric), merges))
  {
    ParsedTidy(events, malformed, numeric, true);
    MergesLast(Parsed(events, malformed, numeric), merges);
  }

  lemma TidyReadsBack(d: XmpData, v: View, o: Order, lib: Library, numeric: Numeric, t: Tags)
    requires Tidy(d) && Shows(d, v) && Orders(o, d) && ReadsXml(lib) && Standard(t)
    ensures Shows(Reread(d, o, lib, numeric, t), v) <==> Lasting(d)
  {
    TidySpellable(d);
    LiIsLost(d, o, lib, numeric, t);
    SameViewShows(d, Reread(d, o, lib, numeric, t), v);
  }

  /** A namespace that no merge names is left exactly as it was. */
  lemma {:induction false} OthersUntouched(v: View, merges: seq<NamespaceMerge>, d: XmpData, uri: string)
    requires forall m <- merges :: Mergeable(m, d)
    requires forall m <- merges :: UriOf(d, m.prefix) != Some(uri)
    ensures Get(MergedViews(v, merges, d).lists, uri) == Get(v.lists, uri)
    ensures forall l :: Get(MergedViews(v, merges, d).attrs, (uri, l)) == Get(v.attrs, (uri, l))
    decreases |merges|
  {
    if merges != [] {
      assert Mergeable(merges[0], d);
      var w := MergedView(v, merges[0], UriOf(d, merges[0].prefix).value);
      OthersUntouched(w, merges[1..], d, uri);
    }
  }

  /** Any finite set can be put in order, so there is always an order to write in. */
  lemma Enumerate<T>(s: set<T>) returns (order: seq<T>)
    ensures Once(order) && forall x :: x in order <==> x in s
  {
    order := [];
    var rest := s;
    while rest != {}
      invariant rest <= s && Once(order)
      invariant forall x :: x in order <==> x in s - rest
      decreases |rest|
    {
      var x :| x in rest;
      OnceMore(order, x);
      order := order + [x];
      rest := rest - {x};
    }
  }

  lemma OnceMore<T>(s: seq<T>, x: T)
    requires Once(s) && x !in s
    ensures Once(s + [x])
  {
    forall i, j | 0 <= i < j < |s + [x]| ensures (s + [x])[i] != (s + [x])[j] {
      if j == |s| {
        assert s[i] in s;
      }
    }
  }

  lemma OrderExists(d: XmpData) returns (o: Order)
    ensures Orders(o, d)
  {
    var prefixes := Enumerate(d.attrs.Keys + d.listItems.Keys);
    var attrs := Enumerate(set p, name | p in d.attrs && name in d.attrs[p] :: (p, name));
    var lists := Enumerate(d.listItems.Keys);
    o := Order(prefixes, attrs, lists);
  }
}
