/**
 What the parser makes of XML that others have written: which names, references and
 declarations mean what, and what any description says, whatever its prefixes are.
 */
module PacketReading {
  import opened Results
  import opened Packet
  import opened PacketMeaning
  import opened PacketWriting
  import Registry

  // ----- Names -----

  lemma RegisteredIff(prefix: string, uri: string)
    ensures Registry.UriFor(prefix) == Some(uri)
       <==> || (prefix, uri) == ("wdtag", "http://ns.yu-ai-manager/wdtag/1.0/")
            || (prefix, uri) == ("sweep", "http://ns.yu-ai-manager/sweep/1.0/")
            || (prefix, uri) == ("dc", "http://purl.org/dc/elements/1.1/")
  {
    assert "wdtag"[0] == 'w' && "sweep"[0] == 's' && "dc"[0] == 'd';
  }

  /** The prefix of a name ends at its first colon; a name without one has the empty prefix. */
  lemma NameIff(name: string, prefix: string, local: string)
    ensures SplitQname(name) == (prefix, local)
       <==> (':' !in prefix && name == prefix + ":" + local) || (':' !in name && prefix == "" && local == name)
  {
    if ':' in name {
      var k := Colon(name);
      assert name == name[..k] + ":" + name[k + 1..];
    }
    if ':' !in prefix && name == prefix + ":" + local {
      QnameSplits(prefix, local);
    }
  }

  // ----- The prefixes that are given -----

  /** What digits stand for. */
  function NumberOf(digits: string): int {
    if digits == [] then 0 else 10 * NumberOf(digits[..|digits| - 1]) + digits[|digits| - 1] as int - '0' as int
  }

  /** Synthetic prefixes are numbered, in decimal digits without zeros in front. */
  lemma {:induction false} SyntheticIs(n: nat)
    ensures exists digits :: Synthetic(n) == "ns" + digits && NumberOf(digits) == n && IsNumeral(digits)
  {
    DecimalIs(n);
  }

  predicate IsNumeral(digits: string) {
    && digits != [] && (forall c <- digits :: '0' <= c <= '9') && (|digits| > 1 ==> digits[0] != '0')
  }

  lemma {:induction false} DecimalIs(n: nat)
    ensures NumberOf(Decimal(n)) == n && IsNumeral(Decimal(n)) && (n > 0 ==> Decimal(n)[0] != '0')
  {
    var digits := Decimal(n);
    DecimalLast(n);
    if n >= 10 {
      DecimalIs(n / 10);
    } else {
      assert digits[..0] == [];
    }
  }

  /** The number of the synthetic prefix is the smallest one that is free. */
  lemma {:induction false} SmallestFree(uris: map<string, string>, n: nat, m: nat)
    requires forall k: nat | k < n :: Synthetic(k) in uris
    requires m < FirstFree(uris, n)
    ensures Synthetic(m) in uris
    decreases |uris| - n
  {
    if Synthetic(n) in uris {
      TakenCount(uris.Keys, n + 1);
      if m > n {
        SmallestFree(uris, n + 1, m);
      }
    }
  }

  /** A URI keeps its prefix; a new one gets its registered prefix, or else a synthetic one. */
  lemma ResolvedIs(uris: map<string, string>, uri: string)
    ensures uri in uris.Values ==> Get(uris, Resolved(uris, uri)) == Some(uri)
    ensures uri !in uris.Values && Registry.PrefixFor(uri).Some? ==>
              Registry.UriFor(Resolved(uris, uri)) == Some(uri)
    ensures uri !in uris.Values && Registry.PrefixFor(uri).None? ==>
              exists n: nat ::
                && Resolved(uris, uri) == Synthetic(n) && Synthetic(n) !in uris
                && forall m: nat | m < n :: Synthetic(m) in uris
  {
    if uri !in uris.Values {
      if Registry.PrefixFor(uri).Some? {
        Registry.Inverse(Registry.PrefixFor(uri).value, uri);
      } else {
        var n := FirstFree(uris, 0);
        forall m: nat | m < n ensures Synthetic(m) in uris {
          SmallestFree(uris, 0, m);
        }
      }
    }
  }

  // ----- References -----

  lemma PlainUnescaped(c: char, rest: string, numeric: Numeric)
    requires c != '&' && Unescape(rest, numeric).Some?
    ensures Unescape([c] + rest, numeric) == Some([c] + Unescape(rest, numeric).value)
    ensures Unescape([], numeric) == Some([])
  {
    assert ([c] + rest)[1..] == rest;
  }

  /** The five predefined references. */
  lemma PredefinedReferences(rest: string, numeric: Numeric)
    requires Unescape(rest, numeric).Some?
    ensures Unescape("&" + "amp" + ";" + rest, numeric) == Some("&" + Unescape(rest, numeric).value)
    ensures Unescape("&" + "lt" + ";" + rest, numeric) == Some("<" + Unescape(rest, numeric).value)
    ensures Unescape("&" + "gt" + ";" + rest, numeric) == Some(">" + Unescape(rest, numeric).value)
    ensures Unescape("&" + "quot" + ";" + rest, numeric) == Some("\"" + Unescape(rest, numeric).value)
    ensures Unescape("&" + "apos" + ";" + rest, numeric) == Some("'" + Unescape(rest, numeric).value)
  {
    NamedReference("amp", "&", rest, numeric);
    NamedReference("lt", "<", rest, numeric);
    NamedReference("gt", ">", rest, numeric);
    NamedReference("quot", "\"", rest, numeric);
    NamedReference("apos", "'", rest, numeric);
  }

  lemma NamedReference(name: string, text: string, rest: string, numeric: Numeric)
    requires Unescape(rest, numeric).Some?
    requires (name, text) in {("amp", "&"), ("lt", "<"), ("gt", ">"), ("quot", "\""), ("apos", "'")}
    ensures Unescape("&" + name + ";" + rest, numeric) == Some(text + Unescape(rest, numeric).value)
  {
    assert "amp"[0] == 'a' && "amp"[1] == 'm' && "lt"[0] == 'l' && "gt"[0] == 'g' && "quot"[0] == 'q';
    assert "apos"[0] == 'a' && "apos"[1] == 'p';
    UnescapeNamed(name, text, rest, numeric);
  }

  /** A number stands for the character that the library gives it. */
  lemma NumberedReference(digits: string, rest: string, numeric: Numeric)
    requires ';' !in digits && '&' !in digits && Unescape(rest, numeric).Some?
    ensures Unescape("&" + ("#" + digits) + ";" + rest, numeric)
         == match numeric("#" + digits) { case None => None case Some(c) => Some(c + Unescape(rest, numeric).value) }
  {
    var name := "#" + digits;
    assert name[0] == '#' && name[1..] == digits;
    NotPredefined(name);
    ReferenceAt(name, rest, numeric);
  }

  lemma NotPredefined(name: string)
    requires name != [] && name[0] == '#'
    ensures name !in ["amp", "lt", "gt", "quot", "apos"]
  {
    assert "amp"[0] == 'a' && "lt"[0] == 'l' && "gt"[0] == 'g' && "quot"[0] == 'q' && "apos"[0] == 'a';
  }

  lemma ReferenceAt(name: string, rest: string, numeric: Numeric)
    requires ';' !in name && '&' !in name
    ensures Unescape("&" + name + ";" + rest, numeric)
         == (match Entity(name, numeric)
             case None => None
             case Some(e) => match Unescape(rest, numeric) case None => None case Some(t) => Some(e + t))
  {
    var tail := name + ";" + rest;
    assert "&" + name + ";" + rest == ['&'] + tail;
    assert (['&'] + tail)[1..] == tail;
    FindSemicolon(name, rest);
    ReferenceParts(name, rest, tail);
  }

  /** With any other reference the whole value is malformed. */
  lemma UnknownReference(name: string, rest: string, numeric: Numeric)
    requires ';' !in name && '&' !in name && name !in ["amp", "lt", "gt", "quot", "apos"]
    requires name == [] || name[0] != '#'
    ensures Unescape("&" + name + ";" + rest, numeric) == None
  {
    ReferenceAt(name, rest, numeric);
  }

  /** So it is if a reference does not end, or the next one starts before it does. */
  lemma OpenReference(name: string, rest: string, numeric: Numeric)
    requires ';' !in name && '&' !in name
    ensures Unescape(['&'] + name, numeric) == None
    ensures Unescape(['&'] + (name + ['&'] + rest), numeric) == None
  {
    NoSemicolon(name, []);
    NoSemicolon(name, ['&'] + rest);
    assert name + [] == name && name + (['&'] + rest) == name + ['&'] + rest;
    assert (['&'] + name)[1..] == name;
    assert (['&'] + (name + ['&'] + rest))[1..] == name + ['&'] + rest;
  }

  lemma {:induction false} NoSemicolon(name: string, rest: string)
    requires ';' !in name && '&' !in name && (rest == [] || rest[0] == '&')
    ensures Semicolon(name + rest).None?
  {
    if name == [] {
      assert name + rest == rest;
    } else {
      assert (name + rest)[1..] == name[1..] + rest;
      NoSemicolon(name[1..], rest);
    }
  }

  /** What is malformed before its end is malformed. */
  lemma MalformedLater(name: string, c: char, rest: string, numeric: Numeric)
    requires Unescape(rest, numeric).None? && c != '&' && ';' !in name && '&' !in name
    ensures Unescape([c] + rest, numeric).None? && Unescape("&" + name + ";" + rest, numeric).None?
  {
    assert ([c] + rest)[1..] == rest;
    ReferenceAt(name, rest, numeric);
  }

  /** A malformed value is taken for the empty one, and any other for what it stands for. */
  lemma ValueIs(raw: string, numeric: Numeric)
    ensures Unescape(raw, numeric).None? ==> AttrValue(raw, numeric) == ""
    ensures forall text :: Unescape(raw, numeric) == Some(text) ==> AttrValue(raw, numeric) == text
  {
  }

  // ----- Escaping -----

  /** Text is escaped character by character. */
  lemma TextEscapeIs(a: string, b: string)
    ensures TextEscape([]) == [] && TextEscape(a + b) == TextEscape(a) + TextEscape(b)
    ensures TextEscape("&") == "&amp;" && TextEscape("<") == "&lt;" && TextEscape(">") == "&gt;"
    ensures forall c | c !in "&<>" :: TextEscape([c]) == [c]
  {
    ReplaceAppend(a, b, '&', "&amp;");
    var a1, b1 := Replace(a, '&', "&amp;"), Replace(b, '&', "&amp;");
    ReplaceAppend(a1, b1, '<', "&lt;");
    ReplaceAppend(Replace(a1, '<', "&lt;"), Replace(b1, '<', "&lt;"), '>', "&gt;");
    EscapeThree();
    forall c | c !in "&<>" ensures TextEscape([c]) == [c] {
      NothingToReplace([c], '&', "&amp;");
      NothingToReplace([c], '<', "&lt;");
      NothingToReplace([c], '>', "&gt;");
    }
  }

  lemma EscapeThree()
    ensures TextEscape("&") == "&amp;" && TextEscape("<") == "&lt;" && TextEscape(">") == "&gt;"
  {
    TextAmpersand('&', "&amp;");
    TextLess('<', "&lt;");
    TextGreater('>', "&gt;");
  }

  lemma TextAmpersand(c: char, reference: string)
    requires c == '&' && reference == "&amp;"
    ensures TextEscape([c]) == reference
  {
    ReplaceOne(c, '&', "&amp;");
    assert '<' !in reference && '>' !in reference;
    NothingToReplace(reference, '<', "&lt;");
    NothingToReplace(reference, '>', "&gt;");
  }

  lemma TextLess(c: char, reference: string)
    requires c == '<' && reference == "&lt;"
    ensures TextEscape([c]) == reference
  {
    ReplaceOne(c, '&', "&amp;");
    ReplaceOne(c, '<', "&lt;");
    NothingToReplace(reference, '>', "&gt;");
  }

  lemma TextGreater(c: char, reference: string)
    requires c == '>' && reference == "&gt;"
    ensures TextEscape([c]) == reference
  {
    ReplaceOne(c, '&', "&amp;");
    ReplaceOne(c, '<', "&lt;");
    ReplaceOne(c, '>', "&gt;");
  }

  /** So are attribute values, whose quotes are escaped too. */
  lemma AttrEscapeIs(a: string, b: string)
    ensures AttrEscape([]) == [] && AttrEscape(a + b) == AttrEscape(a) + AttrEscape(b)
    ensures AttrEscape("&") == "&" + "amp" + ";" && AttrEscape("<") == "&" + "lt" + ";"
    ensures AttrEscape(">") == "&" + "gt" + ";" && AttrEscape("\"") == "&" + "quot" + ";"
    ensures forall c | c !in "&<>\"" :: AttrEscape([c]) == [c]
  {
    AttrEscapeAppend(a, b);
    EscapeAmpersand('&', "amp");
    EscapeLess('<', "lt");
    EscapeGreater('>', "gt");
    EscapeQuote('"', "quot");
    forall c | c !in "&<>\"" ensures AttrEscape([c]) == [c] {
      EscapeOther(c);
    }
  }

  // ----- Declarations -----

  lemma DeclaredIff(key: string, prefix: string)
    ensures Declared(key) == Some(prefix) <==> key == "xmlns:" + prefix || (key == "xmlns" && prefix == "")
  {
    var declaration := "xmlns:" + prefix;
    assert declaration[..6] == "xmlns:" && declaration[6..] == prefix;
    assert |"xmlns"| == 5;
    if |key| >= 6 && key[..6] == "xmlns:" {
      assert key == "xmlns:" + key[6..];
    }
  }

  /** The i-th attribute is the last one that declares the prefix. */
  predicate LastDeclares(pairs: Pairs, i: nat, prefix: string) {
    && i < |pairs| && Declared(pairs[i].0) == Some(prefix)
    && forall j | i < j < |pairs| :: Declared(pairs[j].0) != Some(prefix)
  }

  predicate NoneDeclares(pairs: Pairs, prefix: string) {
    forall i | 0 <= i < |pairs| :: Declared(pairs[i].0) != Some(prefix)
  }

  /** A prefix stands for what the last declaration in the tag says, else for what it stood for around it. */
  ghost predicate ScopeSays(outer: Scope, pairs: Pairs, numeric: Numeric, prefix: string, uri: Option<string>) {
    && (forall i: nat | LastDeclares(pairs, i, prefix) :: uri == Some(AttrValue(pairs[i].1, numeric)))
    && (NoneDeclares(pairs, prefix) ==> uri == Get(outer, prefix))
  }

  lemma {:induction false} ScopeMeans(outer: Scope, pairs: Pairs, numeric: Numeric, prefix: string)
    ensures ScopeSays(outer, pairs, numeric, prefix, Get(ScopeOf(outer, pairs, numeric), prefix))
    decreases |pairs|
  {
    if pairs != [] {
      var (key, raw) := pairs[0];
      match Declared(key)
      case None =>
        ScopeMeans(outer, pairs[1..], numeric, prefix);
        OneMoreDeclared(outer, outer, pairs, numeric, prefix, Get(ScopeOf(outer, pairs, numeric), prefix));
      case Some(p) =>
        var inner := outer[p := AttrValue(raw, numeric)];
        ScopeMeans(inner, pairs[1..], numeric, prefix);
        OneMoreDeclared(outer, inner, pairs, numeric, prefix, Get(ScopeOf(outer, pairs, numeric), prefix));
    }
  }

  lemma OneMoreDeclared(outer: Scope, inner: Scope, pairs: Pairs, numeric: Numeric, prefix: string, uri: Option<string>)
    requires pairs != [] && ScopeSays(inner, pairs[1..], numeric, prefix, uri)
    requires Get(inner, prefix)
          == if Declared(pairs[0].0) == Some(prefix) then Some(AttrValue(pairs[0].1, numeric)) else Get(outer, prefix)
    ensures ScopeSays(outer, pairs, numeric, prefix, uri)
  {
    var rest := pairs[1..];
    assert forall j | 0 <= j < |rest| :: rest[j] == pairs[j + 1];
    forall i: nat | LastDeclares(pairs, i, prefix) ensures uri == Some(AttrValue(pairs[i].1, numeric)) {
      if i > 0 {
        assert LastDeclares(rest, i - 1, prefix);
      } else {
        assert NoneDeclares(rest, prefix);
      }
    }
    assert NoneDeclares(pairs, prefix) ==> NoneDeclares(rest, prefix);
  }

  lemma ScopeOne(outer: Scope, pair: (string, string), numeric: Numeric)
    ensures ScopeOf(outer, [pair], numeric)
         == match Declared(pair.0) { case None => outer case Some(p) => outer[p := AttrValue(pair.1, numeric)] }
    ensures Ordinary([pair], numeric)
         == if Declared(pair.0).Some? then [] else [(pair.0, AttrValue(pair.1, numeric))]
  {
    assert [pair][1..] == [];
  }

  /** The other attributes are kept in their order, with their values unescaped. */
  lemma OrdinaryIs(a: Pairs, b: Pairs, key: string, raw: string, numeric: Numeric)
    ensures Ordinary([], numeric) == [] && Ordinary(a + b, numeric) == Ordinary(a, numeric) + Ordinary(b, numeric)
    ensures Ordinary([(key, raw)], numeric)
         == if key == "xmlns" || "xmlns:" <= key then [] else [(key, AttrValue(raw, numeric))]
  {
    ScopeAppend(map[], a, b, numeric);
    ScopeOne(map[], (key, raw), numeric);
    if "xmlns:" <= key {
      assert key == "xmlns:" + key[6..];
      DeclaredIff(key, key[6..]);
    } else if Declared(key).Some? {
      DeclaredIff(key, Declared(key).value);
    } else {
      DeclaredIff(key, "");
    }
  }

  // ----- Attributes -----

  /** The name has a prefix in scope other than `rdf`, which stands for the URI. */
  ghost predicate InScopeAs(name: string, scope: Scope, p: string, uri: string, local: string) {
    ':' !in p && p != "" && p != "rdf" && name == p + ":" + local && Get(scope, p) == Some(uri)
  }

  /** An attribute is kept exactly when it has a prefix in scope other than `rdf`, under the URI of that. */
  lemma TargetIff(key: string, scope: Scope, uri: string, local: string)
    ensures AttrTarget(key, scope) == Some((uri, local)) <==> exists p :: InScopeAs(key, scope, p, uri, local)
  {
    var (prefix, rest) := SplitQname(key);
    NameIff(key, prefix, rest);
    if AttrTarget(key, scope) == Some((uri, local)) {
      assert InScopeAs(key, scope, prefix, uri, local);
    }
    if p :| InScopeAs(key, scope, p, uri, local) {
      QnameSplits(p, local);
    }
  }

  predicate LastSets(scope: Scope, pairs: Pairs, i: nat, target: (string, string)) {
    && i < |pairs| && AttrTarget(pairs[i].0, scope) == Some(target)
    && forall j | i < j < |pairs| :: AttrTarget(pairs[j].0, scope) != Some(target)
  }

  predicate NoneSets(scope: Scope, pairs: Pairs, target: (string, string)) {
    forall i | 0 <= i < |pairs| :: AttrTarget(pairs[i].0, scope) != Some(target)
  }

  /** The last attribute of a URI and a name gives its value. */
  ghost predicate AttrsSay(
      scope: Scope, pairs: Pairs, target: (string, string), before: Option<string>, after: Option<string>)
  {
    && (forall i: nat | LastSets(scope, pairs, i, target) :: after == Some(pairs[i].1))
    && (NoneSets(scope, pairs, target) ==> after == before)
  }

  lemma {:induction false} AttrsMean(v: View, scope: Scope, pairs: Pairs, target: (string, string))
    ensures AttrsSay(scope, pairs, target, Get(v.attrs, target), Get(PutAttrs(v, scope, pairs).attrs, target))
    ensures PutAttrs(v, scope, pairs).lists == v.lists
    decreases |pairs|
  {
    if pairs != [] {
      var (key, value) := pairs[0];
      AttrsMean(PutAttr(v, scope, key, value), scope, pairs[1..], target);
      OneMoreAttr(scope, pairs, target, Get(v.attrs, target), Get(PutAttr(v, scope, key, value).attrs, target),
                  Get(PutAttrs(v, scope, pairs).attrs, target));
    }
  }

  lemma OneMoreAttr(scope: Scope, pairs: Pairs, target: (string, string), before: Option<string>,
                    first: Option<string>, after: Option<string>)
    requires pairs != [] && AttrsSay(scope, pairs[1..], target, first, after)
    requires first == if AttrTarget(pairs[0].0, scope) == Some(target) then Some(pairs[0].1) else before
    ensures AttrsSay(scope, pairs, target, before, after)
  {
    var rest := pairs[1..];
    assert forall j | 0 <= j < |rest| :: rest[j] == pairs[j + 1];
    forall i: nat | LastSets(scope, pairs, i, target) ensures after == Some(pairs[i].1) {
      if i > 0 {
        assert LastSets(scope, rest, i - 1, target);
      } else {
        assert NoneSets(scope, rest, target);
      }
    }
    assert NoneSets(scope, pairs, target) ==> NoneSets(scope, rest, target);
  }

  // ----- Tags -----

  lemma DescriptionIff(s: ParseState, name: string, scope: Scope)
    ensures Kind(s, name, scope) == Description <==> name == "rdf" + ":" + "Description"
  {
    QnameSplits("rdf", "Description");
    NameIff(name, "rdf", "Description");
  }

  /** Inside a description, a tag opens a list exactly when it has a prefix in scope other than `rdf`. */
  lemma ListIff(s: ParseState, name: string, scope: Scope, uri: string, local: string)
    ensures Kind(s, name, scope) == List(uri, local)
       <==> s.inDescription && exists p :: InScopeAs(name, scope, p, uri, local)
  {
    var (prefix, rest) := SplitQname(name);
    NameIff(name, prefix, rest);
    if Kind(s, name, scope) == List(uri, local) {
      assert InScopeAs(name, scope, prefix, uri, local);
    }
    if p :| InScopeAs(name, scope, p, uri, local) {
      QnameSplits(p, local);
    }
  }

  /** An item is a tag named `li`: outside a description with any prefix, inside one with `rdf` or none. */
  lemma ItemIff(s: ParseState, name: string, scope: Scope)
    ensures Kind(s, name, scope) == Item
       <==> || name == "li"
            || exists p :: ':' !in p && name == p + ":" + "li" && (!s.inDescription || p == "" || p == "rdf")
  {
    var (prefix, rest) := SplitQname(name);
    NameIff(name, prefix, rest);
    assert "li" != "Description" by {
      assert "li"[0] == 'l' && "Description"[0] == 'D';
    }
    NameIff("li", "", "li");
    if p :| ':' !in p && name == p + ":" + "li" && (!s.inDescription || p == "" || p == "rdf") {
      QnameSplits(p, "li");
    }
  }

  /** An end tag named `li` ends an item, with the text since its start. */
  lemma ItemEnds(r: Reading, name: string, prefix: string)
    requires SplitQname(name) == (prefix, "li")
    ensures MeantEnd(r, name)
         == Reading(r.view,
                    ParseState(r.state.inDescription, r.state.list, r.state.items + [r.state.liText], false, ""))
  {
  }

  /** An end tag named like the open list ends the list, whatever its prefix; its items so far are the list. */
  lemma ListEnds(r: Reading, name: string, prefix: string, uri: string, local: string)
    requires SplitQname(name) == (prefix, local) && local != "li" && r.state.list == Some(Open(uri, local))
    ensures MeantEnd(r, name)
         == Reading(View(r.view.attrs, r.view.lists[uri := ListValue(r.state.items, local)]),
                    ParseState(r.state.inDescription, None, [], r.state.inLi, r.state.liText))
  {
  }

  /** Any other end tag named `Description` ends the description, and no other one does anything. */
  lemma OtherEnds(r: Reading, name: string, prefix: string, local: string)
    requires SplitQname(name) == (prefix, local) && local != "li"
    requires r.state.list.None? || r.state.list.value.local != local
    ensures MeantEnd(r, name)
         == if local == "Description" then
              Reading(r.view, ParseState(false, r.state.list, r.state.items, r.state.inLi, r.state.liText))
            else r
  {
    assert "li"[0] == 'l' && "Description"[0] == 'D';
  }

  /** Text counts only within an item. */
  lemma TextMeans(r: Reader, content: string, numeric: Numeric)
    ensures Read(r, Text(content), numeric)
         == Reader(Reading(r.reading.view,
                           ParseState(r.reading.state.inDescription, r.reading.state.list, r.reading.state.items,
                                      r.reading.state.inLi,
                                      r.reading.state.liText + if r.reading.state.inLi then content else "")),
                   r.stack)
  {
    assert r.reading.state.liText + "" == r.reading.state.liText;
  }

  // ----- Elements -----

  /** An empty element is a start tag and an end tag with nothing between them. */
  lemma EmptyIsStartEnd(r: Reader, name: string, pairs: Pairs, numeric: Numeric)
    requires r.stack != []
    ensures Read(r, Empty(name, pairs), numeric) == Read(Read(r, Start(name, pairs), numeric), End(name), numeric)
  {
    assert (r.stack + [ScopeOf(Top(r.stack), pairs, numeric)])[..|r.stack|] == r.stack;
  }

  /** Properly nested events: how many elements are open after them, if none is closed that was open before. */
  function Depth(events: seq<Event>, open: nat): Option<nat>
    decreases |events|
  {
    if events == [] then Some(open)
    else
      match events[0]
      case Start(_, _) => Depth(events[1..], open + 1)
      case End(_) => if open == 0 then None else Depth(events[1..], open - 1)
      case _ => Depth(events[1..], open)
  }

  /** Whatever is nested, the namespaces in scope after an element are those before it. */
  lemma {:induction false} ScopeRestored(r: Reader, events: seq<Event>, base: seq<Scope>, open: nat, numeric: Numeric)
    requires base != [] && |r.stack| == |base| + open && base <= r.stack && Depth(events, open) == Some(0)
    ensures ReadAll(r, events, numeric).stack == base
    decreases |events|
  {
    if events != [] {
      var next := match events[0] { case Start(_, _) => open + 1 case End(_) => open - 1 case _ => open };
      ScopeRestored(Read(r, events[0], numeric), events[1..], base, next, numeric);
    } else {
      assert r.stack == base + r.stack[|base|..];
    }
  }

  // ----- What is outside descriptions -----

  predicate DescribesNothing(e: Event) {
    match e
    case Start(name, _) => name != "rdf" + ":" + "Description"
    case Empty(name, _) => name != "rdf" + ":" + "Description"
    case _ => true
  }

  /** Where nothing is open, events without a description say nothing at all. */
  lemma {:induction false} OutsideSaysNothing(r: Reader, events: seq<Event>, numeric: Numeric)
    requires !r.reading.state.inDescription && r.reading.state.list.None?
    requires forall i | 0 <= i < |events| :: DescribesNothing(events[i])
    ensures var after := ReadAll(r, events, numeric);
            && after.reading.view == r.reading.view
            && !after.reading.state.inDescription && after.reading.state.list.None?
    decreases |events|
  {
    if events != [] {
      OutsideStep(r, events[0], numeric);
      OutsideSaysNothing(Read(r, events[0], numeric), events[1..], numeric);
    }
  }

  lemma OutsideStep(r: Reader, e: Event, numeric: Numeric)
    requires !r.reading.state.inDescription && r.reading.state.list.None? && DescribesNothing(e)
    ensures var after := Read(r, e, numeric);
            && after.reading.view == r.reading.view
            && !after.reading.state.inDescription && after.reading.state.list.None?
  {
    match e
    case Start(name, pairs) => DescriptionIff(r.reading.state, name, ScopeOf(Top(r.stack), pairs, numeric));
    case Empty(name, pairs) => DescriptionIff(r.reading.state, name, ScopeOf(Top(r.stack), pairs, numeric));
    case _ =>
  }

  /** Nothing is open at first, so a packet without a description says nothing; nor does a malformed one. */
  lemma NothingDescribed(events: seq<Event>, malformed: bool, numeric: Numeric)
    requires malformed || forall i | 0 <= i < |events| :: DescribesNothing(events[i])
    ensures Meaning(events, malformed, numeric) == View(map[], map[])
  {
    if !malformed {
      OutsideSaysNothing(UNREAD, events, numeric);
    }
  }

  // ----- What a description says -----

  /** An item with its attributes, whose text comes in pieces. */
  datatype ItemXml = ItemXml(pairs: Pairs, pieces: seq<string>)

  /** A list as anyone may write it: its prefix and name, its attributes, and its items in a container such as `Seq`. */
  datatype ListXml = ListXml(prefix: string, local: string, pairs: Pairs, container: string, items: seq<ItemXml>)

  function ItemXmlEvents(item: ItemXml): seq<Event> {
    [Start("rdf" + ":" + "li", item.pairs)] + Texts(item.pieces) + [End("rdf" + ":" + "li")]
  }

  function ItemsXmlEvents(items: seq<ItemXml>): seq<Event> {
    if items == [] then [] else ItemXmlEvents(items[0]) + ItemsXmlEvents(items[1..])
  }

  function ListXmlEvents(l: ListXml): seq<Event> {
    [Start(l.prefix + ":" + l.local, l.pairs), Start("rdf" + ":" + l.container, [])]
    + ItemsXmlEvents(l.items)
    + [End("rdf" + ":" + l.container), End(l.prefix + ":" + l.local)]
  }

  function ListsXmlEvents(lists: seq<ListXml>): seq<Event> {
    if lists == [] then [] else ListXmlEvents(lists[0]) + ListsXmlEvents(lists[1..])
  }

  /** The text of each item is all its pieces, one after the other. */
  function ItemTexts(items: seq<ItemXml>): seq<string> {
    if items == [] then [] else [Concat(items[0].pieces)] + ItemTexts(items[1..])
  }

  /** A list that is heard, and whose end is not mistaken for another one. */
  predicate PlainList(l: ListXml, outer: Scope, numeric: Numeric) {
    && ':' !in l.prefix && l.prefix != "" && l.prefix != "rdf" && l.prefix in ScopeOf(outer, l.pairs, numeric)
    && l.local != "li" && l.container !in ["li", "Description", l.local]
  }

  function UriIn(l: ListXml, outer: Scope, numeric: Numeric): string
    requires PlainList(l, outer, numeric)
  {
    ScopeOf(outer, l.pairs, numeric)[l.prefix]
  }

  lemma ReadItemXml(v: View, s: ParseState, item: ItemXml, stack: seq<Scope>, numeric: Numeric)
    requires stack != []
    ensures ReadAll(Reader(Reading(v, s), stack), ItemXmlEvents(item), numeric)
         == Reader(Reading(v, WithItems(s, [Concat(item.pieces)])), stack)
  {
    var r, name := Reader(Reading(v, s), stack), "rdf" + ":" + "li";
    var scope := ScopeOf(Top(stack), item.pairs, numeric);
    QnameSplits("rdf", "li");
    ItemIff(s, name, scope);
    var r1 := Reader(Reading(v, OpenItem(s)), stack + [scope]);
    ReadOne(r, Start(name, item.pairs), numeric);
    ReadTexts(r1, item.pieces, numeric);
    assert "" + Concat(item.pieces) == Concat(item.pieces);
    var r2 := r1.(reading := r1.reading.(state := r1.reading.state.(liText := Concat(item.pieces))));
    ReadOne(r2, End(name), numeric);
    ItemEnds(r2.reading, name, "rdf");
    assert Popped(stack + [scope]) == stack;
    var r3 := Reader(Reading(v, WithItems(s, [Concat(item.pieces)])), stack);
    ReadThree(r, [Start(name, item.pairs)], r1, Texts(item.pieces), r2, [End(name)], r3, numeric);
  }

  lemma {:induction false} ReadItemsXml(v: View, s: ParseState, items: seq<ItemXml>, stack: seq<Scope>,
                                        numeric: Numeric)
    requires stack != []
    ensures ReadAll(Reader(Reading(v, s), stack), ItemsXmlEvents(items), numeric)
         == Reader(Reading(v, WithItems(s, ItemTexts(items))), stack)
    decreases |items|
  {
    if items != [] {
      var r, text := Reader(Reading(v, s), stack), Concat(items[0].pieces);
      ReadItemXml(v, s, items[0], stack, numeric);
      var r1 := Reader(Reading(v, WithItems(s, [text])), stack);
      ReadItemsXml(v, WithItems(s, [text]), items[1..], stack, numeric);
      WithItemsMore(s, text, ItemTexts(items[1..]));
      var r2 := Reader(Reading(v, WithItems(s, ItemTexts(items))), stack);
      ReadChain(r, ItemXmlEvents(items[0]), r1, ItemsXmlEvents(items[1..]), r2, numeric);
    }
  }

  /** Inside a description, with no list and no item open. */
  predicate Ready(s: ParseState) {
    s.inDescription && s.list.None? && !s.inLi && s.liText == ""
  }

  lemma OpensList(v: View, s: ParseState, l: ListXml, stack: seq<Scope>, numeric: Numeric)
    requires stack != [] && Ready(s) && PlainList(l, Top(stack), numeric)
    ensures var scope := ScopeOf(Top(stack), l.pairs, numeric);
            ReadAll(Reader(Reading(v, s), stack),
                    [Start(l.prefix + ":" + l.local, l.pairs), Start("rdf" + ":" + l.container, [])], numeric)
            == Reader(Reading(v, Listing(UriIn(l, Top(stack), numeric), l.local, [])), stack + [scope, scope])
  {
    var r, scope := Reader(Reading(v, s), stack), ScopeOf(Top(stack), l.pairs, numeric);
    var name, container := l.prefix + ":" + l.local, "rdf" + ":" + l.container;
    var uri := UriIn(l, Top(stack), numeric);
    ReadTwo(r, Start(name, l.pairs), Start(container, []), numeric);
    assert InScopeAs(name, scope, l.prefix, uri, l.local);
    ListIff(s, name, scope, uri, l.local);
    var listing := Listing(uri, l.local, []);
    QnameSplits("rdf", l.container);
    assert Read(r, Start(name, l.pairs), numeric) == Reader(Reading(v, listing), stack + [scope]);
    assert Kind(listing, container, scope) == Nothing;
    assert stack + [scope] + [scope] == stack + [scope, scope];
  }

  lemma ClosesTheList(v: View, uri: string, l: ListXml, items: seq<string>, stack: seq<Scope>, scope: Scope,
                      numeric: Numeric)
    requires stack != [] && l.local != "li" && l.container !in ["li", "Description", l.local] && ':' !in l.prefix
    ensures ReadAll(Reader(Reading(v, Listing(uri, l.local, items)), stack + [scope, scope]),
                    [End("rdf" + ":" + l.container), End(l.prefix + ":" + l.local)], numeric)
         == Reader(Reading(WithListValue(v, uri, ListValue(items, l.local)), INSIDE), stack)
  {
    var r := Reader(Reading(v, Listing(uri, l.local, items)), stack + [scope, scope]);
    var name, container := l.prefix + ":" + l.local, "rdf" + ":" + l.container;
    ReadTwo(r, End(container), End(name), numeric);
    QnameSplits("rdf", l.container);
    QnameSplits(l.prefix, l.local);
    OtherEnds(r.reading, container, "rdf", l.container);
    assert Popped(r.stack) == stack + [scope] && Popped(stack + [scope]) == stack;
    ListEnds(r.reading, name, l.prefix, uri, l.local);
  }

  /** A list is kept under the URI of its prefix, with its items in their order. */
  lemma {:induction false} ReadListXml(v: View, s: ParseState, l: ListXml, stack: seq<Scope>, numeric: Numeric)
    requires stack != [] && Ready(s) && PlainList(l, Top(stack), numeric)
    ensures ReadAll(Reader(Reading(v, s), stack), ListXmlEvents(l), numeric)
         == Reader(Reading(WithListValue(v, UriIn(l, Top(stack), numeric), ListValue(ItemTexts(l.items), l.local)),
                           INSIDE), stack)
  {
    var r, uri := Reader(Reading(v, s), stack), UriIn(l, Top(stack), numeric);
    var scope := ScopeOf(Top(stack), l.pairs, numeric);
    var opening := [Start(l.prefix + ":" + l.local, l.pairs), Start("rdf" + ":" + l.container, [])];
    var closing := [End("rdf" + ":" + l.container), End(l.prefix + ":" + l.local)];
    var inner := stack + [scope, scope];
    OpensList(v, s, l, stack, numeric);
    var r1 := Reader(Reading(v, Listing(uri, l.local, [])), inner);
    ReadItemsXml(v, Listing(uri, l.local, []), l.items, inner, numeric);
    assert [] + ItemTexts(l.items) == ItemTexts(l.items);
    assert WithItems(Listing(uri, l.local, []), ItemTexts(l.items)) == Listing(uri, l.local, ItemTexts(l.items));
    var r2 := Reader(Reading(v, Listing(uri, l.local, ItemTexts(l.items))), inner);
    ClosesTheList(v, uri, l, ItemTexts(l.items), stack, scope, numeric);
    var r3 := Reader(Reading(WithListValue(v, uri, ListValue(ItemTexts(l.items), l.local)), INSIDE), stack);
    ReadThree(r, opening, r1, ItemsXmlEvents(l.items), r2, closing, r3, numeric);
  }

  predicate PlainLists(lists: seq<ListXml>, outer: Scope, numeric: Numeric) {
    forall i | 0 <= i < |lists| :: PlainList(lists[i], outer, numeric)
  }

  /** The i-th list is the last one of the URI. */
  predicate LastList(lists: seq<ListXml>, outer: Scope, numeric: Numeric, i: nat, uri: string)
    requires PlainLists(lists, outer, numeric)
  {
    && i < |lists| && UriIn(lists[i], outer, numeric) == uri
    && forall j | i < j < |lists| :: UriIn(lists[j], outer, numeric) != uri
  }

  predicate NoList(lists: seq<ListXml>, outer: Scope, numeric: Numeric, uri: string)
    requires PlainLists(lists, outer, numeric)
  {
    forall i | 0 <= i < |lists| :: UriIn(lists[i], outer, numeric) != uri
  }

  /** What any number of lists adds: for each URI the last list counts. */
  ghost predicate ListsSay(lists: seq<ListXml>, outer: Scope, numeric: Numeric, v: View, w: View)
    requires PlainLists(lists, outer, numeric)
  {
    && w.attrs == v.attrs
    && (forall i: nat, uri | LastList(lists, outer, numeric, i, uri) ::
          Get(w.lists, uri) == Some(ListValue(ItemTexts(lists[i].items), lists[i].local)))
    && (forall uri | NoList(lists, outer, numeric, uri) :: Get(w.lists, uri) == Get(v.lists, uri))
  }

  lemma {:induction false} ReadListsXml(v: View, s: ParseState, lists: seq<ListXml>, stack: seq<Scope>,
                                        numeric: Numeric)
    returns (w: View, s': ParseState)
    requires stack != [] && Ready(s) && PlainLists(lists, Top(stack), numeric)
    ensures ReadAll(Reader(Reading(v, s), stack), ListsXmlEvents(lists), numeric) == Reader(Reading(w, s'), stack)
    ensures Ready(s') && ListsSay(lists, Top(stack), numeric, v, w)
    decreases |lists|
  {
    if lists == [] {
      w, s' := v, s;
    } else {
      var outer := Top(stack);
      var uri := UriIn(lists[0], outer, numeric);
      var v1 := WithListValue(v, uri, ListValue(ItemTexts(lists[0].items), lists[0].local));
      ReadListXml(v, s, lists[0], stack, numeric);
      w, s' := ReadListsXml(v1, INSIDE, lists[1..], stack, numeric);
      ReadChain(Reader(Reading(v, s), stack), ListXmlEvents(lists[0]), Reader(Reading(v1, INSIDE), stack),
                ListsXmlEvents(lists[1..]), Reader(Reading(w, s'), stack), numeric);
      OneMoreList(lists, outer, numeric, v, v1, w);
    }
  }

  lemma OneMoreList(lists: seq<ListXml>, outer: Scope, numeric: Numeric, v: View, v1: View, w: View)
    requires lists != [] && PlainLists(lists, outer, numeric) && PlainLists(lists[1..], outer, numeric)
    requires v1 == WithListValue(v, UriIn(lists[0], outer, numeric),
                                 ListValue(ItemTexts(lists[0].items), lists[0].local))
    requires ListsSay(lists[1..], outer, numeric, v1, w)
    ensures ListsSay(lists, outer, numeric, v, w)
  {
    var rest := lists[1..];
    assert forall j | 0 <= j < |rest| :: rest[j] == lists[j + 1];
    forall i: nat, uri | LastList(lists, outer, numeric, i, uri)
      ensures Get(w.lists, uri) == Some(ListValue(ItemTexts(lists[i].items), lists[i].local))
    {
      if i > 0 {
        assert LastList(rest, outer, numeric, i - 1, uri);
      } else {
        assert NoList(rest, outer, numeric, uri);
      }
    }
    forall uri | NoList(lists, outer, numeric, uri) ensures Get(w.lists, uri) == Get(v.lists, uri) {
      assert NoList(rest, outer, numeric, uri);
    }
  }

  function DescriptionXml(pairs: Pairs, lists: seq<ListXml>): seq<Event> {
    [Start("rdf" + ":" + "Description", pairs)] + ListsXmlEvents(lists) + [End("rdf" + ":" + "Description")]
  }

  /**
   A description says what its attributes and its lists say, by the namespaces in scope:
   the last attribute of a URI and a name counts, and the last list of a URI. Everything
   said before it about other names and other URIs still stands.
   */
  lemma DescriptionSays(r: Reader, pairs: Pairs, lists: seq<ListXml>, numeric: Numeric) returns (after: Reader)
    requires r.stack != [] && r.reading.state.list.None? && !r.reading.state.inLi && r.reading.state.liText == ""
    requires PlainLists(lists, ScopeOf(Top(r.stack), pairs, numeric), numeric)
    ensures after == ReadAll(r, DescriptionXml(pairs, lists), numeric)
    ensures after.stack == r.stack && !after.reading.state.inDescription && after.reading.state.list.None?
    ensures !after.reading.state.inLi && after.reading.state.liText == ""
    ensures var scope := ScopeOf(Top(r.stack), pairs, numeric);
            var attrs := PutAttrs(r.reading.view, scope, Ordinary(pairs, numeric));
            ListsSay(lists, scope, numeric, attrs, after.reading.view)
  {
    var name, scope := "rdf" + ":" + "Description", ScopeOf(Top(r.stack), pairs, numeric);
    var s := r.reading.state.(inDescription := true);
    var r1 := Reader(Reading(PutAttrs(r.reading.view, scope, Ordinary(pairs, numeric)), s), r.stack + [scope]);
    DescriptionIff(r.reading.state, name, scope);
    ReadOne(r, Start(name, pairs), numeric);
    var w, s' := ReadListsXml(r1.reading.view, s, lists, r.stack + [scope], numeric);
    var r2 := Reader(Reading(w, s'), r.stack + [scope]);
    QnameSplits("rdf", "Description");
    assert "li"[0] == 'l' && "Description"[0] == 'D';
    OtherEnds(r2.reading, name, "rdf", "Description");
    ReadOne(r2, End(name), numeric);
    assert Popped(r.stack + [scope]) == r.stack;
    after := Read(r2, End(name), numeric);
    ReadThree(r, [Start(name, pairs)], r1, ListsXmlEvents(lists), r2, [End(name)], after, numeric);
  }

  // ----- What is written -----

  lemma TagsAre()
    ensures TAGS.meta == "x:xmpmeta" && TAGS.rdf == "rdf:RDF" && TAGS.description == "rdf:Description"
    ensures TAGS.bag == "rdf:Bag" && TAGS.item == "rdf:li"
    ensures TAGS.metaUri == "adobe:ns:meta/" && TAGS.rdfUri == "http://www.w3.org/1999/02/22-rdf-syntax-ns#"
  {
  }
}
