/**
 The analysis that lists the choices of a prompt. It has its own brace matcher and its
 own splitter, whose depth stops at zero instead of going below it, and it knows marks in
 front of choices that expansion does not.
 */
module BraceAnalysis {
  import opened ChoiceMarks
  import opened Results
  import opened Sequences
  import opened Braces
  import opened BraceLaws
  import opened BraceMeaning

  function Saturating(depth: nat): nat {
    if depth == 0 then 0 else depth - 1
  }

  /** The second matcher finds the brace that the first one finds. */
  method FindMatchingBrace(text: string, start: nat) returns (r: Option<nat>)
    requires start < |text| && text[start] == '{'
    ensures r == MatchAt(text, start)
    ensures r.Some? ==> start < r.value < |text|
  {
    var depth: nat := 0;
    for i := start to |text|
      invariant i == start ==> depth == 0
      invariant i > start ==> depth > 0 && MatchAt(text, start) == Later(i, Match(text[i..], depth))
    {
      assert text[i..][1..] == text[i + 1..];
      match text[i] {
        case '{' => depth := depth + 1;
        case '}' =>
          depth := Saturating(depth);
          if depth == 0 {
            return Some(i);
          }
        case _ =>
      }
    }
    return None;
  }

  function SplitSaturating(s: string, depth: nat, cur: string): (parts: seq<string>)
    ensures |parts| >= 1
    ensures forall part <- parts :: |part| <= |cur| + |s|
    decreases |s|
  {
    if s == [] then [cur]
    else if s[0] == '|' && depth == 0 then [cur] + SplitSaturating(s[1..], 0, [])
    else SplitSaturating(s[1..], SaturatingStep(s[0], depth), cur + [s[0]])
  }

  function Parts(s: string): (parts: seq<string>)
    ensures |parts| >= 1
    ensures forall part <- parts :: |part| <= |s|
  {
    SplitSaturating(s, 0, [])
  }

  function SaturatingStep(c: char, depth: nat): nat {
    if c == '{' then depth + 1 else if c == '}' then Saturating(depth) else depth
  }

  /** One turn of the loop of the second splitter: a bar at depth zero. */
  lemma SplitBar(parts: seq<string>, s: string, i: nat, cur: string)
    requires i < |s| && s[i] == '|'
    ensures parts + SplitSaturating(s[i..], 0, cur) == parts + [cur] + SplitSaturating(s[i + 1..], 0, [])
  {
    assert s[i..][1..] == s[i + 1..];
    Associative(parts, [cur], SplitSaturating(s[i + 1..], 0, []));
  }

  /** One turn of the loop, at any other character. */
  lemma SplitOther(s: string, i: nat, depth: nat, cur: string)
    requires i < |s| && !(s[i] == '|' && depth == 0)
    ensures SplitSaturating(s[i..], depth, cur)
         == SplitSaturating(s[i + 1..], SaturatingStep(s[i], depth), cur + [s[i]])
  {
    assert s[i..][1..] == s[i + 1..];
  }

  method SplitTopLevel(inner: string) returns (parts: seq<string>)
    ensures parts == Parts(inner)
  {
    parts := [];
    var depth: nat := 0;
    var cur := [];
    ghost var goal := Parts(inner);
    assert parts + goal == goal;
    for i := 0 to |inner|
      invariant parts + SplitSaturating(inner[i..], depth, cur) == goal
    {
      if inner[i] == '|' && depth == 0 {
        SplitBar(parts, inner, i, cur);
        parts := parts + [cur];
        cur := [];
      } else {
        SplitOther(inner, i, depth, cur);
        depth := if inner[i] == '{' then depth + 1 else if inner[i] == '}' then Saturating(depth) else depth;
        cur := cur + [inner[i]];
      }
    }
    parts := parts + [cur];
  }

  // ----- When the two splitters agree -----

  /** Every bar is at depth zero for both ways of counting, or for neither. */
  predicate SameBars(s: string, low: nat, depth: int) {
    s == [] ||
    (&& (s[0] == '|' ==> (low == 0 <==> depth == 0))
     && SameBars(s[1..], SaturatingStep(s[0], low), Step(s[0], depth)))
  }

  /** The first part goes on from what is there. */
  lemma {:induction false} FirstParts(s: string, low: nat, depth: int, cur: string)
    ensures cur <= SplitSaturating(s, low, cur)[0] && cur <= SplitFrom(s, depth, cur)[0]
    decreases |s|
  {
    if s != [] {
      FirstParts(s[1..], SaturatingStep(s[0], low), Step(s[0], depth), cur + [s[0]]);
    }
  }

  lemma OneSplits(s: string, low: nat, depth: int, cur: string)
    requires s != [] && s[0] == '|' && !(low == 0 <==> depth == 0)
    ensures SplitSaturating(s, low, cur) != SplitFrom(s, depth, cur)
  {
    FirstParts(s[1..], low, depth, cur + [s[0]]);
  }

  lemma BothSplit(s: string, cur: string)
    requires s != [] && s[0] == '|'
    ensures SplitSaturating(s, 0, cur) == SplitFrom(s, 0, cur)
       <==> SplitSaturating(s[1..], 0, []) == SplitFrom(s[1..], 0, [])
  {
    var a, b := SplitSaturating(s[1..], 0, []), SplitFrom(s[1..], 0, []);
    assert ([cur] + a)[1..] == a && ([cur] + b)[1..] == b;
  }

  lemma {:induction false} SplitsAgree(s: string, low: nat, depth: int, cur: string)
    ensures SplitSaturating(s, low, cur) == SplitFrom(s, depth, cur) <==> SameBars(s, low, depth)
    decreases |s|
  {
    if s == [] {
    } else if s[0] == '|' && low == 0 && depth == 0 {
      SplitsAgree(s[1..], 0, 0, []);
      BothSplit(s, cur);
    } else if s[0] == '|' && (low == 0 || depth == 0) {
      OneSplits(s, low, depth, cur);
    } else {
      SplitsAgree(s[1..], SaturatingStep(s[0], low), Step(s[0], depth), cur + [s[0]]);
    }
  }

  lemma {:induction false} RunSameBars(s: string, depth: nat)
    requires Run(s, depth).Some?
    ensures SameBars(s, depth, depth)
  {
    if s != [] {
      RunSameBars(s[1..], Step(s[0], depth));
    }
  }

  /**
   The two splitters give the same parts exactly when they see the same bars; in
   particular when no brace closes below depth zero.
   */
  lemma SplittersAgree(s: string)
    ensures Parts(s) == Split(s) <==> SameBars(s, 0, 0)
    ensures Run(s, 0).Some? ==> Parts(s) == Split(s)
  {
    SplitsAgree(s, 0, 0, []);
    if Run(s, 0).Some? {
      RunSameBars(s, 0);
    }
  }

  /** After a stray brace either of them may see a bar that the other one does not. */
  lemma SplittersDiffer()
    ensures Parts("}a|b") != Split("}a|b") && Parts("}{a|b}") != Split("}{a|b}")
  {
    var s, t := "}a|b", "}{a|b}";
    var bar, bar' := "|b", "|b}";
    assert s[1..][1..] == bar && t[1..][1..][1..] == bar';
    assert !SameBars(bar, 0, -1) && !SameBars(bar', 1, 0);
    assert !SameBars(s[1..], 0, -1);
    assert !SameBars(t[1..][1..], 1, 0);
    assert !SameBars(t[1..], 0, -1);
    SplittersAgree(s);
    SplittersAgree(t);
  }

  // ----- What is reported -----

  /** A choice that the analysis reports: with a pick count, with weights, or neither. */
  datatype Choice =
    | Picked(expr: string, pick: Pick, choices: seq<string>)
    | Weighted(expr: string, shares: seq<Share>)
    | Uniform(expr: string, choices: seq<string>)

  function TextsOf(shares: seq<Share>): (texts: seq<string>)
    ensures |texts| == |shares| && forall i | 0 <= i < |shares| :: texts[i] == shares[i].text
  {
    seq(|shares|, i requires 0 <= i < |shares| => shares[i].text)
  }

  function Texts(c: Choice): seq<string> {
    if c.Weighted? then TextsOf(c.shares) else c.choices
  }

  /** The parts without white space around them, but for those that are nothing else. */
  function NonBlank(parts: seq<string>): (r: seq<string>)
    ensures forall part <- r :: part != []
    ensures forall part <- r :: exists piece <- parts :: |part| <= |piece|
  {
    if parts == [] then []
    else (if Trim(parts[0]) == [] then [] else [Trim(parts[0])]) + NonBlank(parts[1..])
  }

  /** What a group `{inner}` is reported as, if it is. */
  function Reported(inner: string, n: Numerals): (r: Option<Choice>)
    ensures r.Some? ==> forall text <- Texts(r.value) :: |text| <= |inner|
  {
    var expr := "{" + inner + "}";
    match PickOf(inner, n)
    case Some(pick) =>
      var choices := NonBlank(Parts(pick.rest));
      if choices == [] then None else Some(Picked(expr, pick, choices))
    case None =>
      var parts := Parts(inner);
      if |parts| < 2 then None
      else if AllWeighted(parts, n) && AnyNotOne(parts, n) then Some(Weighted(expr, Shares(parts, n)))
      else Some(Uniform(expr, parts))
  }

  /** All choices of `text`, outermost first. */
  function Choices(text: string, n: Numerals): seq<Choice>
    decreases |text|, 0
  {
    if text == [] then []
    else if text[0] == '{' && Match(text[1..], 1).Some? then
      var end := Match(text[1..], 1).value;
      MatchBounds(text[1..], 1);
      GroupChoices(text[1..][..end], n) + Choices(text[1..][end + 1..], n)
    else
      Choices(text[1..], n)
  }

  /** The choice that a group `{inner}` is, and those within it. */
  function GroupChoices(inner: string, n: Numerals): seq<Choice>
    decreases |inner|, 2
  {
    match Reported(inner, n)
    case None => []
    case Some(c) => [c] + AllChoices(Texts(c), |inner|, n)
  }

  function AllChoices(parts: seq<string>, bound: nat, n: Numerals): seq<Choice>
    requires forall part <- parts :: |part| <= bound
    decreases bound, 1, |parts|
  {
    if parts == [] then [] else Choices(parts[0], n) + AllChoices(parts[1..], bound, n)
  }

  method FindChoices(text: string, n: Numerals, out: seq<Choice>) returns (found: seq<Choice>)
    ensures found == out + Choices(text, n)
    decreases |text|, 1
  {
    found := out;
    var i := 0;
    ghost var goal := out + Choices(text, n);
    assert text[0..] == text;
    while i < |text|
      invariant i <= |text|
      invariant goal == found + Choices(text[i..], n)
      decreases |text| - i
    {
      var more, next := FindOne(text, n, i, found);
      found, i := more, next;
    }
  }

  /** One turn of the loop: a matched group, or one character. */
  method FindOne(text: string, n: Numerals, i: nat, found: seq<Choice>) returns (more: seq<Choice>, next: nat)
    requires i < |text|
    ensures i < next <= |text| && more + Choices(text[next..], n) == found + Choices(text[i..], n)
    decreases |text|, 0
  {
    var end := None;
    if text[i] == '{' {
      end := FindMatchingBrace(text, i);
    }
    if end.Some? {
      ChoicesGroup(text, n, i, end.value);
      Associative(found, GroupChoices(text[i + 1..end.value], n), Choices(text[end.value + 1..], n));
      more := AnalyzeOne(text[i..end.value + 1], text[i + 1..end.value], n, found);
      next := end.value + 1;
    } else {
      ChoicesChar(text, n, i);
      more, next := found, i + 1;
    }
  }

  /** The entry for one group: a pick, weighted parts, or parts that are as likely as each other. */
  method Entry(expr: string, inner: string, n: Numerals) returns (choice: Option<Choice>)
    requires expr == "{" + inner + "}"
    ensures choice == Reported(inner, n)
  {
    var pick := PickOf(inner, n);
    if pick.Some? {
      var pieces := SplitTopLevel(pick.value.rest);
      var choices := NonBlank(pieces);
      if choices == [] {
        return None;
      }
      return Some(Picked(expr, pick.value, choices));
    }
    var parts := SplitTopLevel(inner);
    if |parts| < 2 {
      return None;
    }
    if AllWeighted(parts, n) && AnyNotOne(parts, n) {
      return Some(Weighted(expr, Shares(parts, n)));
    }
    return Some(Uniform(expr, parts));
  }

  method AnalyzeOne(expr: string, inner: string, n: Numerals, out: seq<Choice>) returns (found: seq<Choice>)
    requires expr == "{" + inner + "}"
    ensures found == out + GroupChoices(inner, n)
    decreases |inner|, 3
  {
    var choice := Entry(expr, inner, n);
    if choice.None? {
      return out;
    }
    var texts := Texts(choice.value);
    Associative(out, [choice.value], AllChoices(texts, |inner|, n));
    found := AnalyzeParts(texts, |inner|, n, out + [choice.value]);
  }

  /** The choices within the parts of a choice. */
  method AnalyzeParts(parts: seq<string>, ghost bound: nat, n: Numerals, out: seq<Choice>)
    returns (found: seq<Choice>)
    requires forall part <- parts :: |part| <= bound
    ensures found == out + AllChoices(parts, bound, n)
    decreases bound, 2
  {
    found := out;
    ghost var goal := out + AllChoices(parts, bound, n);
    assert parts[0..] == parts;
    for i := 0 to |parts|
      invariant found + AllChoices(parts[i..], bound, n) == goal
    {
      assert parts[i..][1..] == parts[i + 1..];
      Associative(found, Choices(parts[i], n), AllChoices(parts[i + 1..], bound, n));
      found := FindChoices(parts[i], n, found);
    }
  }

  lemma ChoicesHead(text: string, inner: string, rest: string, n: Numerals)
    requires text != [] && text[0] == '{' && Match(text[1..], 1) == Some(|inner|)
    requires |inner| < |text[1..]| && inner == text[1..][..|inner|] && rest == text[1..][|inner| + 1..]
    ensures Choices(text, n) == GroupChoices(inner, n) + Choices(rest, n)
  {
  }

  lemma GroupSlices(text: string, i: nat, end: nat)
    requires i < end < |text| && text[i] == '{' && MatchAt(text, i) == Some(end)
    ensures text[i..][1..] == text[i + 1..]
    ensures text[i + 1..][..end - (i + 1)] == text[i + 1..end]
    ensures text[i + 1..][end - (i + 1) + 1..] == text[end + 1..]
    ensures text[i..end + 1] == "{" + text[i + 1..end] + "}"
  {
    MatchBounds(text[i + 1..], 1);
  }

  /** One turn of the loop, at a matched group. */
  lemma ChoicesGroup(text: string, n: Numerals, i: nat, end: nat)
    requires i < end < |text| && text[i] == '{' && MatchAt(text, i) == Some(end)
    ensures text[i..end + 1] == "{" + text[i + 1..end] + "}"
    ensures Choices(text[i..], n) == GroupChoices(text[i + 1..end], n) + Choices(text[end + 1..], n)
  {
    GroupSlices(text, i, end);
    MatchBounds(text[i + 1..], 1);
    ChoicesHead(text[i..], text[i + 1..end], text[end + 1..], n);
  }

  /** One turn of the loop, at any other character. */
  lemma ChoicesChar(text: string, n: Numerals, i: nat)
    requires i < |text| && !(text[i] == '{' && MatchAt(text, i).Some?)
    ensures Choices(text[i..], n) == Choices(text[i + 1..], n)
  {
    assert text[i..][1..] == text[i + 1..];
  }

  // ----- Every report is a choice of the prompt -----

  /**
   A reported expression is a group in braces. Without marks it is the choices, joined by
   bars; with weights, each choice has its weight in front; with a pick count, the choices
   are what is not blank of the pieces of what comes after the count.
   */
  ghost predicate Sound(c: Choice, n: Numerals) {
    match c
    case Uniform(expr, choices) => |choices| >= 2 && expr == "{" + Join(choices) + "}"
    case Weighted(expr, shares) =>
      |shares| >= 2 && (exists parts: seq<string> :: WeightedBy(parts, shares, n) && expr == "{" + Join(parts) + "}")
    case Picked(expr, pick, choices) =>
      choices != [] && exists inner, pieces :: PickedBy(inner, pieces, expr, pick, choices, n)
  }

  ghost predicate WeightedBy(parts: seq<string>, shares: seq<Share>, n: Numerals) {
    |parts| == |shares| > 0 && forall i | 0 <= i < |parts| :: WeightOf(parts[i], n) == Some(shares[i])
  }

  /** A pick count, then the pieces, joined by bars; the choices are those that are not blank. */
  ghost predicate PickedBy(inner: string, pieces: seq<string>, expr: string, pick: Pick, choices: seq<string>,
                           n: Numerals)
  {
    && expr == "{" + inner + "}" && PickOf(inner, n) == Some(pick)
    && pieces != [] && Join(pieces) == pick.rest && choices == NonBlank(pieces)
  }

  lemma {:induction false} JoinParts(s: string, low: nat, cur: string)
    ensures Join(SplitSaturating(s, low, cur)) == cur + s
    decreases |s|
  {
    if s == [] {
    } else if s[0] == '|' && low == 0 {
      JoinParts(s[1..], 0, []);
      assert SplitSaturating(s, low, cur)[1..] == SplitSaturating(s[1..], 0, []);
      assert cur + "|" + ([] + s[1..]) == cur + s;
    } else {
      JoinParts(s[1..], SaturatingStep(s[0], low), cur + [s[0]]);
      assert cur + [s[0]] + s[1..] == cur + s;
    }
  }

  /** How a reported choice comes from its group. */
  ghost predicate FromGroup(c: Choice, inner: string, n: Numerals) {
    && c.expr == "{" + inner + "}"
    && match c
       case Picked(_, pick, choices) =>
         PickOf(inner, n) == Some(pick) && choices == NonBlank(Parts(pick.rest)) && choices != []
       case Weighted(_, shares) =>
         |Parts(inner)| >= 2 && AllWeighted(Parts(inner), n) && shares == Shares(Parts(inner), n)
       case Uniform(_, choices) => |choices| >= 2 && choices == Parts(inner)
  }

  lemma PickedFrom(inner: string, n: Numerals, c: Choice, pick: Pick)
    requires Reported(inner, n) == Some(c) && PickOf(inner, n) == Some(pick)
    ensures c == Picked("{" + inner + "}", pick, NonBlank(Parts(pick.rest))) && NonBlank(Parts(pick.rest)) != []
  {
  }

  lemma UnpickedFrom(inner: string, n: Numerals, c: Choice)
    requires Reported(inner, n) == Some(c) && PickOf(inner, n).None?
    ensures |Parts(inner)| >= 2
    ensures if AllWeighted(Parts(inner), n) && AnyNotOne(Parts(inner), n)
            then c == Weighted("{" + inner + "}", Shares(Parts(inner), n))
            else c == Uniform("{" + inner + "}", Parts(inner))
  {
  }

  lemma ReportedFrom(inner: string, n: Numerals, c: Choice)
    requires Reported(inner, n) == Some(c)
    ensures FromGroup(c, inner, n)
  {
    match PickOf(inner, n)
    case Some(pick) => PickedFrom(inner, n, c, pick);
    case None => UnpickedFrom(inner, n, c);
  }

  lemma PickedBySound(inner: string, pieces: seq<string>, pick: Pick, choices: seq<string>, n: Numerals)
    requires choices != [] && PickedBy(inner, pieces, "{" + inner + "}", pick, choices, n)
    ensures Sound(Picked("{" + inner + "}", pick, choices), n)
  {
  }

  lemma PickedSound(inner: string, pick: Pick, choices: seq<string>, n: Numerals)
    requires PickOf(inner, n) == Some(pick) && choices == NonBlank(Parts(pick.rest)) && choices != []
    ensures Sound(Picked("{" + inner + "}", pick, choices), n)
  {
    JoinParts(pick.rest, 0, []);
    assert [] + pick.rest == pick.rest;
    PickedBySound(inner, Parts(pick.rest), pick, choices, n);
  }

  lemma WeightedSound(inner: string, n: Numerals)
    requires |Parts(inner)| >= 2 && AllWeighted(Parts(inner), n)
    ensures Sound(Weighted("{" + inner + "}", Shares(Parts(inner), n)), n)
  {
    JoinParts(inner, 0, []);
    assert [] + inner == inner;
    assert WeightedBy(Parts(inner), Shares(Parts(inner), n), n);
  }

  lemma UniformSound(inner: string, n: Numerals)
    requires |Parts(inner)| >= 2
    ensures Sound(Uniform("{" + inner + "}", Parts(inner)), n)
  {
    JoinParts(inner, 0, []);
    assert [] + inner == inner;
  }

  lemma FromGroupSound(c: Choice, inner: string, n: Numerals)
    requires FromGroup(c, inner, n)
    ensures Sound(c, n)
  {
    match c
    case Picked(_, pick, choices) => PickedSound(inner, pick, choices, n);
    case Weighted(_, _) => WeightedSound(inner, n);
    case Uniform(_, _) => UniformSound(inner, n);
  }

  lemma {:induction false} ChoicesSound(text: string, n: Numerals)
    ensures forall c <- Choices(text, n) :: Sound(c, n)
    ensures forall c <- Choices(text, n) :: Within(c.expr, text)
    decreases |text|, 0
  {
    ChoicesWithin(text, n);
    if text == [] {
    } else if text[0] == '{' && Match(text[1..], 1).Some? {
      var inner, rest := MatchHeads(text);
      GroupSound(inner, n);
      ChoicesSound(rest, n);
      ChoicesHead(text, inner, rest, n);
    } else {
      ChoicesSound(text[1..], n);
    }
  }

  lemma {:induction false} GroupSound(inner: string, n: Numerals)
    ensures forall c <- GroupChoices(inner, n) :: Sound(c, n)
    decreases |inner|, 2
  {
    match Reported(inner, n)
    case None =>
    case Some(c) =>
      ReportedFrom(inner, n, c);
      FromGroupSound(c, inner, n);
      EntrySound(c, |inner|, n);
  }

  lemma {:induction false} EntrySound(c: Choice, bound: nat, n: Numerals)
    requires Sound(c, n) && forall text <- Texts(c) :: |text| <= bound
    ensures forall d <- [c] + AllChoices(Texts(c), bound, n) :: Sound(d, n)
    decreases bound, 1, |Texts(c)| + 1
  {
    AllChoicesSound(Texts(c), bound, n);
  }

  lemma {:induction false} AllChoicesSound(parts: seq<string>, bound: nat, n: Numerals)
    requires forall part <- parts :: |part| <= bound
    ensures forall c <- AllChoices(parts, bound, n) :: Sound(c, n)
    decreases bound, 1, |parts|
  {
    if parts != [] {
      ChoicesSound(parts[0], n);
      AllChoicesSound(parts[1..], bound, n);
    }
  }

  lemma {:induction false} SharesShorter(parts: seq<string>, shares: seq<Share>, n: Numerals)
    requires WeightedBy(parts, shares, n)
    ensures |Join(TextsOf(shares))| < |Join(parts)|
  {
    assert WeightOf(parts[0], n) == Some(shares[0]);
    if |parts| > 1 {
      assert TextsOf(shares)[1..] == TextsOf(shares[1..]);
      SharesShorter(parts[1..], shares[1..], n);
    }
  }

  /** The length of the parts, with a bar after each. */
  function Size(parts: seq<string>): nat {
    if parts == [] then 0 else |parts[0]| + 1 + Size(parts[1..])
  }

  lemma {:induction false} JoinSize(parts: seq<string>)
    requires parts != []
    ensures |Join(parts)| + 1 == Size(parts)
  {
    if |parts| > 1 {
      JoinSize(parts[1..]);
    } else {
      assert parts[1..] == [];
    }
  }

  lemma {:induction false} NonBlankSize(pieces: seq<string>)
    ensures Size(NonBlank(pieces)) <= Size(pieces)
  {
    if pieces != [] {
      var head, rest := Trim(pieces[0]), NonBlank(pieces[1..]);
      NonBlankSize(pieces[1..]);
      if head == [] {
        assert [] + rest == rest;
      } else {
        assert ([head] + rest)[1..] == rest;
      }
    }
  }

  lemma NonBlankShorter(pieces: seq<string>)
    requires NonBlank(pieces) != []
    ensures |Join(NonBlank(pieces))| <= |Join(pieces)|
  {
    NonBlankSize(pieces);
    JoinSize(NonBlank(pieces));
    JoinSize(pieces);
  }

  /** An expression is its choices, joined by bars in braces, exactly when it has neither count nor weights. */
  lemma JoinedIffUniform(c: Choice, n: Numerals)
    requires Sound(c, n)
    ensures Texts(c) != []
    ensures c.expr == "{" + Join(Texts(c)) + "}" <==> c.Uniform?
  {
    if c.Weighted? {
      var parts :| WeightedBy(parts, c.shares, n) && c.expr == "{" + Join(parts) + "}";
      SharesShorter(parts, c.shares, n);
    } else if c.Picked? {
      var inner, pieces :| PickedBy(inner, pieces, c.expr, c.pick, c.choices, n);
      NonBlankShorter(pieces);
    }
  }

  // ----- Every report is of a part of the prompt -----

  /** `part` stands somewhere in `text`. */
  ghost predicate Within(part: string, text: string) {
    exists front, back :: text == front + part + back
  }

  lemma WithinAt(front: string, part: string, back: string)
    ensures Within(part, front + part + back)
  {
  }

  lemma WithinItself(s: string)
    ensures Within(s, s)
  {
    assert s == [] + s + [];
  }

  lemma SuffixWithin(front: string, part: string)
    ensures Within(part, front + part)
  {
    assert front + part == front + part + [];
  }

  lemma WithinTwice(a: string, b: string, c: string)
    requires Within(a, b) && Within(b, c)
    ensures Within(a, c)
  {
    var f, g :| b == f + a + g;
    var h, k :| c == h + b + k;
    assert c == h + f + a + (g + k);
  }

  lemma PartBegins(cur: string, s: string)
    ensures Within(cur, cur + s)
  {
    assert cur + s == [] + cur + s;
  }

  lemma BarWithin(cur: string, s: string, rest: seq<string>)
    requires s != [] && forall part <- rest :: Within(part, s[1..])
    ensures forall part <- [cur] + rest :: Within(part, cur + s)
  {
    PartBegins(cur, s);
    SuffixWithin(cur + [s[0]], s[1..]);
    assert cur + [s[0]] + s[1..] == cur + s;
    forall part <- rest ensures Within(part, cur + s) {
      WithinTwice(part, s[1..], cur + s);
    }
  }

  lemma {:induction false} PartsWithin(s: string, low: nat, cur: string)
    ensures forall part <- SplitSaturating(s, low, cur) :: Within(part, cur + s)
    decreases |s|
  {
    if s == [] {
      PartBegins(cur, s);
    } else if s[0] == '|' && low == 0 {
      PartsWithin(s[1..], 0, []);
      assert [] + s[1..] == s[1..];
      BarWithin(cur, s, SplitSaturating(s[1..], 0, []));
    } else {
      PartsWithin(s[1..], SaturatingStep(s[0], low), cur + [s[0]]);
      assert cur + [s[0]] + s[1..] == cur + s;
    }
  }

  lemma {:induction false} TrimStartWithin(s: string)
    ensures Within(TrimStart(s), s)
  {
    if s != [] && IsWhitespace(s[0]) {
      TrimStartWithin(s[1..]);
      SuffixWithin([s[0]], s[1..]);
      assert s == [s[0]] + s[1..];
      WithinTwice(TrimStart(s), s[1..], s);
    } else {
      WithinItself(s);
    }
  }

  lemma {:induction false} TrimEndWithin(s: string)
    ensures Within(TrimEnd(s), s)
  {
    if s != [] && IsWhitespace(s[|s| - 1]) {
      var front := s[..|s| - 1];
      TrimEndWithin(front);
      PartBegins(front, [s[|s| - 1]]);
      assert s == front + [s[|s| - 1]];
      WithinTwice(TrimEnd(s), front, s);
    } else {
      WithinItself(s);
    }
  }

  lemma {:induction false} NonBlankWithin(pieces: seq<string>, text: string)
    requires forall piece <- pieces :: Within(piece, text)
    ensures forall part <- NonBlank(pieces) :: Within(part, text)
  {
    if pieces != [] {
      var piece := pieces[0];
      TrimStartWithin(piece);
      TrimEndWithin(TrimStart(piece));
      WithinTwice(Trim(piece), TrimStart(piece), piece);
      WithinTwice(Trim(piece), piece, text);
      NonBlankWithin(pieces[1..], text);
    }
  }

  lemma PiecesWithin(text: string)
    ensures forall part <- Parts(text) :: Within(part, text)
  {
    PartsWithin(text, 0, []);
    assert [] + text == text;
  }

  lemma PickedWithin(inner: string, pick: Pick, n: Numerals)
    requires PickOf(inner, n) == Some(pick)
    ensures forall part <- NonBlank(Parts(pick.rest)) :: Within(part, inner)
  {
    var front := PickRest(inner, n);
    SuffixWithin(front, pick.rest);
    PiecesWithin(pick.rest);
    forall piece <- Parts(pick.rest) ensures Within(piece, inner) {
      WithinTwice(piece, pick.rest, inner);
    }
    NonBlankWithin(Parts(pick.rest), inner);
  }

  lemma SharesWithin(inner: string, n: Numerals)
    requires AllWeighted(Parts(inner), n)
    ensures forall text <- TextsOf(Shares(Parts(inner), n)) :: Within(text, inner)
  {
    var parts := Parts(inner);
    PiecesWithin(inner);
    forall i | 0 <= i < |parts| ensures Within(TextsOf(Shares(parts, n))[i], inner) {
      var front := WeightText(parts[i], n);
      SuffixWithin(front, WeightOf(parts[i], n).value.text);
      assert parts[i] in parts;
      WithinTwice(WeightOf(parts[i], n).value.text, parts[i], inner);
    }
  }

  /** What is analysed further stands inside the group. */
  lemma TextsWithin(c: Choice, inner: string, n: Numerals)
    requires FromGroup(c, inner, n)
    ensures forall text <- Texts(c) :: Within(text, inner)
  {
    match c
    case Picked(_, pick, _) => PickedWithin(inner, pick, n);
    case Weighted(_, _) => SharesWithin(inner, n);
    case Uniform(_, _) => PiecesWithin(inner);
  }

  /** Every reported expression stands in the prompt as it is reported. */
  lemma {:induction false} ChoicesWithin(text: string, n: Numerals)
    ensures forall c <- Choices(text, n) :: Within(c.expr, text)
    decreases |text|, 0
  {
    if text == [] {
    } else if text[0] == '{' && Match(text[1..], 1).Some? {
      var inner, rest := MatchHeads(text);
      var group := "{" + inner + "}";
      GroupWithin(inner, n);
      ChoicesWithin(rest, n);
      ChoicesHead(text, inner, rest, n);
      PartBegins(group, rest);
      SuffixWithin(group, rest);
      InEither(GroupChoices(inner, n), group, Choices(rest, n), rest, text);
    } else {
      ChoicesWithin(text[1..], n);
      SuffixWithin([text[0]], text[1..]);
      assert text == [text[0]] + text[1..];
      AllFurther(Choices(text[1..], n), text[1..], text);
    }
  }

  lemma AllFurther(cs: seq<Choice>, part: string, text: string)
    requires (forall c <- cs :: Within(c.expr, part)) && Within(part, text)
    ensures forall c <- cs :: Within(c.expr, text)
  {
    forall c <- cs ensures Within(c.expr, text) {
      WithinTwice(c.expr, part, text);
    }
  }

  lemma InEither(a: seq<Choice>, part: string, b: seq<Choice>, rest: string, text: string)
    requires (forall c <- a :: Within(c.expr, part)) && (forall c <- b :: Within(c.expr, rest))
    requires Within(part, text) && Within(rest, text)
    ensures forall c <- a + b :: Within(c.expr, text)
  {
    AllFurther(a, part, text);
    AllFurther(b, rest, text);
  }

  lemma {:induction false} GroupWithin(inner: string, n: Numerals)
    ensures forall c <- GroupChoices(inner, n) :: Within(c.expr, "{" + inner + "}")
    decreases |inner|, 2
  {
    match Reported(inner, n)
    case None =>
    case Some(c) =>
      ReportedFrom(inner, n, c);
      TextsWithin(c, inner, n);
      EntryWithin(c, inner, n);
  }

  lemma {:induction false} EntryWithin(c: Choice, inner: string, n: Numerals)
    requires c.expr == "{" + inner + "}"
    requires forall text <- Texts(c) :: Within(text, inner) && |text| <= |inner|
    ensures forall d <- [c] + AllChoices(Texts(c), |inner|, n) :: Within(d.expr, "{" + inner + "}")
    decreases |inner|, 1, |Texts(c)| + 1
  {
    WithinItself(c.expr);
    AllChoicesWithin(Texts(c), inner, |inner|, n);
    WithinAt("{", inner, "}");
    AllFurther(AllChoices(Texts(c), |inner|, n), inner, "{" + inner + "}");
  }

  lemma {:induction false} AllChoicesWithin(parts: seq<string>, inner: string, bound: nat, n: Numerals)
    requires forall part <- parts :: |part| <= bound && Within(part, inner)
    ensures forall c <- AllChoices(parts, bound, n) :: Within(c.expr, inner)
    decreases bound, 1, |parts|
  {
    if parts != [] {
      ChoicesWithin(parts[0], n);
      AllFurther(Choices(parts[0], n), parts[0], inner);
      AllChoicesWithin(parts[1..], inner, bound, n);
    }
  }

  // ----- Weights are left out of what is reported -----

  /** The weight two or three in front of a part. */
  lemma WeightInFront(digit: char, weight: real, text: string, n: Numerals)
    requires '0' <= digit <= '9' && n.decimal([digit]) == Some(weight)
    ensures WeightOf([digit] + "::" + text, n) == Some(Share(weight, text))
  {
    var part := [digit] + "::" + text;
    assert part[1..][0] == ':' && part[..1] == [digit] && part[3..] == text;
    assert Digits(part[1..], n) == 0 && Digits(part, n) == 1;
    assert part[1] == ':' && part[2] == ':';
  }

  lemma WeightedReported(inner: string, p: string, q: string, s: Share, t: Share, n: Numerals)
    requires PickOf(inner, n).None? && Parts(inner) == [p, q]
    requires WeightOf(p, n) == Some(s) && WeightOf(q, n) == Some(t) && NotOne(s.weight)
    ensures Reported(inner, n) == Some(Weighted("{" + inner + "}", [s, t]))
  {
    assert NotOne(WeightOf([p, q][0], n).value.weight);
    assert Shares([p, q], n) == [s, t];
  }

  lemma NoPick(inner: string, n: Numerals)
    requires |inner| >= 2 && '0' <= inner[0] <= '9' && inner[1] == ':'
    ensures PickOf(inner, n).None?
  {
    assert inner[1..][0] == ':';
    assert Digits(inner[1..], n) == 0 && Digits(inner, n) == 1;
  }

  lemma TwoParts(p: string, q: string)
    requires '{' !in p && '}' !in p && '|' !in p && '{' !in q && '}' !in q && '|' !in q
    ensures Parts(p + "|" + q) == [p, q]
  {
    NoBraces(p);
    NoBraces(q);
    NoBraces(p + "|" + q);
    assert [p, q][1..] == [q];
    SplitOfJoin([p, q]);
    SplittersAgree(p + "|" + q);
  }

  /** Two parts with weights are reported without them, so the expression is not the choices joined. */
  lemma WeightedNotJoined(a: string, b: string, n: Numerals)
    requires '{' !in a && '}' !in a && '|' !in a && '{' !in b && '}' !in b && '|' !in b
    requires n.decimal("2") == Some(2.0) && n.decimal("3") == Some(3.0)
    ensures var inner := "2::" + a + "|" + ("3::" + b);
            && Reported(inner, n) == Some(Weighted("{" + inner + "}", [Share(2.0, a), Share(3.0, b)]))
            && "{" + inner + "}" != "{" + Join([a, b]) + "}"
  {
    var p, q := "2::" + a, "3::" + b;
    var inner := p + "|" + q;
    TwoParts(p, q);
    assert ['2'] + "::" == "2::" && ['3'] + "::" == "3::";
    WeightInFront('2', 2.0, a, n);
    WeightInFront('3', 3.0, b, n);
    NoPick(inner, n);
    WeightedReported(inner, p, q, Share(2.0, a), Share(3.0, b), n);
    JoinTwo(a, b);
  }

  lemma JoinTwo(a: string, b: string)
    ensures Join([a, b]) == a + "|" + b
  {
    assert [a, b][1..] == [b];
  }

  // ----- When anything is reported -----

  /** What is inside the outermost matched groups, from left to right. */
  function OuterGroups(text: string): seq<string> {
    if text == [] then []
    else if text[0] == '{' && Match(text[1..], 1).Some? then
      var end := Match(text[1..], 1).value;
      MatchBounds(text[1..], 1);
      [text[1..][..end]] + OuterGroups(text[1..][end + 1..])
    else
      OuterGroups(text[1..])
  }

  /** Nothing but bars and white space, so nothing to pick from. */
  predicate Blank(s: string) {
    forall c <- s :: c == '|' || IsWhitespace(c)
  }

  /** A group with a pick count is passed over if there is nothing to pick from, any other one without a bar. */
  predicate PassedOver(inner: string, n: Numerals) {
    match PickOf(inner, n)
    case Some(pick) => Blank(pick.rest)
    case None => !HasBar(inner, 0)
  }

  lemma {:induction false} TrimStartSpace(s: string)
    ensures AllSpace(TrimStart(s)) <==> AllSpace(s)
    ensures TrimStart(s) != [] ==> !IsWhitespace(TrimStart(s)[0])
  {
    if s != [] && IsWhitespace(s[0]) {
      TrimStartSpace(s[1..]);
      assert s == [s[0]] + s[1..];
    }
  }

  lemma {:induction false} TrimEndSpace(s: string)
    ensures AllSpace(s) <==> TrimEnd(s) == []
  {
    if s != [] {
      assert s == s[..|s| - 1] + [s[|s| - 1]];
      if IsWhitespace(s[|s| - 1]) {
        TrimEndSpace(s[..|s| - 1]);
      }
    }
  }

  lemma TrimSpace(s: string)
    ensures Trim(s) == [] <==> AllSpace(s)
  {
    TrimStartSpace(s);
    TrimEndSpace(TrimStart(s));
  }

  lemma {:induction false} NonBlankMeans(parts: seq<string>)
    ensures NonBlank(parts) == [] <==> forall part <- parts :: AllSpace(part)
  {
    if parts != [] {
      TrimSpace(parts[0]);
      NonBlankMeans(parts[1..]);
      assert parts == [parts[0]] + parts[1..];
    }
  }

  lemma {:induction false} BlankParts(s: string, low: nat, cur: string)
    requires low > 0 ==> !AllSpace(cur)
    ensures (forall part <- SplitSaturating(s, low, cur) :: AllSpace(part)) <==> AllSpace(cur) && Blank(s)
    decreases |s|
  {
    if s != [] {
      assert s == [s[0]] + s[1..];
      if s[0] == '|' && low == 0 {
        BlankParts(s[1..], 0, []);
      } else {
        SpaceMore(cur, s[0]);
        BlankParts(s[1..], SaturatingStep(s[0], low), cur + [s[0]]);
      }
    }
  }

  lemma SpaceMore(s: string, c: char)
    ensures AllSpace(s + [c]) <==> AllSpace(s) && IsWhitespace(c)
  {
    assert forall d <- s :: d in s + [c];
    assert c in s + [c];
  }

  lemma NothingToPick(rest: string)
    ensures NonBlank(Parts(rest)) == [] <==> Blank(rest)
  {
    NonBlankMeans(Parts(rest));
    BlankParts(rest, 0, []);
  }

  lemma OnePart(inner: string)
    requires Balanced(inner)
    ensures |Parts(inner)| < 2 <==> !HasBar(inner, 0)
  {
    SplittersAgree(inner);
    SplitsAtBars(inner, 0, []);
  }

  lemma ReportedIff(inner: string, n: Numerals)
    requires Balanced(inner)
    ensures Reported(inner, n).None? <==> PassedOver(inner, n)
  {
    match PickOf(inner, n)
    case Some(pick) => NothingToPick(pick.rest);
    case None => OnePart(inner);
  }

  /** Nothing is reported exactly when all outermost groups are passed over. */
  lemma {:induction false} ReportsOuterChoices(text: string, n: Numerals)
    ensures Choices(text, n) == [] <==> forall inner <- OuterGroups(text) :: PassedOver(inner, n)
    decreases |text|
  {
    if text == [] {
    } else if text[0] == '{' && Match(text[1..], 1).Some? {
      var inner, rest := MatchHeads(text);
      ReportedIff(inner, n);
      ReportsOuterChoices(rest, n);
      assert OuterGroups(text) == [inner] + OuterGroups(rest);
    } else {
      ReportsOuterChoices(text[1..], n);
    }
  }

  lemma {:induction false} OuterGroupsOf(text: string)
    ensures Settled(text) ==> forall inner <- OuterGroups(text) :: !HasBar(inner, 0)
    ensures forall inner <- OuterGroups(text) :: forall c <- inner :: c in text
    decreases |text|
  {
    if text == [] {
    } else if text[0] == '{' && Match(text[1..], 1).Some? {
      var inner, rest := MatchHeads(text);
      OuterGroupsOf(rest);
      assert OuterGroups(text) == [inner] + OuterGroups(rest);
      assert text == "{" + inner + "}" + rest;
    } else {
      OuterGroupsOf(text[1..]);
      assert text == [text[0]] + text[1..];
    }
  }

  /** A group has a pick count, and something to pick from. */
  predicate OffersPick(inner: string, n: Numerals) {
    PickOf(inner, n).Some? && !Blank(PickOf(inner, n).value.rest)
  }

  /**
   About a prompt that expansion leaves unchanged, something is reported exactly when one
   of its outermost groups has a pick count and something to pick from; never without a
   dollar sign.
   */
  lemma SettledReports(text: string, n: Numerals)
    requires Settled(text)
    ensures Choices(text, n) == [] <==> forall inner <- OuterGroups(text) :: !OffersPick(inner, n)
    ensures '$' !in text ==> Choices(text, n) == []
  {
    ReportsOuterChoices(text, n);
    OuterGroupsOf(text);
    forall inner <- OuterGroups(text)
      ensures PassedOver(inner, n) <==> !OffersPick(inner, n)
      ensures '$' !in text ==> !OffersPick(inner, n)
    {
      if PickOf(inner, n).Some? {
        PickHasDollar(inner, n);
      }
    }
  }

  /** So a choice inside emphasis braces goes unreported, though expansion makes it. */
  lemma EmphasisHidesChoice(inner: string, numerals: Numerals, o: Oracle, n: nat)
    requires Balanced(inner) && HasBar(inner, 0)
    ensures Choices("{{" + inner + "}}", numerals) == []
    ensures Expand("{{" + inner + "}}", o, n).text != "{{" + inner + "}}"
  {
    var group := "{" + inner + "}";
    var text := "{{" + inner + "}}";
    GroupWhole(inner);
    assert text == "{" + group + "}" + "";
    HeadsMatch(text, group, "");
    ReportedIff(group, numerals);
    if PickOf(group, numerals).Some? {
      PickHasDollar(group, numerals);
      assert false;
    }
    SettledGroup(group, "");
    assert group + "" == group;
    assert group == "{" + inner + "}" + "";
    SettledGroup(inner, "");
    ChangedIffChoice(text, o, n);
  }

  // ----- A pick count is reported, and expansion does not know it -----

  lemma {:induction false} NoBraces(s: string)
    requires '{' !in s && '}' !in s
    ensures Balanced(s) && (HasBar(s, 0) <==> '|' in s)
  {
    if s != [] {
      NoBraces(s[1..]);
      assert s == [s[0]] + s[1..];
    }
  }

  lemma {:induction false} NoDollar(s: string)
    requires '$' !in s
    ensures FirstDollar(s) == |s|
  {
    if s != [] {
      NoDollar(s[1..]);
    }
  }

  /** The pick count two, and what comes after it. */
  lemma TwoPicked(rest: string, n: Numerals)
    requires '$' !in rest
    ensures PickOf("2$$" + rest, n) == Some(Pick(NumberOr("2", n, 0), NumberOr("2", n, 0), rest))
  {
    var inner := "2$$" + rest;
    assert inner[1..][0] == '$' && inner[1..][1] == '$' && inner[..1] == "2" && inner[3..] == rest;
    assert Digits(inner[1..], n) == 0;
    NoDollar(rest);
    assert rest[|rest|..] == [];
  }

  lemma OneGroup(inner: string)
    requires '{' !in inner && '}' !in inner
    ensures OuterGroups("{" + inner + "}") == [inner]
    ensures Settled("{" + inner + "}") <==> '|' !in inner
  {
    var text := "{" + inner + "}";
    assert text == "{" + inner + "}" + "";
    NoBraces(inner);
    HeadsMatch(text, inner, "");
    SettledGroup(inner, "");
    if '|' !in inner {
      NoBarNoChoice(inner);
    }
  }

  lemma PickOnly(rest: string)
    requires '{' !in rest && '}' !in rest
    ensures "{2$$" + rest + "}" == "{" + ("2$$" + rest) + "}"
    ensures OuterGroups("{2$$" + rest + "}") == ["2$$" + rest]
    ensures Settled("{2$$" + rest + "}") <==> '|' !in rest
  {
    OneGroup("2$$" + rest);
    assert "{2$$" + rest + "}" == "{" + ("2$$" + rest) + "}";
    assert forall c <- "2$$" + rest :: c in "2$$" || c in rest;
    assert forall i | 0 <= i < |rest| :: ("2$$" + rest)[3 + i] == rest[i];
  }

  /** A pick from text without a bar is reported, though expansion leaves it as it is. */
  lemma PickUnexpanded(rest: string, n: Numerals, o: Oracle, k: nat)
    requires '{' !in rest && '}' !in rest && '|' !in rest && '$' !in rest && !AllSpace(rest)
    ensures Choices("{2$$" + rest + "}", n) != []
    ensures Expand("{2$$" + rest + "}", o, k).text == "{2$$" + rest + "}"
  {
    var text := "{2$$" + rest + "}";
    PickOnly(rest);
    assert OffersPick("2$$" + rest, n) by {
      TwoPicked(rest, n);
      var c :| c in rest && !IsWhitespace(c);
    }
    assert OuterGroups(text)[0] == "2$$" + rest;
    SettledReports(text, n);
    ChangedIffChoice(text, o, k);
  }

  /** A pick from nothing but bars and white space goes unreported, though expansion makes a choice. */
  lemma BlankPickUnreported(rest: string, n: Numerals, o: Oracle, k: nat)
    requires Blank(rest) && '|' in rest
    ensures Choices("{2$$" + rest + "}", n) == []
    ensures Expand("{2$$" + rest + "}", o, k).text != "{2$$" + rest + "}"
  {
    var text := "{2$$" + rest + "}";
    PickOnly(rest);
    TwoPicked(rest, n);
    ReportsOuterChoices(text, n);
    ChangedIffChoice(text, o, k);
  }
}
