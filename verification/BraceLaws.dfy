/**
 What expansion promises for every prompt and every source of random numbers: what
 comes out has no choice left to make, so expanding again changes nothing.
 */
module BraceLaws {
  import opened Results
  import opened Braces

  // ----- Depth and matching -----

  /** The depth after one more character. */
  function Step(c: char, depth: int): int {
    if c == '{' then depth + 1 else if c == '}' then depth - 1 else depth
  }

  lemma {:induction false} RunAppend(a: string, b: string, depth: nat)
    ensures Run(a + b, depth) ==
            match Run(a, depth) { case None => None case Some(d) => Run(b, d) }
  {
    if a == [] {
      assert a + b == b;
    } else {
      assert (a + b)[1..] == a[1..] + b;
      if !(a[0] == '}' && depth == 0) {
        RunAppend(a[1..], b, Step(a[0], depth));
      }
    }
  }

  /** A text that runs from one depth runs in the same way from a greater one. */
  lemma {:induction false} RunHigher(s: string, depth: nat, more: nat)
    requires Run(s, depth).Some?
    ensures Run(s, depth + more) == Some(Run(s, depth).value + more)
  {
    if s != [] {
      RunHigher(s[1..], Step(s[0], depth), more);
    }
  }

  /** A brace stays unmatched exactly when the depth never returns below it. */
  lemma {:induction false} UnmatchedRuns(s: string, depth: nat)
    requires depth > 0
    ensures Match(s, depth).None? <==> Run(s, depth - 1).Some?
  {
    if s != [] && !(s[0] == '}' && depth == 1) {
      UnmatchedRuns(s[1..], Step(s[0], depth));
    }
  }

  /** What lies before the matching brace comes back to the depth it started at. */
  lemma {:induction false} MatchedRuns(s: string, depth: nat)
    requires depth > 0 && Match(s, depth).Some?
    ensures Match(s, depth).value < |s| && s[Match(s, depth).value] == '}'
    ensures Run(s[..Match(s, depth).value], depth - 1) == Some(0)
  {
    if s[0] == '}' && depth == 1 {
      assert s[..0] == [];
    } else {
      MatchedRuns(s[1..], Step(s[0], depth));
      var k := Match(s, depth).value;
      assert s[..k][1..] == s[1..][..k - 1];
    }
  }

  /** The first place where a balanced text is followed by a closing brace matches. */
  lemma {:induction false} MatchAfter(a: string, b: string, depth: nat)
    requires depth > 0 && Run(a, depth - 1) == Some(0)
    ensures Match(a + "}" + b, depth) == Some(|a|)
  {
    var s := a + "}" + b;
    if a != [] {
      assert s[1..] == a[1..] + "}" + b;
      MatchAfter(a[1..], b, Step(a[0], depth));
    }
  }

  // ----- Bars -----

  /** A bar stands where the depth, counted from `depth`, is zero. */
  predicate HasBar(s: string, depth: int) {
    s != [] && ((s[0] == '|' && depth == 0) || HasBar(s[1..], Step(s[0], depth)))
  }

  lemma {:induction false} SplitsAtBars(s: string, depth: int, cur: string)
    ensures |SplitFrom(s, depth, cur)| >= 2 <==> HasBar(s, depth)
    decreases |s|
  {
    if s != [] && !(s[0] == '|' && depth == 0) {
      SplitsAtBars(s[1..], Step(s[0], depth), cur + [s[0]]);
    }
  }

  lemma {:induction false} BarAppend(a: string, b: string, depth: nat)
    requires Run(a, depth).Some?
    ensures HasBar(a + b, depth) <==> HasBar(a, depth) || HasBar(b, Run(a, depth).value)
  {
    if a == [] {
      assert a + b == b;
    } else {
      assert (a + b)[1..] == a[1..] + b;
      BarAppend(a[1..], b, Step(a[0], depth));
    }
  }

  /** Above depth zero, a balanced text has no bar at depth zero. */
  lemma {:induction false} NoBarInside(s: string, depth: nat, more: nat)
    requires Run(s, depth).Some? && more > 0
    ensures !HasBar(s, depth + more)
  {
    if s != [] {
      NoBarInside(s[1..], Step(s[0], depth), more);
    }
  }

  /** The parts of a text, put back together with bars. */
  function Join(parts: seq<string>): string
    requires |parts| >= 1
  {
    if |parts| == 1 then parts[0] else parts[0] + "|" + Join(parts[1..])
  }

  lemma {:induction false} JoinSplitFrom(s: string, depth: int, cur: string)
    ensures Join(SplitFrom(s, depth, cur)) == cur + s
    decreases |s|
  {
    if s == [] {
    } else if s[0] == '|' && depth == 0 {
      JoinSplitFrom(s[1..], 0, []);
      assert SplitFrom(s, depth, cur)[1..] == SplitFrom(s[1..], 0, []);
      assert cur + "|" + ([] + s[1..]) == cur + s;
    } else {
      JoinSplitFrom(s[1..], Step(s[0], depth), cur + [s[0]]);
      assert cur + [s[0]] + s[1..] == cur + s;
    }
  }

  /** No character is lost, and no bar is taken that is not at depth zero. */
  predicate Whole(part: string) {
    Balanced(part) && !HasBar(part, 0)
  }

  lemma {:induction false} PartsWhole(s: string, depth: nat, cur: string)
    requires Run(cur, 0) == Some(depth) && !HasBar(cur, 0)
    requires Run(s, depth) == Some(0)
    ensures forall part <- SplitFrom(s, depth, cur) :: Whole(part)
    decreases |s|
  {
    if s == [] {
    } else if s[0] == '|' && depth == 0 {
      PartsWhole(s[1..], 0, []);
    } else {
      RunAppend(cur, [s[0]], 0);
      BarAppend(cur, [s[0]], 0);
      PartsWhole(s[1..], Step(s[0], depth), cur + [s[0]]);
    }
  }

  /** Splitting a balanced text and joining the parts are inverses. */
  lemma JoinOfSplit(s: string)
    ensures Join(Split(s)) == s
    ensures Balanced(s) ==> forall part <- Split(s) :: Whole(part)
  {
    JoinSplitFrom(s, 0, []);
    if Balanced(s) {
      PartsWhole(s, 0, []);
    }
  }

  lemma {:induction false} SplitWhole(s: string, depth: nat, cur: string, rest: string)
    requires Run(s, depth) == Some(0) && !HasBar(s, depth)
    ensures SplitFrom(s + "|" + rest, depth, cur) == [cur + s] + SplitFrom(rest, 0, [])
    decreases |s|
  {
    var t := s + "|" + rest;
    if s == [] {
      assert t[1..] == rest && cur + s == cur;
    } else {
      assert t[1..] == s[1..] + "|" + rest;
      SplitWhole(s[1..], Step(s[0], depth), cur + [s[0]], rest);
      assert cur + [s[0]] + s[1..] == cur + s;
    }
  }

  lemma {:induction false} NoSplit(s: string, depth: int, cur: string)
    requires !HasBar(s, depth)
    ensures SplitFrom(s, depth, cur) == [cur + s]
    decreases |s|
  {
    if s == [] {
      assert cur + s == cur;
    } else {
      NoSplit(s[1..], Step(s[0], depth), cur + [s[0]]);
      assert cur + [s[0]] + s[1..] == cur + s;
    }
  }

  lemma {:induction false} SplitOfJoin(parts: seq<string>)
    requires |parts| >= 1 && forall part <- parts :: Whole(part)
    ensures Split(Join(parts)) == parts
  {
    assert Whole(parts[0]);
    if |parts| == 1 {
      NoSplit(parts[0], 0, []);
      assert [] + parts[0] == parts[0];
    } else {
      SplitOfJoin(parts[1..]);
      SplitWhole(parts[0], 0, [], Join(parts[1..]));
      assert [] + parts[0] == parts[0];
    }
  }

  // ----- Trimming -----

  lemma {:induction false} TrimStartWhole(s: string)
    requires Whole(s)
    ensures Whole(TrimStart(s))
  {
    if s != [] && IsWhitespace(s[0]) {
      TrimStartWhole(s[1..]);
    }
  }

  lemma {:induction false} TrimEndWhole(s: string)
    requires Whole(s)
    ensures Whole(TrimEnd(s))
  {
    if s != [] && IsWhitespace(s[|s| - 1]) {
      var front, last := s[..|s| - 1], [s[|s| - 1]];
      assert s == front + last;
      RunAppend(front, last, 0);
      BarAppend(front, last, 0);
      TrimEndWhole(front);
    }
  }

  // ----- Expansion -----

  /** A group `{inner}` at the head of `s`, and what comes after it. */
  predicate Heads(s: string, inner: string, rest: string) {
    Balanced(inner) && s == "{" + inner + "}" + rest
  }

  lemma HeadsMatch(s: string, inner: string, rest: string)
    requires Heads(s, inner, rest)
    ensures s[0] == '{' && Match(s[1..], 1) == Some(|inner|)
    ensures s[1..][..|inner|] == inner && s[1..][|inner| + 1..] == rest
  {
    assert s[1..] == inner + "}" + rest;
    MatchAfter(inner, rest, 1);
  }

  lemma MatchHeads(s: string) returns (inner: string, rest: string)
    requires s != [] && s[0] == '{' && Match(s[1..], 1).Some?
    ensures Heads(s, inner, rest)
    ensures Match(s[1..], 1).value < |s[1..]|
    ensures inner == s[1..][..Match(s[1..], 1).value] && rest == s[1..][Match(s[1..], 1).value + 1..]
  {
    var t, k := s[1..], Match(s[1..], 1).value;
    MatchedRuns(t, 1);
    inner, rest := t[..k], t[k + 1..];
    assert t == inner + "}" + rest;
  }

  /** The depth over a group and what follows it is the depth over what follows it. */
  lemma RunGroup(inner: string, rest: string, depth: nat)
    requires Balanced(inner)
    ensures Run("{" + inner + "}", depth) == Some(depth)
    ensures Run("{" + inner + "}" + rest, depth) == Run(rest, depth)
  {
    RunHigher(inner, 0, depth + 1);
    RunAppend("{" + inner, "}", depth);
    RunAppend("{", inner, depth);
    RunAppend("{" + inner + "}", rest, depth);
  }

  /** A group has no bar outside it. */
  lemma GroupWhole(inner: string)
    requires Balanced(inner)
    ensures Whole("{" + inner + "}")
  {
    RunGroup(inner, "", 0);
    NoBarInside(inner, 0, 1);
    RunHigher(inner, 0, 1);
    BarAppend(inner, "}", 1);
    assert ("{" + inner + "}")[1..] == inner + "}";
  }

  lemma BarOver(a: string, b: string, depth: nat)
    requires Whole(a)
    ensures HasBar(a + b, depth) <==> HasBar(b, depth)
  {
    if depth > 0 {
      NoBarInside(a, 0, depth);
    }
    RunHigher(a, 0, depth);
    BarAppend(a, b, depth);
  }

  lemma RunOver(a: string, b: string, depth: nat)
    requires Balanced(a)
    ensures Run(a + b, depth) == Run(b, depth)
  {
    RunHigher(a, 0, depth);
    RunAppend(a, b, depth);
  }

  /** A part that a choice may pick: balanced, and shorter than the group. */
  lemma PickedWhole(inner: string, idx: nat)
    requires Balanced(inner) && idx < |Split(inner)|
    ensures Whole(Trim(Split(inner)[idx]))
  {
    JoinOfSplit(inner);
    TrimStartWhole(Split(inner)[idx]);
    TrimEndWhole(TrimStart(Split(inner)[idx]));
  }

  /** Expansion never changes which braces are matched. */
  lemma {:induction false} ExpandKeepsDepth(s: string, o: Oracle, n: nat, depth: nat)
    ensures Run(Expand(s, o, n).text, depth) == Run(s, depth)
    decreases |s|, 0
  {
    if s == [] {
    } else if s[0] == '{' && Match(s[1..], 1).Some? {
      var inner, rest := MatchHeads(s);
      ResolveBalanced(inner, o, n);
      var group := Resolve(inner, o, n);
      ExpandKeepsDepth(rest, o, group.draws, depth);
      RunOver(group.text, Expand(rest, o, group.draws).text, depth);
      RunGroup(inner, rest, depth);
    } else {
      var rest := Expand(s[1..], o, n).text;
      assert ([s[0]] + rest)[1..] == rest;
      if !(s[0] == '}' && depth == 0) {
        ExpandKeepsDepth(s[1..], o, n, Step(s[0], depth));
      }
    }
  }

  lemma {:induction false} ResolveBalanced(inner: string, o: Oracle, n: nat)
    requires Balanced(inner)
    ensures Balanced(Resolve(inner, o, n).text)
    decreases |inner|, 1
  {
    var parts := Split(inner);
    if |parts| < 2 {
      ExpandKeepsDepth(inner, o, n, 0);
      RunGroup(Expand(inner, o, n).text, "", 0);
    } else {
      var idx := o(n, |parts|);
      PickedWhole(inner, idx);
      ExpandKeepsDepth(Trim(parts[idx]), o, n + 1, 0);
    }
  }

  /** Expansion puts no bar where it could be taken for a choice. */
  lemma {:induction false} ExpandAddsNoBar(s: string, o: Oracle, n: nat, depth: nat)
    requires Run(s, depth).Some? && !HasBar(s, depth)
    ensures !HasBar(Expand(s, o, n).text, depth)
    decreases |s|, 0
  {
    if s == [] {
    } else if s[0] == '{' && Match(s[1..], 1).Some? {
      var inner, rest := MatchHeads(s);
      ResolveBalanced(inner, o, n);
      ResolveAddsNoBar(inner, o, n);
      var group := Resolve(inner, o, n);
      RunGroup(inner, rest, depth);
      GroupWhole(inner);
      BarOver("{" + inner + "}", rest, depth);
      ExpandAddsNoBar(rest, o, group.draws, depth);
      BarOver(group.text, Expand(rest, o, group.draws).text, depth);
    } else {
      var rest := Expand(s[1..], o, n).text;
      assert ([s[0]] + rest)[1..] == rest;
      ExpandAddsNoBar(s[1..], o, n, Step(s[0], depth));
    }
  }

  lemma {:induction false} ResolveAddsNoBar(inner: string, o: Oracle, n: nat)
    requires Balanced(inner)
    ensures !HasBar(Resolve(inner, o, n).text, 0)
    decreases |inner|, 1
  {
    var parts := Split(inner);
    if |parts| < 2 {
      ExpandKeepsDepth(inner, o, n, 0);
      GroupWhole(Expand(inner, o, n).text);
    } else {
      var idx := o(n, |parts|);
      PickedWhole(inner, idx);
      ExpandAddsNoBar(Trim(parts[idx]), o, n + 1, 0);
    }
  }

  // ----- Nothing left to choose -----

  /** No matched group of `s`, however deep, has a bar of its own. */
  predicate Settled(s: string)
    decreases |s|
  {
    if s == [] then true
    else if s[0] == '{' && Match(s[1..], 1).Some? then
      var end := Match(s[1..], 1).value;
      MatchBounds(s[1..], 1);
      !HasBar(s[1..][..end], 0) && Settled(s[1..][..end]) && Settled(s[1..][end + 1..])
    else
      Settled(s[1..])
  }

  lemma SettledGroup(inner: string, rest: string)
    requires Balanced(inner)
    ensures Settled("{" + inner + "}" + rest) <==> !HasBar(inner, 0) && Settled(inner) && Settled(rest)
  {
    HeadsMatch("{" + inner + "}" + rest, inner, rest);
  }

  lemma {:induction false} SettledAppend(a: string, b: string)
    requires Balanced(a) && Settled(a) && Settled(b)
    ensures Settled(a + b)
    decreases |a|
  {
    if a == [] {
      assert a + b == b;
    } else if a[0] == '{' {
      UnmatchedRuns(a[1..], 1);
      RunStep(a);
      var inner, rest := MatchHeads(a);
      RunGroup(inner, rest, 0);
      SettledAppend(rest, b);
      assert a + b == "{" + inner + "}" + (rest + b);
      SettledGroup(inner, rest + b);
    } else {
      assert (a + b)[1..] == a[1..] + b;
      SettledAppend(a[1..], b);
    }
  }

  /** An opening brace of a balanced text cannot be left unmatched. */
  lemma RunStep(s: string)
    requires s != [] && s[0] == '{' && Balanced(s)
    ensures Run(s[1..], 0).None?
  {
    if Run(s[1..], 0).Some? {
      RunHigher(s[1..], 0, 1);
    }
  }

  /** Whatever is drawn, the expansion of a prompt has no choice left in it. */
  lemma {:induction false} ExpandSettles(s: string, o: Oracle, n: nat)
    ensures Settled(Expand(s, o, n).text)
    decreases |s|, 0
  {
    if s == [] {
    } else if s[0] == '{' && Match(s[1..], 1).Some? {
      var inner, rest := MatchHeads(s);
      var group := Resolve(inner, o, n);
      ResolveBalanced(inner, o, n);
      ResolveSettles(inner, o, n);
      ExpandSettles(rest, o, group.draws);
      SettledAppend(group.text, Expand(rest, o, group.draws).text);
    } else {
      var rest := Expand(s[1..], o, n).text;
      ExpandSettles(s[1..], o, n);
      assert ([s[0]] + rest)[1..] == rest;
      UnmatchedRuns(s[1..], 1);
      UnmatchedRuns(rest, 1);
      ExpandKeepsDepth(s[1..], o, n, 0);
    }
  }

  lemma {:induction false} ResolveSettles(inner: string, o: Oracle, n: nat)
    requires Balanced(inner)
    ensures Settled(Resolve(inner, o, n).text)
    decreases |inner|, 1
  {
    var parts := Split(inner);
    if |parts| < 2 {
      var e := Expand(inner, o, n).text;
      SplitsAtBars(inner, 0, []);
      ExpandSettles(inner, o, n);
      ExpandKeepsDepth(inner, o, n, 0);
      ExpandAddsNoBar(inner, o, n, 0);
      SettledGroup(e, "");
      assert "{" + e + "}" + "" == "{" + e + "}";
    } else {
      ExpandSettles(Trim(parts[o(n, |parts|)]), o, n + 1);
    }
  }

  /** A settled prompt is left alone without a draw; any other one gets shorter. */
  lemma {:induction false} SettledIsFixed(s: string, o: Oracle, n: nat)
    ensures Settled(s) ==> Expand(s, o, n) == Expansion(s, n)
    ensures !Settled(s) ==> |Expand(s, o, n).text| < |s|
    decreases |s|, 0
  {
    if s == [] {
    } else if s[0] == '{' && Match(s[1..], 1).Some? {
      var inner, rest := MatchHeads(s);
      SettledGroup(inner, rest);
      ResolveFixed(inner, o, n);
      SettledIsFixed(rest, o, Resolve(inner, o, n).draws);
    } else {
      SettledIsFixed(s[1..], o, n);
    }
  }

  lemma {:induction false} ResolveFixed(inner: string, o: Oracle, n: nat)
    ensures !HasBar(inner, 0) && Settled(inner) ==> Resolve(inner, o, n) == Expansion("{" + inner + "}", n)
    ensures HasBar(inner, 0) || !Settled(inner) ==> |Resolve(inner, o, n).text| < |inner| + 2
    decreases |inner|, 1
  {
    SplitsAtBars(inner, 0, []);
    if HasBar(inner, 0) {
      SettledIsFixed(Trim(Split(inner)[o(n, |Split(inner)|)]), o, n + 1);
    } else {
      SettledIsFixed(inner, o, n);
    }
  }

  /** Expanding a second time, with any other random numbers, changes nothing. */
  lemma ExpandTwice(s: string, o: Oracle, n: nat, p: Oracle, m: nat)
    ensures Expand(Expand(s, o, n).text, p, m) == Expansion(Expand(s, o, n).text, m)
  {
    ExpandSettles(s, o, n);
    SettledIsFixed(Expand(s, o, n).text, p, m);
  }

  /** A prompt is left unchanged exactly when it has no choice in it. */
  lemma ChangedIffChoice(s: string, o: Oracle, n: nat)
    ensures Expand(s, o, n).text == s <==> Settled(s)
    ensures |Expand(s, o, n).text| <= |s|
  {
    SettledIsFixed(s, o, n);
  }

  lemma {:induction false} NoBarNoChoice(s: string)
    requires '|' !in s
    ensures Settled(s)
    ensures forall depth: int :: !HasBar(s, depth)
    decreases |s|
  {
    if s != [] {
      NoBarNoChoice(s[1..]);
      if s[0] == '{' && Match(s[1..], 1).Some? {
        var inner, rest := MatchHeads(s);
        NoBarNoChoice(inner);
        NoBarNoChoice(rest);
      }
    }
  }

  /** A prompt with no bar is returned as it is. */
  lemma NoBarUnchanged(s: string, o: Oracle, n: nat)
    requires '|' !in s
    ensures Expand(s, o, n) == Expansion(s, n)
  {
    NoBarNoChoice(s);
    SettledIsFixed(s, o, n);
  }
}
