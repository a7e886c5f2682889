/**
 What a prompt can become, said without any random numbers: each choice gives any one
 of its alternatives. Expansion reaches exactly these texts.
 */
module BraceOutcomes {
  import opened Results
  import opened Braces
  import opened BraceLaws

  ghost predicate Outcome(s: string, text: string)
    decreases |s|, 0
  {
    if s == [] then text == []
    else if s[0] == '{' && Match(s[1..], 1).Some? then
      var end := Match(s[1..], 1).value;
      MatchBounds(s[1..], 1);
      exists a, b ::
        text == a + b && GroupOutcome(s[1..][..end], a) && Outcome(s[1..][end + 1..], b)
    else
      text != [] && text[0] == s[0] && Outcome(s[1..], text[1..])
  }

  /** What a group `{inner}` can become. */
  ghost predicate GroupOutcome(inner: string, text: string)
    decreases |inner|, 1
  {
    var parts := Split(inner);
    if |parts| < 2 then
      exists e :: text == "{" + e + "}" && Outcome(inner, e)
    else
      exists idx: nat :: idx < |parts| && Outcome(Trim(parts[idx]), text)
  }

  /** Expansion gives nothing else. */
  lemma {:induction false} ExpandIsOutcome(s: string, o: Oracle, n: nat)
    ensures Outcome(s, Expand(s, o, n).text)
    decreases |s|, 0
  {
    if s == [] {
    } else if s[0] == '{' && Match(s[1..], 1).Some? {
      var inner, rest := MatchHeads(s);
      ResolveIsOutcome(inner, o, n);
      ExpandIsOutcome(rest, o, Resolve(inner, o, n).draws);
    } else {
      ExpandIsOutcome(s[1..], o, n);
      assert Expand(s, o, n).text[1..] == Expand(s[1..], o, n).text;
    }
  }

  lemma {:induction false} ResolveIsOutcome(inner: string, o: Oracle, n: nat)
    ensures GroupOutcome(inner, Resolve(inner, o, n).text)
    decreases |inner|, 1
  {
    var parts := Split(inner);
    if |parts| < 2 {
      ExpandIsOutcome(inner, o, n);
    } else {
      var idx := o(n, |parts|);
      ExpandIsOutcome(Trim(parts[idx]), o, n + 1);
    }
  }

  /** The draws that start at number `n` are `xs`. */
  ghost predicate Draws(o: Oracle, n: nat, xs: seq<nat>) {
    forall i: nat, bound: nat | n <= i < n + |xs| && xs[i - n] < bound :: o(i, bound) == xs[i - n]
  }

  lemma DrawsBoth(o: Oracle, n: nat, xs: seq<nat>, ys: seq<nat>)
    requires Draws(o, n, xs + ys)
    ensures Draws(o, n, xs) && Draws(o, n + |xs|, ys)
  {
  }

  /** Any draws that go on as `xs` from number `n` turn `s` into `text`. */
  ghost predicate Lead(s: string, n: nat, xs: seq<nat>, text: string) {
    forall o: Oracle | Draws(o, n, xs) :: Expand(s, o, n) == Expansion(text, n + |xs|)
  }

  ghost predicate LeadGroup(inner: string, n: nat, xs: seq<nat>, text: string) {
    forall o: Oracle | Draws(o, n, xs) :: Resolve(inner, o, n) == Expansion(text, n + |xs|)
  }

  lemma HeadsShorter(s: string, inner: string, rest: string)
    requires Heads(s, inner, rest)
    ensures |inner| < |s| && |rest| < |s|
  {
  }

  lemma LeadBoth(s: string, inner: string, rest: string, n: nat, xs: seq<nat>, m: nat, ys: seq<nat>,
                 a: string, b: string)
    requires Heads(s, inner, rest) && m == n + |xs|
    requires LeadGroup(inner, n, xs, a) && Lead(rest, m, ys, b)
    ensures Lead(s, n, xs + ys, a + b)
  {
    HeadsMatch(s, inner, rest);
    forall o: Oracle | Draws(o, n, xs + ys)
      ensures Expand(s, o, n) == Expansion(a + b, n + |xs + ys|)
    {
      DrawsBoth(o, n, xs, ys);
    }
  }

  lemma LeadChar(s: string, n: nat, xs: seq<nat>, text: string)
    requires s != [] && !(s[0] == '{' && Match(s[1..], 1).Some?)
    requires text != [] && text[0] == s[0] && Lead(s[1..], n, xs, text[1..])
    ensures Lead(s, n, xs, text)
  {
    assert text == [s[0]] + text[1..];
  }

  lemma LeadPick(inner: string, n: nat, idx: nat, ys: seq<nat>, text: string)
    requires 2 <= |Split(inner)| && idx < |Split(inner)|
    requires Lead(Trim(Split(inner)[idx]), n + 1, ys, text)
    ensures LeadGroup(inner, n, [idx] + ys, text)
  {
    forall o: Oracle | Draws(o, n, [idx] + ys)
      ensures Resolve(inner, o, n) == Expansion(text, n + |[idx] + ys|)
    {
      PickStep(inner, o, n, idx, ys, text);
    }
  }

  lemma PickStep(inner: string, o: Oracle, n: nat, idx: nat, ys: seq<nat>, text: string)
    requires 2 <= |Split(inner)| && idx < |Split(inner)|
    requires Lead(Trim(Split(inner)[idx]), n + 1, ys, text) && Draws(o, n, [idx] + ys)
    ensures Resolve(inner, o, n) == Expansion(text, n + 1 + |ys|)
  {
    DrawsBoth(o, n, [idx], ys);
    FirstDraw(o, n, idx, |Split(inner)|);
  }

  lemma FirstDraw(o: Oracle, n: nat, idx: nat, bound: nat)
    requires Draws(o, n, [idx]) && idx < bound
    ensures o(n, bound) == idx
  {
  }

  lemma OutcomeParts(s: string, inner: string, rest: string, text: string) returns (a: string, b: string)
    requires Heads(s, inner, rest) && Outcome(s, text)
    ensures text == a + b && GroupOutcome(inner, a) && Outcome(rest, b)
  {
    HeadsMatch(s, inner, rest);
    a, b :| text == a + b && GroupOutcome(inner, a) && Outcome(rest, b);
  }

  /** Draws that lead from the prompt to the text. */
  lemma {:induction false} OutcomeHasDraws(s: string, text: string, n: nat) returns (xs: seq<nat>)
    requires Outcome(s, text)
    ensures Lead(s, n, xs, text)
    decreases |s|, 1
  {
    if s == [] {
      xs := [];
    } else if s[0] == '{' && Match(s[1..], 1).Some? {
      var inner, rest := MatchHeads(s);
      xs := HeadHasDraws(s, inner, rest, text, n);
    } else {
      xs := OutcomeHasDraws(s[1..], text[1..], n);
      LeadChar(s, n, xs, text);
    }
  }

  lemma {:induction false} HeadHasDraws(s: string, inner: string, rest: string, text: string, n: nat)
    returns (xs: seq<nat>)
    requires Heads(s, inner, rest) && Outcome(s, text)
    ensures Lead(s, n, xs, text)
    decreases |s|, 0
  {
    HeadsShorter(s, inner, rest);
    var a, b := OutcomeParts(s, inner, rest, text);
    var front := GroupHasDraws(inner, a, n);
    var m := n + |front|;
    var back := OutcomeHasDraws(rest, b, m);
    LeadBoth(s, inner, rest, n, front, m, back, a, b);
    xs := front + back;
  }

  lemma {:induction false} GroupHasDraws(inner: string, text: string, n: nat) returns (xs: seq<nat>)
    requires GroupOutcome(inner, text)
    ensures LeadGroup(inner, n, xs, text)
    decreases |inner|, 2
  {
    var parts := Split(inner);
    if |parts| < 2 {
      var e :| text == "{" + e + "}" && Outcome(inner, e);
      xs := OutcomeHasDraws(inner, e, n);
    } else {
      var idx: nat :| idx < |parts| && Outcome(Trim(parts[idx]), text);
      var ys := OutcomeHasDraws(Trim(parts[idx]), text, n + 1);
      LeadPick(inner, n, idx, ys, text);
      xs := [idx] + ys;
    }
  }

  /** The texts that expansion can give are exactly the outcomes of the prompt. */
  lemma Reachable(s: string, text: string, n: nat)
    ensures Outcome(s, text) <==> exists o: Oracle :: Expand(s, o, n).text == text
  {
    if Outcome(s, text) {
      var xs := OutcomeHasDraws(s, text, n);
      var o: Oracle := (i, bound) => if n <= i < n + |xs| && xs[i - n] < bound then xs[i - n] else 0;
      assert Draws(o, n, xs);
      assert Expand(s, o, n).text == text;
    }
    forall o: Oracle | Expand(s, o, n).text == text ensures Outcome(s, text) {
      ExpandIsOutcome(s, o, n);
    }
  }
}
