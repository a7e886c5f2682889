/**
 The dynamic-prompt brace language: `{a|b}` is a choice, `{a}` is emphasis and
 is kept, and a brace that is never matched is plain text.
 */
module Braces {
  import opened Results

  // ----- Depth -----

  /**
   The depth after `s` when it starts at `depth`; nothing if a closing brace comes at
   depth zero.
   */
  function Run(s: string, depth: nat): Option<nat> {
    if s == [] then Some(depth)
    else if s[0] == '{' then Run(s[1..], depth + 1)
    else if s[0] == '}' then if depth == 0 then None else Run(s[1..], depth - 1)
    else Run(s[1..], depth)
  }

  predicate Balanced(s: string) {
    Run(s, 0) == Some(0)
  }

  /** The position where `s`, starting at `depth`, comes back to depth zero. */
  function Match(s: string, depth: nat): Option<nat>
    requires depth > 0
  {
    if s == [] then None
    else if s[0] == '}' && depth == 1 then Some(0)
    else
      match Match(s[1..], if s[0] == '{' then depth + 1 else if s[0] == '}' then depth - 1 else depth)
      case None => None
      case Some(k) => Some(k + 1)
  }

  method FindMatchingBraceChar(chars: string, start: nat) returns (r: Option<nat>)
    requires start < |chars| && chars[start] == '{'
    ensures r == MatchAt(chars, start)
    ensures r.Some? ==> start < r.value < |chars|
  {
    var depth := 1;
    for i := start + 1 to |chars|
      invariant depth > 0
      invariant MatchAt(chars, start) == Later(i, Match(chars[i..], depth))
    {
      assert chars[i..][1..] == chars[i + 1..];
      match chars[i] {
        case '{' => depth := depth + 1;
        case '}' =>
          depth := depth - 1;
          if depth == 0 {
            return Some(i);
          }
        case _ =>
      }
    }
    return None;
  }

  /** The closing brace of the opening brace at `start`. */
  function MatchAt(chars: string, start: nat): Option<nat>
    requires start < |chars|
  {
    Later(start + 1, Match(chars[start + 1..], 1))
  }

  function Later(offset: nat, at: Option<nat>): Option<nat> {
    match at
    case None => None
    case Some(k) => Some(offset + k)
  }

  // ----- Splitting at top-level bars -----

  /** The parts of `s` between bars at depth zero, the first one continuing `cur`. */
  function SplitFrom(s: string, depth: int, cur: string): (parts: seq<string>)
    ensures |parts| >= 1
    ensures forall part <- parts :: |part| <= |cur| + |s|
    decreases |s|
  {
    if s == [] then [cur]
    else if s[0] == '|' && depth == 0 then [cur] + SplitFrom(s[1..], 0, [])
    else
      SplitFrom(s[1..], if s[0] == '{' then depth + 1 else if s[0] == '}' then depth - 1 else depth, cur + [s[0]])
  }

  function Split(s: string): (parts: seq<string>)
    ensures |parts| >= 1
    ensures forall part <- parts :: |part| <= |s|
  {
    SplitFrom(s, 0, [])
  }

  method SplitTopLevelPipe(s: string) returns (parts: seq<string>)
    ensures parts == Split(s)
  {
    parts := [];
    var depth := 0;
    var cur := [];
    ghost var goal := Split(s);
    assert parts + goal == goal;
    for i := 0 to |s|
      invariant parts + SplitFrom(s[i..], depth, cur) == goal
    {
      assert s[i..][1..] == s[i + 1..];
      match s[i] {
        case '{' =>
          depth := depth + 1;
          cur := cur + [s[i]];
        case '}' =>
          depth := depth - 1;
          cur := cur + [s[i]];
        case '|' =>
          if depth == 0 {
            parts := parts + [cur];
            cur := [];
          } else {
            cur := cur + [s[i]];
          }
        case _ => cur := cur + [s[i]];
      }
    }
    parts := parts + [cur];
  }

  // ----- Expansion -----

  /** Rust's `char::is_whitespace`. */
  predicate IsWhitespace(c: char) {
    || '\t' <= c <= '\r' || c == ' ' || c == '\U{85}' || c == '\U{A0}' || c == '\U{1680}'
    || '\U{2000}' <= c <= '\U{200A}' || c == '\U{2028}' || c == '\U{2029}' || c == '\U{202F}'
    || c == '\U{205F}' || c == '\U{3000}'
  }

  function TrimStart(s: string): (r: string)
    ensures |r| <= |s|
  {
    if s != [] && IsWhitespace(s[0]) then TrimStart(s[1..]) else s
  }

  function TrimEnd(s: string): (r: string)
    ensures |r| <= |s|
  {
    if s != [] && IsWhitespace(s[|s| - 1]) then TrimEnd(s[..|s| - 1]) else s
  }

  function Trim(s: string): (r: string)
    ensures |r| <= |s|
  {
    TrimEnd(TrimStart(s))
  }

  /** An arbitrary source of random numbers: the answer to each draw, by its index and its bound. */
  type Oracle = o: (nat, nat) -> nat | InRange(o) witness (i, bound) => 0

  ghost predicate InRange(o: (nat, nat) -> nat) {
    forall i, bound | bound > 0 :: o(i, bound) < bound
  }

  /** A text, and how many draws have been made in all. */
  datatype Expansion = Expansion(text: string, draws: nat)

  function Expand(s: string, o: Oracle, n: nat): Expansion
    decreases |s|, 0
  {
    if s == [] then Expansion([], n)
    else if s[0] == '{' && Match(s[1..], 1).Some? then
      var end := Match(s[1..], 1).value;
      MatchBounds(s[1..], 1);
      var group := Resolve(s[1..][..end], o, n);
      var rest := Expand(s[1..][end + 1..], o, group.draws);
      Expansion(group.text + rest.text, rest.draws)
    else
      var rest := Expand(s[1..], o, n);
      Expansion([s[0]] + rest.text, rest.draws)
  }

  /** What a group `{inner}` becomes. */
  function Resolve(inner: string, o: Oracle, n: nat): Expansion
    decreases |inner|, 1
  {
    var parts := Split(inner);
    if |parts| < 2 then
      var e := Expand(inner, o, n);
      Expansion("{" + e.text + "}", e.draws)
    else
      Expand(Trim(parts[o(n, |parts|)]), o, n + 1)
  }

  lemma {:induction false} MatchBounds(s: string, depth: nat)
    requires depth > 0 && Match(s, depth).Some?
    ensures Match(s, depth).value < |s| && s[Match(s, depth).value] == '}'
  {
    if !(s[0] == '}' && depth == 1) {
      MatchBounds(s[1..], if s[0] == '{' then depth + 1 else if s[0] == '}' then depth - 1 else depth);
    }
  }

  /** The random number generator the expander draws from. */
  class Rng {
    const oracle: Oracle
    var draws: nat

    constructor (oracle: Oracle)
      ensures this.oracle == oracle && draws == 0
    {
      this.oracle := oracle;
      draws := 0;
    }

    method RandomRange(bound: nat) returns (r: nat)
      requires bound > 0
      modifies this
      ensures r == oracle(old(draws), bound) && r < bound
      ensures draws == old(draws) + 1
    {
      r := oracle(draws, bound);
      draws := draws + 1;
    }
  }

  method ExpandBraceChoices(s: string, rng: Rng) returns (out: string)
    modifies rng
    ensures Expansion(out, rng.draws) == Expand(s, rng.oracle, old(rng.draws))
    decreases |s|, 1
  {
    out := "";
    var i := 0;
    ghost var goal := Expand(s, rng.oracle, rng.draws);
    assert s[0..] == s;
    while i < |s|
      invariant i <= |s|
      invariant goal == After(out, Expand(s[i..], rng.oracle, rng.draws))
      decreases |s| - i
    {
      var piece, next := ExpandOne(s, i, rng);
      AfterTwice(out, piece, Expand(s[next..], rng.oracle, rng.draws));
      out, i := out + piece, next;
    }
  }

  /** One turn of the loop: a matched group, or one character. */
  method ExpandOne(s: string, i: nat, rng: Rng) returns (piece: string, next: nat)
    requires i < |s|
    modifies rng
    ensures i < next <= |s|
    ensures Expand(s[i..], rng.oracle, old(rng.draws)) == After(piece, Expand(s[next..], rng.oracle, rng.draws))
    decreases |s|, 0
  {
    var end := GroupEnd(s, i);
    if end.Some? {
      piece := ExpandMatched(s, i, end.value, rng);
      return piece, end.value + 1;
    } else {
      ExpandChar(s, i, rng.oracle, rng.draws);
      return [s[i]], i + 1;
    }
  }

  /** The end of the group that starts at `i`, if one does. */
  method GroupEnd(s: string, i: nat) returns (end: Option<nat>)
    requires i < |s|
    ensures end == if s[i] == '{' then MatchAt(s, i) else None
    ensures end.Some? ==> i < end.value < |s|
  {
    end := None;
    if s[i] == '{' {
      end := FindMatchingBraceChar(s, i);
    }
  }

  method ExpandMatched(s: string, i: nat, end: nat, rng: Rng) returns (piece: string)
    requires i < end < |s| && s[i] == '{' && MatchAt(s, i) == Some(end)
    modifies rng
    ensures Expand(s[i..], rng.oracle, old(rng.draws)) == After(piece, Expand(s[end + 1..], rng.oracle, rng.draws))
    decreases |s| - 1, 3
  {
    ghost var n := rng.draws;
    piece := ResolveBraceChoice(s[i + 1..end], rng);
    ExpandGroup(s, i, end, rng.oracle, n, Expansion(piece, rng.draws));
  }

  /** An expansion with text in front of it. */
  function After(text: string, e: Expansion): Expansion {
    Expansion(text + e.text, e.draws)
  }

  lemma AfterTwice(a: string, b: string, e: Expansion)
    ensures After(a, After(b, e)) == After(a + b, e)
  {
    assert a + (b + e.text) == a + b + e.text;
  }

  /** One turn of the loop, at a matched group. */
  lemma ExpandGroup(s: string, i: nat, end: nat, o: Oracle, n: nat, group: Expansion)
    requires i < end < |s| && s[i] == '{' && MatchAt(s, i) == Some(end)
    requires group == Resolve(s[i + 1..end], o, n)
    ensures Expand(s[i..], o, n) == After(group.text, Expand(s[end + 1..], o, group.draws))
  {
    var t, k := s[i..], end - (i + 1);
    assert t[1..] == s[i + 1..];
    MatchBounds(s[i + 1..], 1);
    assert t[1..][..k] == s[i + 1..end];
    assert t[1..][k + 1..] == s[end + 1..];
  }

  /** One turn of the loop, at any other character. */
  lemma ExpandChar(s: string, i: nat, o: Oracle, n: nat)
    requires i < |s| && !(s[i] == '{' && MatchAt(s, i).Some?)
    ensures Expand(s[i..], o, n) == After([s[i]], Expand(s[i + 1..], o, n))
  {
    assert s[i..][1..] == s[i + 1..];
  }

  method ResolveBraceChoice(inner: string, rng: Rng) returns (out: string)
    modifies rng
    ensures Expansion(out, rng.draws) == Resolve(inner, rng.oracle, old(rng.draws))
    decreases |inner|, 2
  {
    var parts := SplitTopLevelPipe(inner);
    if |parts| < 2 {
      out := ExpandBraceChoices(inner, rng);
      return "{" + out + "}";
    }
    var idx := rng.RandomRange(|parts|);
    out := ExpandBraceChoices(Trim(parts[idx]), rng);
  }
}
