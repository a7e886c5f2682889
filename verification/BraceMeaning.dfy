/**
 The outcomes of a prompt, said without the functions that scan it: a group is a balanced
 text in braces, a choice is its parts joined by bars, and the part that is drawn loses the
 white space around it.
 */
module BraceMeaning {
  import opened Results
  import opened Braces
  import opened BraceLaws
  import opened BraceOutcomes

  // ----- Trimming -----

  /** The characters with the Unicode property White_Space. */
  const SPACES: seq<char> :=
    ['\t', '\n', '\U{0B}', '\U{0C}', '\r', ' ', '\U{85}', '\U{A0}', '\U{1680}',
     '\U{2000}', '\U{2001}', '\U{2002}', '\U{2003}', '\U{2004}', '\U{2005}', '\U{2006}', '\U{2007}', '\U{2008}',
     '\U{2009}', '\U{200A}', '\U{2028}', '\U{2029}', '\U{202F}', '\U{205F}', '\U{3000}']

  lemma SpacesAre(c: char)
    ensures IsWhitespace(c) <==> c in SPACES
  {
  }

  predicate AllSpace(s: string) {
    forall c <- s :: IsWhitespace(c)
  }

  /** `t` is `s` without the white space around it. */
  ghost predicate IsTrimmed(s: string, t: string) {
    && (t != [] ==> !IsWhitespace(t[0]) && !IsWhitespace(t[|t| - 1]))
    && exists front, back :: AllSpace(front) && AllSpace(back) && s == front + t + back
  }

  lemma {:induction false} TrimFront(s: string) returns (front: string)
    ensures AllSpace(front) && s == front + TrimStart(s)
    ensures TrimStart(s) != [] ==> !IsWhitespace(TrimStart(s)[0])
  {
    front := [];
    if s != [] && IsWhitespace(s[0]) {
      front := TrimFront(s[1..]);
      front := [s[0]] + front;
    }
  }

  lemma {:induction false} TrimBack(s: string) returns (back: string)
    ensures AllSpace(back) && s == TrimEnd(s) + back
    ensures TrimEnd(s) != [] ==> !IsWhitespace(TrimEnd(s)[|TrimEnd(s)| - 1]) && TrimEnd(s)[0] == s[0]
  {
    back := [];
    if s != [] && IsWhitespace(s[|s| - 1]) {
      back := TrimBack(s[..|s| - 1]);
      back := back + [s[|s| - 1]];
    }
  }

  lemma {:induction false} TrimsFront(front: string, t: string)
    requires AllSpace(front) && (t != [] ==> !IsWhitespace(t[0]))
    ensures TrimStart(front + t) == t
    decreases |front|
  {
    if front == [] {
      assert front + t == t;
    } else {
      assert (front + t)[1..] == front[1..] + t;
      TrimsFront(front[1..], t);
    }
  }

  lemma {:induction false} TrimsBack(t: string, back: string)
    requires AllSpace(back) && (t != [] ==> !IsWhitespace(t[|t| - 1]))
    ensures TrimEnd(t + back) == t
    decreases |back|
  {
    var s := t + back;
    if back == [] {
      assert s == t;
    } else {
      var front := back[..|back| - 1];
      assert s[|s| - 1] == back[|back| - 1] && s[..|s| - 1] == t + front;
      TrimsBack(t, front);
    }
  }

  /** Trimming takes away the white space on both sides, all of it and nothing else. */
  lemma {:induction false} TrimIff(s: string, t: string)
    ensures Trim(s) == t <==> IsTrimmed(s, t)
  {
    var front := TrimFront(s);
    var back := TrimBack(TrimStart(s));
    assert s == front + Trim(s) + back;
    assert IsTrimmed(s, Trim(s));
    if IsTrimmed(s, t) {
      TrimmedOnce(s, t);
    }
  }

  lemma TrimmedOnce(s: string, t: string)
    requires IsTrimmed(s, t)
    ensures Trim(s) == t
  {
    var front, back :| AllSpace(front) && AllSpace(back) && s == front + t + back;
    if t == [] {
      assert AllSpace(s) && s + [] == s;
      TrimsFront(s, []);
    } else {
      assert s == front + (t + back);
      TrimsFront(front, t + back);
      TrimsBack(t, back);
    }
  }

  // ----- Outcomes -----

  /** A text is one character or one group, and what follows. */
  ghost predicate StartsGroup(s: string) {
    exists inner, rest :: Heads(s, inner, rest)
  }

  /** A group at the head of a text becomes one of its outcomes, and so does what follows it. */
  lemma GroupFirst(s: string, inner: string, rest: string, text: string)
    requires Heads(s, inner, rest)
    ensures Outcome(s, text) <==> exists a, b :: text == a + b && GroupOutcome(inner, a) && Outcome(rest, b)
  {
    HeadsMatch(s, inner, rest);
    assert s != [];
  }

  /** Any other character is kept. */
  lemma CharFirst(s: string, text: string)
    requires s != [] && !StartsGroup(s)
    ensures Outcome(s, text) <==> text != [] && text[0] == s[0] && Outcome(s[1..], text[1..])
  {
    if s[0] == '{' && Match(s[1..], 1).Some? {
      var inner, rest := MatchHeads(s);
      assert StartsGroup(s);
      assert false;
    }
  }

  /** Parts that a bar cannot be mistaken in. */
  ghost predicate AllWhole(parts: seq<string>) {
    |parts| >= 1 && forall part <- parts :: Whole(part)
  }

  /** A text is the parts, joined by bars, in one way only. */
  lemma OneJoin(inner: string, parts: seq<string>)
    requires Balanced(inner)
    ensures Split(inner) == parts <==> AllWhole(parts) && Join(parts) == inner
  {
    JoinOfSplit(inner);
    if AllWhole(parts) && Join(parts) == inner {
      SplitOfJoin(parts);
    }
  }

  /** Emphasis keeps its braces, and what is inside becomes one of its outcomes. */
  lemma EmphasisOutcomes(inner: string, text: string)
    requires Whole(inner)
    ensures GroupOutcome(inner, text) <==> exists e :: text == "{" + e + "}" && Outcome(inner, e)
  {
    NoSplit(inner, 0, []);
    assert [] + inner == inner;
  }

  ghost predicate PartOutcome(part: string, text: string) {
    exists t :: IsTrimmed(part, t) && Outcome(t, text)
  }

  /** A choice becomes an outcome of any one part, without the white space around it. */
  lemma ChoiceOutcomes(parts: seq<string>, text: string)
    requires AllWhole(parts) && |parts| >= 2
    ensures GroupOutcome(Join(parts), text) <==> exists part <- parts :: PartOutcome(part, text)
  {
    SplitOfJoin(parts);
    forall part <- parts ensures PartOutcome(part, text) <==> Outcome(Trim(part), text) {
      TrimIff(part, Trim(part));
      if PartOutcome(part, text) {
        var t :| IsTrimmed(part, t) && Outcome(t, text);
        TrimIff(part, t);
      }
    }
    if GroupOutcome(Join(parts), text) {
      var idx: nat :| idx < |parts| && Outcome(Trim(parts[idx]), text);
      assert parts[idx] in parts;
    }
    if part :| part in parts && PartOutcome(part, text) {
      var idx :| 0 <= idx < |parts| && parts[idx] == part;
    }
  }

  /** The number that is drawn says which part it is. */
  lemma DrawnPart(parts: seq<string>, t: string, o: Oracle, n: nat)
    requires AllWhole(parts) && |parts| >= 2 && IsTrimmed(parts[o(n, |parts|)], t)
    ensures Resolve(Join(parts), o, n) == Expand(t, o, n + 1)
  {
    SplitOfJoin(parts);
    TrimIff(parts[o(n, |parts|)], t);
  }

  /** Groups draw from left to right, emphasis as its inside does, and other characters not at all. */
  lemma DrawsInOrder(s: string, inner: string, rest: string, o: Oracle, n: nat)
    requires Heads(s, inner, rest)
    ensures var group := Resolve(inner, o, n);
            Expand(s, o, n) == After(group.text, Expand(rest, o, group.draws))
    ensures Whole(inner) ==>
              Resolve(inner, o, n) == Expansion("{" + Expand(inner, o, n).text + "}", Expand(inner, o, n).draws)
  {
    HeadsMatch(s, inner, rest);
    if Whole(inner) {
      NoSplit(inner, 0, []);
      assert [] + inner == inner;
    }
  }

  lemma CharDrawsNothing(s: string, o: Oracle, n: nat)
    requires s != [] && !StartsGroup(s)
    ensures Expand(s, o, n) == After([s[0]], Expand(s[1..], o, n))
  {
    if s[0] == '{' && Match(s[1..], 1).Some? {
      var inner, rest := MatchHeads(s);
      assert StartsGroup(s);
      assert false;
    }
  }
}
