/**
 What the analysis reports of a group, by the patterns in front of its parts, and which
 groups it reports.
 */
module BraceReports {
  import opened BraceAnalysis
  import opened BraceLaws
  import opened BraceMeaning
  import opened Braces
  import opened ChoiceMarks
  import opened ChoicePatterns
  import opened Results

  // ----- One group -----

  /** The choices are the pieces that are not white space, in their order, without that around them. */
  ghost predicate Kept(pieces: seq<string>, choices: seq<string>) {
    if pieces == [] then choices == []
    else if AllSpace(pieces[0]) then Kept(pieces[1..], choices)
    else choices != [] && IsTrimmed(pieces[0], choices[0]) && Kept(pieces[1..], choices[1..])
  }

  lemma SameHeads(a: seq<string>, x: string, rest: seq<string>)
    requires a != []
    ensures [x] + rest == a <==> x == a[0] && rest == a[1..]
  {
    assert ([x] + rest)[1..] == rest && a == [a[0]] + a[1..];
  }

  lemma {:induction false} NonBlankIff(pieces: seq<string>, choices: seq<string>)
    ensures NonBlank(pieces) == choices <==> Kept(pieces, choices)
    decreases |pieces|
  {
    if pieces != [] {
      var piece, rest := pieces[0], pieces[1..];
      TrimSpace(piece);
      if AllSpace(piece) {
        assert [] + NonBlank(rest) == NonBlank(rest);
        NonBlankIff(rest, choices);
      } else if choices != [] {
        TrimIff(piece, choices[0]);
        NonBlankIff(rest, choices[1..]);
        SameHeads(choices, Trim(piece), NonBlank(rest));
      }
    }
  }

  /** Every part has a weight in front, and not every weight is one. */
  ghost predicate HasWeights(parts: seq<string>, n: Numerals) {
    && (forall i | 0 <= i < |parts| :: WeightOf(parts[i], n).Some?)
    && exists i | 0 <= i < |parts| ::
         && WeightOf(parts[i], n).Some?
         && var w := WeightOf(parts[i], n).value.weight; w < 1.0 - 0.000000000001 || 1.0 + 0.000000000001 < w
  }

  ghost predicate Unpicked(inner: string, n: Numerals) {
    forall pick :: !Picks(inner, pick, n)
  }

  /** A weight and a text for each part, and not every weight is one. */
  ghost predicate SharesOf(parts: seq<string>, shares: seq<Share>, n: Numerals) {
    && |shares| == |parts| && HasWeights(parts, n)
    && forall i | 0 <= i < |parts| :: WeightOf(parts[i], n) == Some(shares[i])
  }

  ghost predicate IsReport(inner: string, c: Choice, n: Numerals) {
    && c.expr == "{" + inner + "}"
    && match c
       case Picked(_, pick, choices) => Picks(inner, pick, n) && choices != [] && Kept(Parts(pick.rest), choices)
       case Weighted(_, shares) => Unpicked(inner, n) && |Split(inner)| >= 2 && SharesOf(Split(inner), shares, n)
       case Uniform(_, choices) =>
         Unpicked(inner, n) && choices == Split(inner) && |choices| >= 2 && !HasWeights(choices, n)
  }

  lemma HasWeightsIff(parts: seq<string>, n: Numerals)
    ensures HasWeights(parts, n) <==> AllWeighted(parts, n) && AnyNotOne(parts, n)
  {
    NotOneIff(parts, n);
  }

  lemma SharesIff(parts: seq<string>, shares: seq<Share>, n: Numerals)
    ensures SharesOf(parts, shares, n)
       <==> AllWeighted(parts, n) && AnyNotOne(parts, n) && shares == Shares(parts, n)
  {
    HasWeightsIff(parts, n);
    if SharesOf(parts, shares, n) {
      assert shares == Shares(parts, n);
    }
  }

  lemma UnpickedMeans(inner: string, n: Numerals)
    ensures PickOf(inner, n).None? <==> Unpicked(inner, n)
  {
    if PickOf(inner, n).Some? {
      PickIff(inner, n, PickOf(inner, n).value);
    } else {
      forall pick ensures !Picks(inner, pick, n) {
        PickIff(inner, n, pick);
      }
    }
  }

  lemma OnePick(inner: string, pick: Pick, other: Pick, n: Numerals)
    requires PickOf(inner, n) == Some(pick)
    ensures Picks(inner, other, n) <==> other == pick
  {
    PickIff(inner, n, other);
  }

  lemma PickedIs(inner: string, pick: Pick, n: Numerals)
    requires PickOf(inner, n) == Some(pick)
    ensures var choices := NonBlank(Parts(pick.rest));
            Reported(inner, n) == if choices == [] then None else Some(Picked("{" + inner + "}", pick, choices))
  {
  }

  lemma PickedReport(inner: string, pick: Pick, c: Choice, n: Numerals)
    requires PickOf(inner, n) == Some(pick) && c.Picked?
    ensures Reported(inner, n) == Some(c) <==> IsReport(inner, c, n)
  {
    PickedIs(inner, pick, n);
    OnePick(inner, pick, c.pick, n);
    NonBlankIff(Parts(pick.rest), c.choices);
  }

  lemma PickedIff(inner: string, c: Choice, n: Numerals)
    requires PickOf(inner, n).Some?
    ensures Reported(inner, n) == Some(c) <==> IsReport(inner, c, n)
  {
    if c.Picked? {
      PickedReport(inner, PickOf(inner, n).value, c, n);
    } else {
      PickedIs(inner, PickOf(inner, n).value, n);
      UnpickedMeans(inner, n);
    }
  }

  lemma UnpickedIff(inner: string, c: Choice, n: Numerals)
    requires PickOf(inner, n).None? && Parts(inner) == Split(inner)
    ensures Reported(inner, n) == Some(c) <==> IsReport(inner, c, n)
  {
    UnpickedMeans(inner, n);
    match c
    case Picked(_, pick, _) =>
    case Weighted(_, shares) => SharesIff(Split(inner), shares, n);
    case Uniform(_, choices) => HasWeightsIff(Split(inner), n);
  }

  /** What a group in balanced braces is reported as, and that it is. */
  lemma ReportIff(inner: string, c: Choice, n: Numerals)
    requires Balanced(inner)
    ensures Reported(inner, n) == Some(c) <==> IsReport(inner, c, n)
  {
    SplittersAgree(inner);
    if PickOf(inner, n).Some? {
      PickedIff(inner, c, n);
    } else {
      UnpickedIff(inner, c, n);
    }
  }

  // ----- All groups -----

  /** It is listed for one of the texts. */
  ghost predicate InSome(parts: seq<string>, c: Choice, n: Numerals) {
    exists i | 0 <= i < |parts| :: c in Choices(parts[i], n)
  }

  /** Reported of an outermost group, or listed for one of the texts of what is. */
  ghost predicate ListedFor(inner: string, c: Choice, n: Numerals) {
    match Reported(inner, n)
    case None => false
    case Some(d) => c == d || InSome(Texts(d), c, n)
  }

  lemma InFirst(parts: seq<string>, c: Choice, n: Numerals)
    requires parts != []
    ensures InSome(parts, c, n) <==> c in Choices(parts[0], n) || InSome(parts[1..], c, n)
  {
    if InSome(parts, c, n) {
      var i :| 0 <= i < |parts| && c in Choices(parts[i], n);
      assert i > 0 ==> parts[1..][i - 1] == parts[i];
    }
    if i :| 0 <= i < |parts| - 1 && c in Choices(parts[1..][i], n) {
      assert parts[i + 1] == parts[1..][i];
    }
  }

  lemma {:induction false} InAllChoices(parts: seq<string>, bound: nat, c: Choice, n: Numerals)
    requires forall part <- parts :: |part| <= bound
    ensures c in AllChoices(parts, bound, n) <==> InSome(parts, c, n)
    decreases |parts|
  {
    if parts != [] {
      InAllChoices(parts[1..], bound, c, n);
      InFirst(parts, c, n);
    }
  }

  lemma InGroup(inner: string, c: Choice, n: Numerals)
    ensures c in GroupChoices(inner, n) <==> ListedFor(inner, c, n)
  {
    match Reported(inner, n)
    case None =>
    case Some(d) => InAllChoices(Texts(d), |inner|, c, n);
  }

  /** A choice is listed exactly when an outermost group is reported as it, or has it in one of its texts. */
  lemma {:induction false} ListedIff(text: string, c: Choice, n: Numerals)
    ensures c in Choices(text, n) <==> exists inner <- OuterGroups(text) :: ListedFor(inner, c, n)
    decreases |text|
  {
    if text == [] {
    } else if text[0] == '{' && Match(text[1..], 1).Some? {
      var inner, rest := MatchHeads(text);
      ChoicesHead(text, inner, rest, n);
      InGroup(inner, c, n);
      ListedIff(rest, c, n);
      assert OuterGroups(text) == [inner] + OuterGroups(rest);
    } else {
      ListedIff(text[1..], c, n);
    }
  }

  /** Groups are listed in the order of the text, and each before what is inside it. */
  lemma ListedInOrder(text: string, inner: string, rest: string, n: Numerals)
    requires text != [] && text[0] == '{' && Match(text[1..], 1) == Some(|inner|)
    requires |inner| < |text[1..]| && inner == text[1..][..|inner|] && rest == text[1..][|inner| + 1..]
    ensures Choices(text, n) == GroupChoices(inner, n) + Choices(rest, n)
    ensures Reported(inner, n).Some? ==>
              GroupChoices(inner, n) != [] && GroupChoices(inner, n)[0] == Reported(inner, n).value
  {
    ChoicesHead(text, inner, rest, n);
  }
}
