/**
 The patterns in front of choices, as regular expressions say them: which texts match, and
 which part of them each group is.
 */
module ChoicePatterns {
  import opened ChoiceMarks
  import opened Results

  /** The pattern `\d*`. */
  predicate AllDigits(s: string, n: Numerals) {
    forall i | 0 <= i < |s| :: IsDigit(s[i], n)
  }

  lemma AsciiDigits(c: char, n: Numerals)
    requires c <= '\U{7F}'
    ensures IsDigit(c, n) <==> c in "0123456789"
  {
  }

  /** Digits are found as far as they go. */
  lemma {:induction false} DigitsEnd(front: string, rest: string, n: Numerals)
    requires AllDigits(front, n) && (rest == [] || !IsDigit(rest[0], n))
    ensures Digits(front + rest, n) == |front|
  {
    if front == [] {
      assert front + rest == rest;
    } else {
      assert (front + rest)[1..] == front[1..] + rest;
      DigitsEnd(front[1..], rest, n);
    }
  }

  lemma {:induction false} DigitsAre(s: string, n: Numerals)
    ensures AllDigits(s[..Digits(s, n)], n)
    ensures Digits(s, n) < |s| ==> !IsDigit(s[Digits(s, n)], n)
  {
    if s != [] && IsDigit(s[0], n) {
      DigitsAre(s[1..], n);
      var k := Digits(s[1..], n);
      assert s[..k + 1] == [s[0]] + s[1..][..k];
    }
  }

  // ----- Weights -----

  /** The pattern `\d*\.?\d+`. */
  ghost predicate IsNumber(s: string, n: Numerals) {
    || (s != [] && AllDigits(s, n))
    || exists whole, part :: s == whole + "." + part && AllDigits(whole, n) && AllDigits(part, n) && part != []
  }

  lemma PointEnds(whole: string, part: string, rest: string, n: Numerals)
    requires AllDigits(whole, n) && AllDigits(part, n) && part != [] && (rest == [] || rest[0] == ':')
    ensures DecimalEnd(whole + ("." + (part + rest)), n) == Some(|whole| + 1 + |part|)
  {
    var tail := "." + (part + rest);
    var s := whole + tail;
    DigitsEnd(whole, tail, n);
    assert s[|whole| + 1..] == part + rest;
    DigitsEnd(part, rest, n);
  }

  lemma NumberEnds(s: string, rest: string, n: Numerals)
    requires IsNumber(s, n) && (rest == [] || rest[0] == ':')
    ensures DecimalEnd(s + rest, n) == Some(|s|)
  {
    if s != [] && AllDigits(s, n) {
      DigitsEnd(s, rest, n);
    } else {
      var whole, part :| s == whole + "." + part && AllDigits(whole, n) && AllDigits(part, n) && part != [];
      assert s + rest == whole + ("." + (part + rest));
      PointEnds(whole, part, rest, n);
    }
  }

  lemma NumberFound(s: string, n: Numerals)
    requires DecimalEnd(s, n).Some?
    ensures IsNumber(s[..DecimalEnd(s, n).value], n)
  {
    var a, end := Digits(s, n), DecimalEnd(s, n).value;
    DigitsAre(s, n);
    if a < |s| && s[a] == '.' {
      var rest := s[a + 1..];
      DigitsAre(rest, n);
      var part := rest[..Digits(rest, n)];
      assert s[..end] == s[..a] + "." + part;
    }
  }

  /** A number, two colons and a text. */
  ghost predicate IsWeighted(part: string, number: string, text: string, n: Numerals) {
    IsNumber(number, n) && part == number + "::" + text
  }

  lemma WeightFound(part: string, n: Numerals)
    requires WeightOf(part, n).Some?
    ensures var number := part[..DecimalEnd(part, n).value];
            && IsWeighted(part, number, WeightOf(part, n).value.text, n)
            && n.decimal(number) == Some(WeightOf(part, n).value.weight)
  {
    var end := DecimalEnd(part, n).value;
    NumberFound(part, n);
    assert part == part[..end] + "::" + part[end + 2..];
  }

  lemma WeightRead(part: string, number: string, text: string, n: Numerals)
    requires IsWeighted(part, number, text, n)
    ensures WeightOf(part, n)
         == match n.decimal(number) { case None => None case Some(weight) => Some(Share(weight, text)) }
  {
    var rest := "::" + text;
    assert part == number + rest && rest[0] == ':' && rest[1] == ':' && rest[2..] == text;
    NumberEnds(number, rest, n);
    assert part[|number|] == rest[0] && part[|number| + 1] == rest[1];
    assert part[..|number|] == number && part[|number| + 2..] == text;
  }

  /** A part has a weight exactly when it is a number, two colons and a text, and the number can be read. */
  lemma WeightIff(part: string, n: Numerals, weight: real, text: string)
    ensures WeightOf(part, n) == Some(Share(weight, text))
       <==> exists number :: IsWeighted(part, number, text, n) && n.decimal(number) == Some(weight)
  {
    if WeightOf(part, n) == Some(Share(weight, text)) {
      WeightFound(part, n);
    }
    if number :| IsWeighted(part, number, text, n) && n.decimal(number) == Some(weight) {
      WeightRead(part, number, text, n);
    }
  }

  /** A weight counts as one if it is off by at most a millionth of a millionth. */
  lemma NotOneIff(parts: seq<string>, n: Numerals)
    ensures AnyNotOne(parts, n)
       <==> exists i | 0 <= i < |parts| ::
              && WeightOf(parts[i], n).Some?
              && var w := WeightOf(parts[i], n).value.weight; w < 1.0 - 0.000000000001 || 1.0 + 0.000000000001 < w
  {
    if AnyNotOne(parts, n) {
      var i :| 0 <= i < |parts| && WeightOf(parts[i], n).Some? && NotOne(WeightOf(parts[i], n).value.weight);
    }
  }

  // ----- Pick counts -----

  /** The pattern `(\d+)(?:-(\d+))?\$\$`, whose second group may be missing. */
  ghost predicate IsCount(s: string, least: string, most: Option<string>, n: Numerals) {
    && least != [] && AllDigits(least, n)
    && (most.Some? ==> most.value != [] && AllDigits(most.value, n))
    && s == least + (match most case None => [] case Some(m) => "-" + m) + "$$"
  }

  /** The pattern `[^$]*\$\$`, and what comes after it. */
  predicate HasSeparator(s: string, separator: string, more: string) {
    '$' !in separator && s == separator + "$$" + more
  }

  /** The pattern `(?:[^$]*\$\$)?(.*)`: the separator is taken if there is one. */
  ghost predicate IsTail(s: string, rest: string) {
    || (exists separator :: HasSeparator(s, separator, rest))
    || (rest == s && !exists separator, more :: HasSeparator(s, separator, more))
  }

  lemma {:induction false} DollarAt(separator: string, rest: string)
    requires '$' !in separator && (rest == [] || rest[0] == '$')
    ensures FirstDollar(separator + rest) == |separator|
  {
    if separator == [] {
      assert separator + rest == rest;
    } else {
      assert (separator + rest)[1..] == separator[1..] + rest;
      DollarAt(separator[1..], rest);
    }
  }

  lemma {:induction false} NoDollarBefore(s: string)
    ensures '$' !in s[..FirstDollar(s)] && (FirstDollar(s) < |s| ==> s[FirstDollar(s)] == '$')
  {
    if s != [] && s[0] != '$' {
      NoDollarBefore(s[1..]);
      var k := FirstDollar(s[1..]);
      assert s[..k + 1] == [s[0]] + s[1..][..k];
    }
  }

  lemma SeparatorTaken(s: string, separator: string, more: string)
    requires HasSeparator(s, separator, more)
    ensures SeparatorEnd(s, 0) == |separator| + 2 && s[|separator| + 2..] == more
  {
    var rest := "$$" + more;
    assert s == separator + rest && s[0..] == s;
    DollarAt(separator, rest);
    assert s[|separator|..] == rest && rest[0] == '$' && rest[1] == '$';
  }

  lemma TailIff(s: string, rest: string)
    ensures IsTail(s, rest) <==> rest == s[SeparatorEnd(s, 0)..]
  {
    var d := FirstDollar(s);
    assert s[0..] == s;
    NoDollarBefore(s);
    if TwoDollars(s[d..]) {
      assert HasSeparator(s, s[..d], s[d + 2..]);
    }
    if separator, more :| HasSeparator(s, separator, more) {
      SeparatorTaken(s, separator, more);
    }
    if separator :| HasSeparator(s, separator, rest) {
      SeparatorTaken(s, separator, rest);
    }
  }

  lemma SeparatorShifted(s: string, k: nat)
    requires k <= |s|
    ensures SeparatorEnd(s, k) == k + SeparatorEnd(s[k..], 0)
  {
    var tail := s[k..];
    assert tail[0..] == tail;
    assert tail[FirstDollar(tail)..] == s[k + FirstDollar(tail)..];
  }

  lemma RangeFound(inner: string, n: Numerals, k: nat, a: nat)
    requires DollarsAt(inner, n) == Some(k) && Digits(inner, n) == a && k != a
    ensures a + 1 < k && inner[a] == '-' && k == a + 1 + Digits(inner[a + 1..], n)
  {
  }

  lemma RangeDigits(inner: string, n: Numerals, k: nat, a: nat)
    requires a + 1 <= k <= |inner| && k == a + 1 + Digits(inner[a + 1..], n)
    ensures AllDigits(inner[a + 1..k], n)
  {
    var tail := inner[a + 1..];
    DigitsAre(tail, n);
    assert inner[a + 1..k] == tail[..k - a - 1];
  }

  lemma {:induction false} CountFound(inner: string, n: Numerals, k: nat) returns (least: string, most: Option<string>)
    requires DollarsAt(inner, n) == Some(k)
    ensures |least| == Digits(inner, n) <= k && k + 2 <= |inner| && (k != |least| ==> |least| + 1 < k)
    ensures IsCount(inner[..k + 2], least, most, n) && least == inner[..|least|]
    ensures most == if k == |least| then None else Some(inner[|least| + 1..k])
  {
    var a := Digits(inner, n);
    DigitsAre(inner, n);
    assert inner[k..][0] == inner[k] && inner[k..][1] == inner[k + 1];
    least := inner[..a];
    if k == a {
      most := None;
      assert inner[..k + 2] == least + [] + "$$";
    } else {
      RangeFound(inner, n, k, a);
      RangeDigits(inner, n, k, a);
      most := Some(inner[a + 1..k]);
      assert inner[..k + 2] == least + ("-" + inner[a + 1..k]) + "$$";
    }
  }

  lemma OneCountEnds(inner: string, least: string, tail: string, n: Numerals)
    requires least != [] && AllDigits(least, n) && inner == least + ("$$" + tail)
    ensures Digits(inner, n) == |least| && DollarsAt(inner, n) == Some(|least|)
  {
    var rest := "$$" + tail;
    assert rest[0] == '$' && rest[1] == '$';
    DigitsEnd(least, rest, n);
    assert inner[|least|..] == rest;
  }

  lemma DollarsAfterMinus(inner: string, n: Numerals, a: nat, b: nat)
    requires 0 < a == Digits(inner, n) && a + 3 + b <= |inner| && inner[a] == '-'
    requires 0 < b == Digits(inner[a + 1..], n) && inner[a + 1 + b] == '$' && inner[a + 2 + b] == '$'
    ensures DollarsAt(inner, n) == Some(a + 1 + b)
  {
  }

  lemma RangeEnds(inner: string, least: string, most: string, tail: string, n: Numerals)
    requires least != [] && AllDigits(least, n) && most != [] && AllDigits(most, n)
    requires inner == least + ("-" + (most + ("$$" + tail)))
    ensures DollarsAt(inner, n) == Some(|least| + 1 + |most|)
  {
    var last := "$$" + tail;
    var rest := "-" + (most + last);
    assert last[0] == '$' && last[1] == '$' && rest[0] == '-' && rest[1..] == most + last;
    DigitsEnd(least, rest, n);
    DigitsEnd(most, last, n);
    var a, b := |least|, |most|;
    assert inner[a] == rest[0] && inner[a + 1..] == rest[1..];
    assert inner[a + 1 + b] == (most + last)[b] && inner[a + 2 + b] == (most + last)[b + 1];
    DollarsAfterMinus(inner, n, a, b);
  }

  lemma CountEnds(inner: string, count: string, least: string, most: Option<string>, tail: string, n: Numerals)
    requires IsCount(count, least, most, n) && inner == count + tail
    ensures Digits(inner, n) == |least| && DollarsAt(inner, n) == Some(|count| - 2)
    ensures |count| - 2 == |least| + if most.Some? then 1 + |most.value| else 0
  {
    match most
    case None =>
      assert inner == least + ("$$" + tail);
      OneCountEnds(inner, least, tail, n);
    case Some(m) =>
      assert inner == least + ("-" + (m + ("$$" + tail)));
      var rest := "-" + (m + ("$$" + tail));
      assert rest[0] == '-';
      DigitsEnd(least, rest, n);
      RangeEnds(inner, least, m, tail, n);
  }

  lemma CountParts(inner: string, count: string, least: string, most: Option<string>, tail: string, n: Numerals)
    requires IsCount(count, least, most, n) && inner == count + tail
    ensures inner[..|least|] == least && inner[|count|..] == tail
    ensures most.Some? ==> inner[|least| + 1..|least| + 1 + |most.value|] == most.value
  {
  }

  /** A count or a range, and what is picked from. */
  ghost predicate IsPick(
      inner: string, count: string, least: string, most: Option<string>, tail: string, rest: string, n: Numerals)
  {
    inner == count + tail && IsCount(count, least, most, n) && IsTail(tail, rest)
  }

  /** A count that cannot be read is taken for zero, and an upper bound for the lower one. */
  function Bounds(least: string, most: Option<string>, n: Numerals): (nat, nat) {
    var lower := if n.whole(least).Some? then n.whole(least).value else 0;
    (lower, if most.Some? && n.whole(most.value).Some? then n.whole(most.value).value else lower)
  }

  /** The separator after a count ends where the tail says. */
  lemma RestOfTail(inner: string, k: nat)
    requires k <= |inner|
    ensures IsTail(inner[k..], inner[SeparatorEnd(inner, k)..])
  {
    var tail := inner[k..];
    SeparatorShifted(inner, k);
    assert tail[SeparatorEnd(tail, 0)..] == inner[SeparatorEnd(inner, k)..];
    TailIff(tail, inner[SeparatorEnd(inner, k)..]);
  }

  lemma TailOnce(tail: string, rest: string, other: string)
    requires IsTail(tail, rest) && IsTail(tail, other)
    ensures rest == other
  {
    TailIff(tail, rest);
    TailIff(tail, other);
  }

  /** All parts of a group with a pick count, and what they stand for. */
  ghost predicate IsPickOf(
      inner: string, count: string, least: string, most: Option<string>, tail: string, pick: Pick, n: Numerals)
  {
    IsPick(inner, count, least, most, tail, pick.rest, n) && Bounds(least, most, n) == (pick.least, pick.most)
  }

  ghost predicate Picks(inner: string, pick: Pick, n: Numerals) {
    exists count, least, most, tail :: IsPickOf(inner, count, least, most, tail, pick, n)
  }

  lemma SplitPick(inner: string, k: nat, least: string, most: Option<string>, pick: Pick, n: Numerals)
    requires k <= |inner| && IsCount(inner[..k], least, most, n) && IsTail(inner[k..], pick.rest)
    requires Bounds(least, most, n) == (pick.least, pick.most)
    ensures Picks(inner, pick, n)
  {
    assert inner == inner[..k] + inner[k..];
    assert IsPickOf(inner, inner[..k], least, most, inner[k..], pick, n);
  }

  lemma BoundsAt(inner: string, n: Numerals, k: nat, least: string, most: Option<string>)
    requires |least| <= k && k + 2 <= |inner| && (k != |least| ==> |least| + 1 < k)
    requires Digits(inner, n) == |least| && least == inner[..|least|]
    requires most == if k == |least| then None else Some(inner[|least| + 1..k])
    ensures Bounds(least, most, n) == (PickAt(inner, n, k).least, PickAt(inner, n, k).most)
  {
  }

  lemma PickFound(inner: string, n: Numerals, k: nat)
    requires DollarsAt(inner, n) == Some(k)
    ensures Picks(inner, PickAt(inner, n, k), n)
  {
    var least, most := CountFound(inner, n, k);
    BoundsAt(inner, n, k, least, most);
    RestOfTail(inner, k + 2);
    SplitPick(inner, k + 2, least, most, PickAt(inner, n, k), n);
  }

  lemma PickRead(inner: string, count: string, least: string, most: Option<string>, tail: string, rest: string,
                 n: Numerals)
    requires IsPick(inner, count, least, most, tail, rest, n)
    ensures PickOf(inner, n) == Some(Pick(Bounds(least, most, n).0, Bounds(least, most, n).1, rest))
  {
    CountEnds(inner, count, least, most, tail, n);
    CountParts(inner, count, least, most, tail, n);
    BoundsAt(inner, n, |count| - 2, least, most);
    RestOfTail(inner, |count|);
    TailOnce(tail, rest, inner[SeparatorEnd(inner, |count|)..]);
  }

  lemma PicksRead(inner: string, pick: Pick, n: Numerals)
    requires Picks(inner, pick, n)
    ensures PickOf(inner, n) == Some(pick)
  {
    var count, least, most, tail :| IsPickOf(inner, count, least, most, tail, pick, n);
    PickRead(inner, count, least, most, tail, pick.rest, n);
  }

  /**
   A group has a pick count exactly when it starts with one, or a range of them, and two
   dollar signs; what is picked from is what follows, without a separator if there is one.
   */
  lemma PickIff(inner: string, n: Numerals, pick: Pick)
    ensures PickOf(inner, n) == Some(pick) <==> Picks(inner, pick, n)
  {
    if PickOf(inner, n) == Some(pick) {
      PickFound(inner, n, DollarsAt(inner, n).value);
    }
    if Picks(inner, pick, n) {
      PicksRead(inner, pick, n);
    }
  }
}
