/**
 What may stand in front of a choice: a pick count before the first bar, as in
 `{2-3$$ and $$a|b|c}`, or a weight before a part, as in `{3::a|b}`.
 */
module ChoiceMarks {
  import opened Results

  /** Which characters beyond ASCII are digits, and the numbers that digits stand for. */
  datatype Numerals = Numerals(digit: char -> bool, whole: string -> Option<nat>, decimal: string -> Option<real>)

  predicate IsDigit(c: char, n: Numerals) {
    '0' <= c <= '9' || (c > '\U{7F}' && n.digit(c))
  }

  /** How many digits a text starts with. */
  function Digits(s: string, n: Numerals): (k: nat)
    ensures k <= |s|
  {
    if s != [] && IsDigit(s[0], n) then 1 + Digits(s[1..], n) else 0
  }

  // ----- Pick counts -----

  /** How many are picked, at least and at most, and the text they are picked from. */
  datatype Pick = Pick(least: nat, most: nat, rest: string)

  predicate TwoDollars(s: string) {
    |s| >= 2 && s[0] == '$' && s[1] == '$'
  }

  function FirstDollar(s: string): (k: nat)
    ensures k <= |s|
  {
    if s == [] || s[0] == '$' then 0 else 1 + FirstDollar(s[1..])
  }

  /** The end of the separator that may come next: text without dollar signs, and two of them. */
  function SeparatorEnd(s: string, k: nat): (end: nat)
    requires k <= |s|
    ensures k <= end <= |s|
  {
    var d := k + FirstDollar(s[k..]);
    if TwoDollars(s[d..]) then d + 2 else k
  }

  function NumberOr(s: string, n: Numerals, otherwise: nat): nat {
    match n.whole(s) case None => otherwise case Some(v) => v
  }

  /** Where the two dollar signs after a count or a range stand. */
  function DollarsAt(inner: string, n: Numerals): (r: Option<nat>)
    ensures r.Some? ==> 0 < Digits(inner, n) <= r.value && r.value + 2 <= |inner| && TwoDollars(inner[r.value..])
    ensures r.Some? && r.value > Digits(inner, n) ==> Digits(inner, n) + 1 < r.value
  {
    var a := Digits(inner, n);
    if a == 0 then None
    else if TwoDollars(inner[a..]) then Some(a)
    else if a < |inner| && inner[a] == '-' then
      var b := a + 1 + Digits(inner[a + 1..], n);
      if b > a + 1 && TwoDollars(inner[b..]) then Some(b) else None
    else None
  }

  /** The counts and the rest, when the two dollar signs after the counts stand at `k`. */
  function PickAt(inner: string, n: Numerals, k: nat): (pick: Pick)
    requires Digits(inner, n) <= k && k + 2 <= |inner| && (k != Digits(inner, n) ==> Digits(inner, n) + 1 < k)
    ensures |pick.rest| + k + 2 <= |inner|
  {
    var a := Digits(inner, n);
    var least := NumberOr(inner[..a], n, 0);
    var most := if k == a then least else NumberOr(inner[a + 1..k], n, least);
    Pick(least, most, inner[SeparatorEnd(inner, k + 2)..])
  }

  /** The pattern `^(\d+)(?:-(\d+))?\$\$(?:[^$]*\$\$)?(.*)`. */
  function PickOf(inner: string, n: Numerals): (r: Option<Pick>)
    ensures r.Some? ==> |r.value.rest| + 3 <= |inner|
  {
    match DollarsAt(inner, n)
    case None => None
    case Some(k) => Some(PickAt(inner, n, k))
  }

  /** There is no pick count without a dollar sign. */
  lemma PickHasDollar(inner: string, n: Numerals)
    requires PickOf(inner, n).Some?
    ensures '$' in inner && IsDigit(inner[0], n)
  {
    var k := DollarsAt(inner, n).value;
    assert inner[k..][0] == inner[k];
  }

  /** What is picked from is the end of the group. */
  lemma PickRest(inner: string, n: Numerals) returns (front: string)
    requires PickOf(inner, n).Some?
    ensures inner == front + PickOf(inner, n).value.rest
  {
    front := inner[..SeparatorEnd(inner, DollarsAt(inner, n).value + 2)];
  }

  // ----- Weights -----

  /** A part of a choice with its weight. */
  datatype Share = Share(weight: real, text: string)

  /** Where the number at the start of a text ends: digits, perhaps with a point among them. */
  function DecimalEnd(s: string, n: Numerals): (r: Option<nat>)
    ensures r.Some? ==> 0 < r.value <= |s|
  {
    var a := Digits(s, n);
    if a < |s| && s[a] == '.' then
      var b := Digits(s[a + 1..], n);
      if b > 0 then Some(a + 1 + b) else None
    else if a > 0 then Some(a)
    else None
  }

  /** The pattern `^(\d*\.?\d+)::`, if its number can be read. */
  function WeightOf(part: string, n: Numerals): (r: Option<Share>)
    ensures r.Some? ==> |r.value.text| + 3 <= |part|
  {
    var end := DecimalEnd(part, n);
    if end.Some? && |part| >= end.value + 2 && part[end.value] == ':' && part[end.value + 1] == ':' then
      match n.decimal(part[..end.value])
      case None => None
      case Some(weight) => Some(Share(weight, part[end.value + 2..]))
    else None
  }

  /** The part is what the weight is in front of, after the weight. */
  lemma WeightText(part: string, n: Numerals) returns (front: string)
    requires WeightOf(part, n).Some?
    ensures part == front + WeightOf(part, n).value.text
  {
    front := part[..DecimalEnd(part, n).value + 2];
  }

  predicate AllWeighted(parts: seq<string>, n: Numerals) {
    forall i | 0 <= i < |parts| :: WeightOf(parts[i], n).Some?
  }

  /** Some weight is not one, but for rounding. */
  predicate AnyNotOne(parts: seq<string>, n: Numerals) {
    exists i | 0 <= i < |parts| :: WeightOf(parts[i], n).Some? && NotOne(WeightOf(parts[i], n).value.weight)
  }

  predicate NotOne(weight: real) {
    var off := weight - 1.0;
    off > 0.000000000001 || off < -0.000000000001
  }

  function Shares(parts: seq<string>, n: Numerals): (shares: seq<Share>)
    requires AllWeighted(parts, n)
    ensures |shares| == |parts|
    ensures forall i | 0 <= i < |parts| :: shares[i] == WeightOf(parts[i], n).value
  {
    seq(|parts|, i requires 0 <= i < |parts| => WeightOf(parts[i], n).value)
  }
}
