/** Facts about slices and concatenations of sequences. */
module Sequences {
  lemma SliceOfSlice<T>(s: seq<T>, lo: nat, hi: nat, i: nat, j: nat)
    requires lo <= hi <= |s| && i <= j <= hi - lo
    ensures s[lo..hi][i..j] == s[lo + i..lo + j]
  {
    var t := s[lo..hi];
    forall k | 0 <= k < j - i ensures t[i..j][k] == s[lo + i..lo + j][k] {
      assert t[i..j][k] == t[i + k] == s[lo + i + k];
    }
  }

  lemma SliceOfTail<T>(s: seq<T>, lo: nat, i: nat, j: nat)
    requires lo <= |s| && i <= j <= |s| - lo
    ensures s[lo..][i..j] == s[lo + i..lo + j]
    ensures s[lo..][i..] == s[lo + i..]
  {
  }

  lemma Associative<T>(a: seq<T>, b: seq<T>, c: seq<T>)
    ensures a + (b + c) == a + b + c
  {
  }

  lemma FourInOrder<T>(a: seq<T>, b: seq<T>, c: seq<T>, d: seq<T>)
    ensures a + b + c + d == a + (b + (c + d))
  {
  }
}
