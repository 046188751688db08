/**
 * Sums of real values indexed by a sequence of integers, used for the
 * shared total that the threads add to in whatever order they finish.
 */
module Sums {

  /** c(s[0]) + c(s[1]) + ... + c(s[|s|-1]), added from left to right. */
  function Sum(c: int -> real, s: seq<int>): real
  {
    if s == [] then 0.0 else Sum(c, s[..|s| - 1]) + c(s[|s| - 1])
  }

  /** Summing one more element at the end. */
  lemma SumSnoc(c: int -> real, s: seq<int>, x: int)
    ensures Sum(c, s + [x]) == Sum(c, s) + c(x)
  {
    assert (s + [x])[..|s|] == s;
  }

  /** A sum over a concatenation splits into the two sums. */
  lemma {:induction false} SumConcat(c: int -> real, s: seq<int>, t: seq<int>)
    ensures Sum(c, s + t) == Sum(c, s) + Sum(c, t)
    decreases |t|
  {
    if t == [] {
      assert s + t == s;
    } else {
      var t', x := t[..|t| - 1], t[|t| - 1];
      assert t == t' + [x];
      assert s + t == (s + t') + [x];
      SumConcat(c, s, t');
      SumSnoc(c, s + t', x);
      SumSnoc(c, t', x);
    }
  }

  /** Removing the element at position j leaves the rest of the multiset. */
  lemma MultisetRemove(t: seq<int>, j: int)
    requires 0 <= j < |t|
    ensures t == t[..j] + [t[j]] + t[j + 1..]
    ensures multiset(t[..j] + t[j + 1..]) == multiset(t) - multiset{t[j]}
  {
    assert t == t[..j] + [t[j]] + t[j + 1..];
    assert multiset(t) == multiset(t[..j]) + multiset{t[j]} + multiset(t[j + 1..]);
    assert multiset(t[..j] + t[j + 1..]) == multiset(t[..j]) + multiset(t[j + 1..]);
  }

  /** A sum does not depend on the order of its terms: sequences holding the
      same elements, each as often, have the same sum. */
  lemma {:induction false} SumPermutation(c: int -> real, s: seq<int>, t: seq<int>)
    requires multiset(s) == multiset(t)
    ensures Sum(c, s) == Sum(c, t)
    decreases |s|
  {
    if s == [] {
      assert |t| == |multiset(t)| == 0;
    } else {
      var s', x := s[..|s| - 1], s[|s| - 1];
      assert s == s' + [x];
      assert multiset(s) == multiset(s') + multiset{x};
      assert x in multiset(t);
      var j :| 0 <= j < |t| && t[j] == x;
      MultisetRemove(t, j);
      var t1, t2 := t[..j], t[j + 1..];
      assert multiset(s') == multiset(t1 + t2);
      SumPermutation(c, s', t1 + t2);
      SumConcat(c, t1, t2);
      SumConcat(c, t1 + [x], t2);
      SumSnoc(c, t1, x);
    }
  }
}
