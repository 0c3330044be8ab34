/** Order-preserving subsequences, shared by the filters of the player search. */
module Sequences {

  /** `a` is `s` with some elements dropped and the rest kept in their order.
      Decided greedily from the back: matching the last element of `a`
      against the last element of `s` is always safe. */
  predicate SubsequenceOf<T(==)>(a: seq<T>, s: seq<T>)
    decreases |s|
  {
    if a == [] then true
    else if s == [] then false
    else if a[|a| - 1] == s[|s| - 1] then SubsequenceOf(a[..|a| - 1], s[..|s| - 1])
    else SubsequenceOf(a, s[..|s| - 1])
  }

  /** Keeping the last element or dropping it both extend a subsequence. */
  lemma SubsequenceExtend<T>(a: seq<T>, s: seq<T>, x: T)
    requires SubsequenceOf(a, s)
    ensures SubsequenceOf(a + [x], s + [x])
    ensures SubsequenceOf(a, s + [x])
  {
    assert (a + [x])[..|a|] == a;
    assert (s + [x])[..|s|] == s;
    SubsequenceAppend(a, s, x);
  }

  lemma {:induction false} SubsequenceAppend<T>(a: seq<T>, s: seq<T>, x: T)
    requires SubsequenceOf(a, s)
    ensures SubsequenceOf(a, s + [x])
    decreases |s|, 1
  {
    assert (s + [x])[..|s|] == s;
    if a != [] && a[|a| - 1] == x {
      SubsequenceDropLast(a, s);
    }
  }

  /** Dropping the last element of a subsequence keeps it a subsequence. */
  lemma {:induction false} SubsequenceDropLast<T>(a: seq<T>, s: seq<T>)
    requires a != [] && SubsequenceOf(a, s)
    ensures SubsequenceOf(a[..|a| - 1], s)
    decreases |s|, 0
  {
    var s' := s[..|s| - 1];
    assert s' + [s[|s| - 1]] == s;
    if a[|a| - 1] == s[|s| - 1] {
      SubsequenceAppend(a[..|a| - 1], s', s[|s| - 1]);
    } else {
      SubsequenceDropLast(a, s');
      SubsequenceAppend(a[..|a| - 1], s', s[|s| - 1]);
    }
  }
}
