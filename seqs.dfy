/** Sequence predicates shared by the address set, the discovery filter and
    the registry. */
module Seqs {

  predicate NoDuplicates<T(==)>(s: seq<T>)
  {
    forall i, j :: 0 <= i < j < |s| ==> s[i] != s[j]
  }

  /** `xs` is obtained from `ys` by deleting elements, keeping the order of the rest. */
  predicate IsSubsequence<T(==)>(xs: seq<T>, ys: seq<T>)
    decreases |ys|
  {
    if xs == [] then true
    else if ys == [] then false
    else (xs[|xs| - 1] == ys[|ys| - 1] && IsSubsequence(xs[..|xs| - 1], ys[..|ys| - 1]))
         || IsSubsequence(xs, ys[..|ys| - 1])
  }

  lemma {:induction false} SubsequenceMembers<T>(xs: seq<T>, ys: seq<T>, x: T)
    requires IsSubsequence(xs, ys) && x in xs
    ensures x in ys
    decreases |ys|
  {
    var xi, yi := xs[..|xs| - 1], ys[..|ys| - 1];
    assert ys == yi + [ys[|ys| - 1]];
    if xs[|xs| - 1] == ys[|ys| - 1] && IsSubsequence(xi, yi) {
      assert xs == xi + [xs[|xs| - 1]];
      if x in xi {
        SubsequenceMembers(xi, yi, x);
      }
    } else {
      SubsequenceMembers(xs, yi, x);
    }
  }

  /** Deleting elements cannot create a repetition. */
  lemma {:induction false} SubsequenceNoDuplicates<T>(xs: seq<T>, ys: seq<T>)
    requires IsSubsequence(xs, ys) && NoDuplicates(ys)
    ensures NoDuplicates(xs)
    decreases |ys|
  {
    if xs != [] {
      var xi, yi := xs[..|xs| - 1], ys[..|ys| - 1];
      assert NoDuplicates(yi);
      if xs[|xs| - 1] == ys[|ys| - 1] && IsSubsequence(xi, yi) {
        SubsequenceNoDuplicates(xi, yi);
        var last := xs[|xs| - 1];
        if last in xi {
          SubsequenceMembers(xi, yi, last);
        }
        assert xs == xi + [last];
      } else {
        SubsequenceNoDuplicates(xs, yi);
      }
    }
  }
}
