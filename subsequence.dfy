/**
 * Subsequences: one sequence obtained from another by leaving elements out
 * without reordering the rest. The archive selection and the compress loop
 * both keep their input order in this sense.
 */
module Subsequences {

  /** `a` is `b` with some elements left out, in the same order. */
  predicate IsSubsequence<T(==)>(a: seq<T>, b: seq<T>)
    decreases |b|
  {
    if a == [] then true
    else if b == [] then false
    else if a[|a| - 1] == b[|b| - 1] then IsSubsequence(a[..|a| - 1], b[..|b| - 1])
    else IsSubsequence(a, b[..|b| - 1])
  }

  /** Dropping the last element of a subsequence leaves a subsequence. */
  lemma {:induction false} SubsequenceDropLast<T>(a: seq<T>, b: seq<T>)
    requires a != [] && IsSubsequence(a, b)
    ensures IsSubsequence(a[..|a| - 1], b)
    decreases |b|
  {
    var a' := a[..|a| - 1];
    if a' != [] {
      if a[|a| - 1] == b[|b| - 1] {
        SubsequenceDropLast(a', b[..|b| - 1]);
        SubsequenceExtend(a'[..|a'| - 1], b[..|b| - 1], b[|b| - 1]);
        SubsequenceSkipLast(a', b);
      } else {
        SubsequenceDropLast(a, b[..|b| - 1]);
        SubsequenceSkipLast(a', b);
      }
    }
  }

  /** A subsequence of `b` minus its last element is one of `b`. */
  lemma SubsequenceSkipLast<T>(a: seq<T>, b: seq<T>)
    requires b != [] && IsSubsequence(a, b[..|b| - 1])
    ensures IsSubsequence(a, b)
    decreases |b|, 0
  {
    if a != [] && a[|a| - 1] == b[|b| - 1] {
      SubsequenceDropLast(a, b[..|b| - 1]);
    }
  }

  /** Appending the same element to both keeps the relation. */
  lemma SubsequenceExtend<T>(a: seq<T>, b: seq<T>, x: T)
    requires IsSubsequence(a, b)
    ensures IsSubsequence(a + [x], b + [x])
  {
    assert (a + [x])[..|a|] == a && (b + [x])[..|b|] == b;
  }

  /** Every prefix of a subsequence is a subsequence. */
  lemma {:induction false} SubsequencePrefix<T>(a: seq<T>, b: seq<T>, n: nat)
    requires n <= |a| && IsSubsequence(a, b)
    ensures IsSubsequence(a[..n], b)
    decreases |a| - n
  {
    if n == |a| {
      assert a[..n] == a;
    } else {
      SubsequenceDropLast(a, b);
      SubsequencePrefix(a[..|a| - 1], b, n);
      assert a[..|a| - 1][..n] == a[..n];
    }
  }

  /** The elements of a subsequence are elements of the whole. */
  lemma {:induction false} SubsequenceMembers<T>(a: seq<T>, b: seq<T>, x: T)
    requires IsSubsequence(a, b) && x in a
    ensures x in b
    decreases |b|
  {
    if a[|a| - 1] == b[|b| - 1] {
      if x != a[|a| - 1] {
        SubsequenceMembers(a[..|a| - 1], b[..|b| - 1], x);
      }
    } else {
      SubsequenceMembers(a, b[..|b| - 1], x);
    }
  }

  /** Putting the same element in front of both keeps the relation. */
  lemma {:induction false} SubsequenceCons<T>(x: T, a: seq<T>, b: seq<T>)
    requires IsSubsequence(a, b)
    ensures IsSubsequence([x] + a, [x] + b)
    decreases |b|
  {
    var xa, xb := [x] + a, [x] + b;
    if b == [] {
      assert a == [] && xa == [x] && xb == [x];
      assert xa[..0] == [];
    } else {
      var b' := b[..|b| - 1];
      assert xb[..|xb| - 1] == [x] + b' && xb[|xb| - 1] == b[|b| - 1];
      if a != [] && a[|a| - 1] == b[|b| - 1] {
        var a' := a[..|a| - 1];
        SubsequenceCons(x, a', b');
        assert xa[..|xa| - 1] == [x] + a' && xa[|xa| - 1] == a[|a| - 1];
      } else {
        SubsequenceCons(x, a, b');
        SubsequenceSkipLast(xa, xb);
      }
    }
  }

  /** A subsequence of `b` is one of `b` with any element put in front. */
  lemma {:induction false} SubsequenceSkipFront<T>(x: T, a: seq<T>, b: seq<T>)
    requires IsSubsequence(a, b)
    ensures IsSubsequence(a, [x] + b)
    decreases |b|
  {
    var xb := [x] + b;
    if a != [] {
      var b' := b[..|b| - 1];
      assert xb[..|xb| - 1] == [x] + b' && xb[|xb| - 1] == b[|b| - 1];
      if a[|a| - 1] == b[|b| - 1] {
        SubsequenceSkipFront(x, a[..|a| - 1], b');
      } else {
        SubsequenceSkipFront(x, a, b');
        SubsequenceSkipLast(a, xb);
      }
    }
  }
}
