/** Sequence and multiset facts used throughout the model. */
module Seqs {

  /** `n` copies of `x` (Python's `[x] * n`, or `x * n` on strings). */
  function Repeat<T>(x: T, n: nat): (r: seq<T>)
    ensures |r| == n
    ensures forall i :: 0 <= i < n ==> r[i] == x
  {
    seq(n, i => x)
  }

  /** The set of elements of a sequence (Python's `set(...)`). */
  function Elems<T>(s: seq<T>): set<T>
  {
    set x | x in s
  }

  predicate NoDuplicates<T(==)>(s: seq<T>)
  {
    forall i, j :: 0 <= i < j < |s| ==> s[i] != s[j]
  }

  /** The first index of `x` in `s` (Python's `list.index`). */
  function IndexOf<T(==)>(s: seq<T>, x: T): (k: nat)
    requires x in s
    ensures k < |s| && s[k] == x && x !in s[..k]
  {
    if s[0] == x then 0 else 1 + IndexOf(s[1..], x)
  }

  /** `range(n)` for a possibly negative `n = length - have`: no steps when
      `have` already exceeds `length`. */
  function Remaining(length: nat, have: nat): nat
  {
    if have <= length then length - have else 0
  }

  lemma RepeatSnoc<T>(x: T, n: nat)
    ensures Repeat(x, n) + [x] == Repeat(x, n + 1)
  {
  }

  lemma AppendSnoc<T>(a: seq<T>, b: seq<T>, x: T)
    ensures (a + b) + [x] == a + (b + [x])
  {
  }

  /** A list without repeats has as many distinct elements as entries. */
  lemma {:induction false} NoDuplicatesCard<T>(s: seq<T>)
    requires NoDuplicates(s)
    ensures |Elems(s)| == |s|
  {
    if s != [] {
      var init := s[..|s| - 1];
      var x := s[|s| - 1];
      assert NoDuplicates(init);
      NoDuplicatesCard(init);
      assert s == init + [x];
      assert Elems(s) == Elems(init) + {x};
      assert x !in Elems(init);
    }
  }

  /** A prefix one longer is the shorter prefix and one more element. */
  lemma PrefixSnoc<T>(s: seq<T>, k: nat)
    requires k < |s|
    ensures s[..k + 1] == s[..k] + [s[k]]
  {
  }

  lemma RepeatMultiset<T>(x: T, n: nat, y: T)
    ensures multiset(Repeat(x, n))[y] == if y == x then n else 0
  {
    if n > 0 {
      assert Repeat(x, n) == Repeat(x, n - 1) + [x];
      RepeatMultiset(x, n - 1, y);
    }
  }

  /** Writing `v` at index `k` trades one occurrence of `s[k]` for one of `v`. */
  lemma MultisetUpdate<T>(s: seq<T>, k: nat, v: T)
    requires k < |s|
    ensures multiset(s[k := v]) == multiset(s) - multiset{s[k]} + multiset{v}
  {
    assert s == s[..k] + [s[k]] + s[k + 1..];
    assert s[k := v] == s[..k] + [v] + s[k + 1..];
  }

  lemma CountAtMostLength<T>(s: seq<T>, x: T)
    ensures multiset(s)[x] <= |s|
  {
    if s != [] {
      assert s == s[..|s| - 1] + [s[|s| - 1]];
      CountAtMostLength(s[..|s| - 1], x);
    }
  }

  /** A common part of two multisets can be taken out of their intersection. */
  lemma IntersectionShift<T>(x: multiset<T>, a: multiset<T>, b: multiset<T>)
    ensures (x + a) * (x + b) == x + a * b
  {
    forall y ensures ((x + a) * (x + b))[y] == (x + a * b)[y] {
    }
  }

  /** The intersection of two multisets is no larger than either. */
  lemma IntersectionAtMostLeft<T>(a: multiset<T>, b: multiset<T>)
    ensures |a * b| <= |a|
  {
    assert a == a * b + (a - b) by {
      forall y ensures a[y] == (a * b + (a - b))[y] {
      }
    }
  }
}
