/** The helper functions of functions.py. */
module Functions {
  import opened Wrappers
  import opened Seqs

  /** `is_odd`: the number leaves remainder one on division by two.
      Python's `%` floors and Dafny's is Euclidean; with divisor 2 they agree. */
  function IsOdd(n: int): (r: bool)
    ensures r ==> n == 2 * (n / 2) + 1
    ensures !r ==> n == 2 * (n / 2)
  {
    n % 2 != 0
  }

  /** A Python list whose entries may be `None`, updated in place. */
  class NoneList<T> {
    var items: seq<Option<T>>

    constructor (xs: seq<Option<T>>)
      ensures items == xs
    {
      items := xs;
    }
  }

  /** The entries of `s` that are not `None`, in their original order. */
  function WithoutNone<T>(s: seq<Option<T>>): (r: seq<Option<T>>)
    ensures None !in r
    ensures |r| <= |s|
  {
    if s == [] then []
    else if s[0] == None then WithoutNone(s[1..]) else [s[0]] + WithoutNone(s[1..])
  }

  /** Removal works piecewise, so the survivors keep their relative order. */
  lemma {:induction false} WithoutNoneAppend<T>(a: seq<Option<T>>, b: seq<Option<T>>)
    ensures WithoutNone(a + b) == WithoutNone(a) + WithoutNone(b)
  {
    if a == [] {
      assert a + b == b;
    } else {
      assert (a + b)[0] == a[0];
      assert (a + b)[1..] == a[1..] + b;
      WithoutNoneAppend(a[1..], b);
    }
  }

  /** A list with no `None` in it is left as it is. */
  lemma {:induction false} WithoutNoneIdentity<T>(s: seq<Option<T>>)
    requires None !in s
    ensures WithoutNone(s) == s
  {
    if s != [] {
      WithoutNoneIdentity(s[1..]);
    }
  }

  /** Every entry other than `None` survives, as often as it occurred. */
  lemma {:induction false} WithoutNoneMultiset<T>(s: seq<Option<T>>)
    ensures multiset(WithoutNone(s)) == multiset(s)[None := 0]
    ensures |WithoutNone(s)| == |s| - multiset(s)[None]
  {
    if s != [] {
      assert s == [s[0]] + s[1..];
      WithoutNoneMultiset(s[1..]);
    }
  }

  /** `remove_empty_elements`: delete the first `None` while there is one. */
  method RemoveEmptyElements<T(==)>(lst: NoneList<T>)
    modifies lst
    ensures lst.items == WithoutNone(old(lst.items))
  {
    while None in lst.items
      invariant WithoutNone(lst.items) == WithoutNone(old(lst.items))
      decreases |lst.items|
    {
      var k := IndexOf(lst.items, None);
      var s := lst.items;
      DropNone(s, k);
      lst.items := s[..k] + s[k + 1..];
    }
    WithoutNoneIdentity(lst.items);
  }

  lemma DropNone<T>(s: seq<Option<T>>, k: nat)
    requires k < |s| && s[k] == None
    ensures WithoutNone(s[..k] + s[k + 1..]) == WithoutNone(s)
  {
    var a, b := s[..k], s[k + 1..];
    var nb := [None] + b;
    assert s == a + nb;
    WithoutNoneAppend(a, nb);
    assert nb[0] == None && nb[1..] == b;
    assert WithoutNone(nb) == WithoutNone(b);
    WithoutNoneAppend(a, b);
  }

  /** Wrap every element (a list with no `None` in it). */
  function Somes<T>(s: seq<T>): (r: seq<Option<T>>)
    ensures |r| == |s| && None !in r
    ensures forall k :: 0 <= k < |s| ==> r[k] == Some(s[k])
  {
    seq(|s|, k requires 0 <= k < |s| => Some(s[k]))
  }

  /** Unwrap a list with no `None` in it. */
  function Values<T>(s: seq<Option<T>>): (r: seq<T>)
    requires None !in s
    ensures |r| == |s| && Somes(r) == s
  {
    var r := seq(|s|, k requires 0 <= k < |s| => s[k].value);
    assert forall k :: 0 <= k < |s| ==> s[k] == Some(r[k]);
    r
  }
}
