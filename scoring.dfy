/** What `Player.prepare_feedback` computes: the keys a guess earns against
    the secret pattern, and the facts about them the codebreaker relies on. */
module Scoring {
  import opened Seqs

  /** A peg colour: one character of the palette, such as 'r' or 'g'. */
  type Colour = char

  /** The `feedback_keys` dictionary: the key for a peg right in colour and
      position ('correct') and for one right in colour only ('partially_correct'). */
  datatype FeedbackKeys = FeedbackKeys(correct: char, partiallyCorrect: char)

  /** The keys the game passes: 'b' (black) and 'w' (white). */
  const StandardKeys := FeedbackKeys('b', 'w')

  /** The positions below `n` where guess and secret agree (`exact`) or
      differ (`!exact`), in increasing order. */
  function Positions(g: seq<Colour>, s: seq<Colour>, n: nat, exact: bool): (r: seq<nat>)
    requires |g| == |s| && n <= |g|
    ensures forall i :: 0 <= i < |r| ==> r[i] < n
  {
    if n == 0 then []
    else Positions(g, s, n - 1, exact) + (if (g[n - 1] == s[n - 1]) == exact then [n - 1] else [])
  }

  /** `Positions` lists exactly the positions of its kind, each once. */
  lemma {:induction false} PositionsMembers(g: seq<Colour>, s: seq<Colour>, n: nat, exact: bool)
    requires |g| == |s| && n <= |g|
    ensures forall k :: k in Positions(g, s, n, exact) <==> 0 <= k < n && (g[k] == s[k]) == exact
    ensures forall i, j :: 0 <= i < j < |Positions(g, s, n, exact)| ==>
      Positions(g, s, n, exact)[i] < Positions(g, s, n, exact)[j]
  {
    if n > 0 {
      PositionsMembers(g, s, n - 1, exact);
    }
  }

  /** The elements of `s` at the indices `ps`, in that order. */
  function Pick(s: seq<Colour>, ps: seq<nat>): (r: seq<Colour>)
    requires forall i :: 0 <= i < |ps| ==> ps[i] < |s|
    ensures |r| == |ps|
    ensures forall i :: 0 <= i < |ps| ==> r[i] == s[ps[i]]
  {
    seq(|ps|, i requires 0 <= i < |ps| => s[ps[i]])
  }

  /** The number of pegs right in colour and position. */
  function ExactCount(g: seq<Colour>, s: seq<Colour>): nat
    requires |g| == |s|
  {
    |Positions(g, s, |g|, true)|
  }

  /** The pegs of `g` left over after the exact matches, in order (what the
      first pass of `prepare_feedback` leaves once the `None` marks are gone). */
  function Unmatched(g: seq<Colour>, s: seq<Colour>): seq<Colour>
    requires |g| == |s|
  {
    Pick(g, Positions(g, s, |g|, false))
  }

  /** The number of leftover guess pegs that find a leftover secret peg of
      their colour, each secret peg used at most once. */
  function PartialCount(g: seq<Colour>, s: seq<Colour>): nat
    requires |g| == |s|
  {
    |multiset(Unmatched(g, s)) * multiset(Unmatched(s, g))|
  }

  /** The feedback list: every 'correct' key, then every 'partially correct' key. */
  function Score(g: seq<Colour>, s: seq<Colour>, keys: FeedbackKeys): seq<char>
    requires |g| == |s|
  {
    Repeat(keys.correct, ExactCount(g, s)) + Repeat(keys.partiallyCorrect, PartialCount(g, s))
  }

  lemma {:induction false} PositionsSymmetric(g: seq<Colour>, s: seq<Colour>, n: nat, exact: bool)
    requires |g| == |s| && n <= |g|
    ensures Positions(g, s, n, exact) == Positions(s, g, n, exact)
  {
    if n > 0 {
      PositionsSymmetric(g, s, n - 1, exact);
    }
  }

  /** The exact and the inexact positions partition the first `n` positions,
      and so do the colours at them. */
  lemma {:induction false} PositionsCount(g: seq<Colour>, s: seq<Colour>, n: nat)
    requires |g| == |s| && n <= |g|
    ensures |Positions(g, s, n, true)| + |Positions(g, s, n, false)| == n
  {
    if n > 0 {
      PositionsCount(g, s, n - 1);
    }
  }

  lemma {:induction false} PositionsSplit(g: seq<Colour>, s: seq<Colour>, n: nat)
    requires |g| == |s| && n <= |g|
    ensures multiset(g[..n]) ==
      multiset(Pick(g, Positions(g, s, n, true))) + multiset(Pick(g, Positions(g, s, n, false)))
  {
    if n == 0 {
      assert Pick(g, Positions(g, s, 0, true)) == [];
      assert Pick(g, Positions(g, s, 0, false)) == [];
    } else {
      PositionsSplit(g, s, n - 1);
      var t, f := Positions(g, s, n - 1, true), Positions(g, s, n - 1, false);
      var x := g[n - 1];
      assert g[..n] == g[..n - 1] + [x];
      if x == s[n - 1] {
        assert Positions(g, s, n, true) == t + [n - 1];
        assert Positions(g, s, n, false) == f;
        PickSnoc(g, t, n - 1);
        SplitStep(g[..n], g[..n - 1], x, Pick(g, t), Pick(g, f), Pick(g, t + [n - 1]), Pick(g, f));
      } else {
        assert Positions(g, s, n, true) == t;
        assert Positions(g, s, n, false) == f + [n - 1];
        PickSnoc(g, f, n - 1);
        SplitStep(g[..n], g[..n - 1], x, Pick(g, t), Pick(g, f), Pick(g, t), Pick(g, f + [n - 1]));
      }
    }
  }

  lemma SplitStep(whole: seq<Colour>, init: seq<Colour>, x: Colour,
                  pt: seq<Colour>, pf: seq<Colour>, mt: seq<Colour>, mf: seq<Colour>)
    requires whole == init + [x]
    requires multiset(init) == multiset(pt) + multiset(pf)
    requires (mt == pt + [x] && mf == pf) || (mt == pt && mf == pf + [x])
    ensures multiset(whole) == multiset(mt) + multiset(mf)
  {
  }

  lemma PickSnoc(g: seq<Colour>, ps: seq<nat>, k: nat)
    requires forall i :: 0 <= i < |ps| ==> ps[i] < |g|
    requires k < |g|
    ensures Pick(g, ps + [k]) == Pick(g, ps) + [g[k]]
  {
  }

  /** The pegs both patterns share at exact positions are the same pegs. */
  lemma MatchedAgree(g: seq<Colour>, s: seq<Colour>)
    requires |g| == |s|
    ensures Pick(g, Positions(g, s, |g|, true)) == Pick(s, Positions(s, g, |s|, true))
  {
    PositionsSymmetric(g, s, |g|, true);
    var t := Positions(g, s, |g|, true);
    PositionsMembers(g, s, |g|, true);
    forall i | 0 <= i < |t| ensures g[t[i]] == s[t[i]] {
      assert t[i] in t;
    }
  }

  /** The colours of a pattern are its exact-match colours plus its leftovers. */
  lemma SplitColours(g: seq<Colour>, s: seq<Colour>)
    requires |g| == |s|
    ensures multiset(g) == multiset(Pick(g, Positions(g, s, |g|, true))) + multiset(Unmatched(g, s))
    ensures multiset(s) == multiset(Pick(g, Positions(g, s, |g|, true))) + multiset(Unmatched(s, g))
    ensures |Unmatched(g, s)| == |g| - ExactCount(g, s)
    ensures |Unmatched(s, g)| == |s| - ExactCount(g, s)
  {
    PositionsCount(g, s, |g|);
    PositionsSplit(g, s, |g|);
    PositionsCount(s, g, |s|);
    PositionsSplit(s, g, |s|);
    assert g[..|g|] == g && s[..|s|] == s;
    MatchedAgree(g, s);
    PositionsSymmetric(g, s, |g|, true);
  }

  /** The number of keys is, summed over the colours, the smaller of that
      colour's counts in guess and secret. */
  lemma KeysTotal(g: seq<Colour>, s: seq<Colour>, keys: FeedbackKeys)
    requires |g| == |s|
    ensures |Score(g, s, keys)| == |multiset(g) * multiset(s)|
  {
    SplitColours(g, s);
    var x := multiset(Pick(g, Positions(g, s, |g|, true)));
    IntersectionShift(x, multiset(Unmatched(g, s)), multiset(Unmatched(s, g)));
  }

  /** There are never more keys than pegs. */
  lemma KeysAtMostLength(g: seq<Colour>, s: seq<Colour>, keys: FeedbackKeys)
    requires |g| == |s|
    ensures |Score(g, s, keys)| <= |g|
  {
    KeysTotal(g, s, keys);
    IntersectionAtMostLeft(multiset(g), multiset(s));
  }

  /** Against a single-colour guess, the number of keys is the number of
      secret pegs of that colour. */
  lemma MonochromeKeys(c: Colour, s: seq<Colour>, keys: FeedbackKeys)
    ensures |Score(Repeat(c, |s|), s, keys)| == multiset(s)[c]
  {
    var g := Repeat(c, |s|);
    KeysTotal(g, s, keys);
    CountAtMostLength(s, c);
    var k := multiset(s)[c];
    assert multiset(g) * multiset(s) == multiset(Repeat(c, k)) by {
      forall y ensures (multiset(g) * multiset(s))[y] == multiset(Repeat(c, k))[y] {
        RepeatMultiset(c, |s|, y);
        RepeatMultiset(c, k, y);
      }
    }
  }

  /** The secret itself scores one 'correct' key per peg. */
  lemma PerfectGuessKeys(s: seq<Colour>, keys: FeedbackKeys)
    ensures Score(s, s, keys) == Repeat(keys.correct, |s|)
  {
    SplitColours(s, s);
    NoInexactPositionsInItself(s, |s|);
  }

  lemma {:induction false} NoInexactPositionsInItself(s: seq<Colour>, n: nat)
    requires n <= |s|
    ensures Positions(s, s, n, false) == []
  {
    if n > 0 {
      NoInexactPositionsInItself(s, n - 1);
    }
  }

  /** Only the secret itself matches it in every position. */
  lemma AllExactIsEqual(g: seq<Colour>, s: seq<Colour>)
    requires |g| == |s|
    ensures ExactCount(g, s) == |g| <==> g == s
  {
    PositionsCount(g, s, |g|);
    var f := Positions(g, s, |g|, false);
    PositionsMembers(g, s, |g|, false);
    if g == s {
      NoInexactPositionsInItself(s, |s|);
    }
    if ExactCount(g, s) == |g| {
      assert f == [];
      forall k | 0 <= k < |g| ensures g[k] == s[k] {
        assert k !in f;
      }
      assert g == s;
    }
  }

  /** When the secret uses the guess's colours, every leftover guess peg finds
      a partner: the keys number exactly the pegs. */
  lemma RearrangementKeys(g: seq<Colour>, s: seq<Colour>)
    requires |g| == |s| && multiset(g) == multiset(s)
    ensures multiset(Unmatched(g, s)) == multiset(Unmatched(s, g))
    ensures PartialCount(g, s) == |g| - ExactCount(g, s)
  {
    SplitColours(g, s);
    var x := multiset(Pick(g, Positions(g, s, |g|, true)));
    var a, b := multiset(Unmatched(g, s)), multiset(Unmatched(s, g));
    assert a == b by {
      forall y ensures a[y] == b[y] {
        assert (x + a)[y] == (x + b)[y];
      }
    }
    assert a * a == a;
  }

  /** With two distinct keys, the 'correct' keys come first, one for each
      position where guess and secret hold the same colour. */
  lemma ExactKeys(g: seq<Colour>, s: seq<Colour>, keys: FeedbackKeys)
    requires |g| == |s| && keys.correct != keys.partiallyCorrect
    ensures ExactCount(g, s) == |set i: nat | i < |g| && g[i] == s[i]|
    ensures forall m :: 0 <= m < |Score(g, s, keys)| ==>
      (Score(g, s, keys)[m] == keys.correct <==> m < ExactCount(g, s))
  {
    var t := Positions(g, s, |g|, true);
    PositionsMembers(g, s, |g|, true);
    assert Elems(t) == set i: nat | i < |g| && g[i] == s[i];
    NoDuplicatesCard(t);
  }
}
