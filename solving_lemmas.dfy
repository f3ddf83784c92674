/** What `generate_solutions` guarantees: every candidate is a rearrangement
    of the guess that fills every slot, and the secret that produced the
    feedback is always among the candidates. */
module SolvingLemmas {
  import opened Wrappers
  import opened Seqs
  import opened Scoring
  import opened SolvingAlgorithm

  /** Merging a one-slot hypothesis fills that slot when it is still empty,
      and merges nothing otherwise. */
  lemma MergePlaced(c: Colour, j: nat, s: Solution)
    requires j < |s|
    ensures s[j] == Empty ==> Merge(Placed(c, j, |s|), s) == Some(s[j := Peg(c)])
    ensures s[j] != Empty ==> Merge(Placed(c, j, |s|), s).None?
  {
    var h := Placed(c, j, |s|);
    if s[j] == Empty {
      assert h[j].Peg? && s[j] == Empty;
    }
  }

  /** Every merged solution has one empty slot fewer than the cumulative
      solution it came from. */
  lemma MergeAllHoles(news: set<Solution>, cumulative: set<Solution>, holes: int)
    requires forall h, s :: h in news && s in cumulative ==> |h| <= |s|
    requires forall s :: s in cumulative ==> multiset(s)[Empty] == holes
    ensures forall p :: p in MergeAll(news, cumulative) ==> multiset(p)[Empty] + 1 == holes
  {
    MergeAllMembers(news, cumulative);
    forall p | p in MergeAll(news, cumulative)
      ensures multiset(p)[Empty] + 1 == holes
    {
      var h: Solution, s: Solution, k: int :| h in news && s in cumulative &&
        0 <= k < |h| && h[k].Peg? && s[k] == Empty && p == s[k := h[k]];
      MultisetUpdate(s, k, h[k]);
    }
  }

  /** Each feedback key fills exactly one slot: after `|keys|` keys every
      solution has `|g| - |keys|` empty slots (so none survive more keys
      than pegs). */
  lemma {:induction false} FoldHoles(g: seq<Colour>, keys: seq<char>)
    requires Fold(g, keys).Success?
    ensures forall p :: p in Fold(g, keys).value ==> multiset(p)[Empty] + |keys| == |g|
  {
    if keys == [] {
      RepeatMultiset(Empty, |g|, Empty);
    } else {
      var init := keys[..|keys| - 1];
      FoldHoles(g, init);
      var hyps := Hypotheses(g, keys[|keys| - 1]).value;
      MergeAllHoles(hyps, Fold(g, init).value, |g| - |init|);
    }
  }

  /** A pattern and its lifted solution hold the same colours, and the lifted
      solution has no empty slot. */
  lemma {:induction false} LiftMultiset(code: seq<Colour>)
    ensures multiset(Lift(code))[Empty] == 0
    ensures forall c :: multiset(Lift(code))[Peg(c)] == multiset(code)[c]
  {
    if code != [] {
      var init := code[..|code| - 1];
      LiftMultiset(init);
      assert code == init + [code[|code| - 1]];
      assert Lift(code) == Lift(init) + [Peg(code[|code| - 1])];
    }
  }

  /** Patterns with the same colours lift to solutions with the same slots. */
  lemma SameColoursLift(a: seq<Colour>, b: seq<Colour>)
    requires multiset(a) == multiset(b)
    ensures multiset(Lift(a)) == multiset(Lift(b))
  {
    LiftMultiset(a);
    LiftMultiset(b);
    forall x ensures multiset(Lift(a))[x] == multiset(Lift(b))[x] {
      if x.Peg? {
        assert multiset(Lift(a))[Peg(x.colour)] == multiset(a)[x.colour];
      }
    }
  }

  /** A solution with the colours of a pattern fills every slot and spells
      a rearrangement of that pattern. */
  lemma SameColoursCode(p: Solution, g: seq<Colour>)
    requires SameColours(p, g)
    ensures |p| == |g| && Complete(p) && multiset(Code(p)) == multiset(g)
  {
    LiftMultiset(g);
    assert |multiset(p)| == |multiset(Lift(g))|;
    assert multiset(p)[Empty] == 0;
    var code := Code(p);
    LiftMultiset(code);
    forall c ensures multiset(code)[c] == multiset(g)[c] {
      assert multiset(Lift(code))[Peg(c)] == multiset(Lift(g))[Peg(c)];
    }
  }

  /** Every candidate fills every slot, spells a rearrangement of the guess,
      and there are candidates only when there are as many keys as pegs. */
  lemma CandidatesAreRearrangements(g: seq<Colour>, keys: seq<char>)
    requires Candidates(g, keys).Success?
    ensures forall p :: p in Candidates(g, keys).value ==>
      |p| == |g| && Complete(p) && multiset(Code(p)) == multiset(g)
    ensures Candidates(g, keys).value != {} ==> |keys| == |g|
  {
    FoldHoles(g, keys);
    forall p | p in Candidates(g, keys).value
      ensures |p| == |g| && Complete(p) && multiset(Code(p)) == multiset(g)
    {
      SameColoursCode(p, g);
    }
    if Candidates(g, keys).value != {} {
      var p :| p in Candidates(g, keys).value;
      SameColoursCode(p, g);
      assert multiset(p)[Empty] == 0;
    }
  }

  /** The blank solution of `|s|` slots with the secret's colour revealed at
      each index of `idx`, in that order. */
  function Reveal(s: seq<Colour>, idx: seq<nat>): (r: Solution)
    requires forall i :: 0 <= i < |idx| ==> idx[i] < |s|
    ensures |r| == |s|
  {
    if idx == [] then Blank(|s|)
    else Reveal(s, idx[..|idx| - 1])[idx[|idx| - 1] := Peg(s[idx[|idx| - 1]])]
  }

  lemma {:induction false} RevealAt(s: seq<Colour>, idx: seq<nat>)
    requires forall i :: 0 <= i < |idx| ==> idx[i] < |s|
    ensures forall k :: 0 <= k < |s| ==> Reveal(s, idx)[k] == if k in idx then Peg(s[k]) else Empty
  {
    if idx != [] {
      var init := idx[..|idx| - 1];
      RevealAt(s, init);
      assert idx == init + [idx[|idx| - 1]];
    }
  }

  /** The order in which the feedback keys reveal the secret: first the exact
      positions (the 'b' keys), then the others (the 'w' keys). */
  function Order(g: seq<Colour>, s: seq<Colour>): (r: seq<nat>)
    requires |g| == |s|
    ensures |r| == |g|
    ensures forall i :: 0 <= i < |r| ==> r[i] < |s|
  {
    PositionsCount(g, s, |g|);
    Positions(g, s, |g|, true) + Positions(g, s, |g|, false)
  }

  /** `Order` visits every position exactly once. */
  lemma OrderFacts(g: seq<Colour>, s: seq<Colour>)
    requires |g| == |s|
    ensures |Order(g, s)| == |g|
    ensures forall k :: k in Order(g, s) <==> 0 <= k < |g|
    ensures NoDuplicates(Order(g, s))
  {
    var t, f := Positions(g, s, |g|, true), Positions(g, s, |g|, false);
    PositionsCount(g, s, |g|);
    PositionsMembers(g, s, |g|, true);
    PositionsMembers(g, s, |g|, false);
    var o := Order(g, s);
    forall i, j | 0 <= i < j < |o| ensures o[i] != o[j] {
      if j < |t| {
      } else if i >= |t| {
        assert o[i] == f[i - |t|] && o[j] == f[j - |t|];
      } else {
        assert o[i] in t && o[j] in f;
      }
    }
  }

  /** Against a secret with the guess's colours, the `m`-th key is 'b' for the
      exact positions and 'w' for the rest, one key per peg. */
  lemma ScoreShape(g: seq<Colour>, s: seq<Colour>)
    requires |g| == |s| && multiset(g) == multiset(s)
    ensures |Score(g, s, StandardKeys)| == |g|
    ensures forall m :: 0 <= m < |g| ==>
      Score(g, s, StandardKeys)[m] == if m < ExactCount(g, s) then 'b' else 'w'
  {
    RearrangementKeys(g, s);
    PositionsCount(g, s, |g|);
  }

  /** The key at position `m` offers the hypothesis that reveals the
      secret's colour at `Order(g, s)[m]`. */
  lemma RevealingHypothesis(g: seq<Colour>, s: seq<Colour>, m: nat) returns (h: Solution)
    requires 0 < |g| == |s| && multiset(g) == multiset(s) && m < |g|
    requires |Score(g, s, StandardKeys)| == |g|
    ensures Hypotheses(g, Score(g, s, StandardKeys)[m]).Success?
    ensures h in Hypotheses(g, Score(g, s, StandardKeys)[m]).value
    ensures h == Placed(s[Order(g, s)[m]], Order(g, s)[m], |g|)
  {
    var n := |g|;
    ScoreShape(g, s);
    OrderFacts(g, s);
    var j := Order(g, s)[m];
    var t, f := Positions(g, s, n, true), Positions(g, s, n, false);
    PositionsMembers(g, s, n, true);
    PositionsMembers(g, s, n, false);
    if m < ExactCount(g, s) {
      assert j == t[m] && j in t;
      h := Placed(g[j], j, n);
      assert h in CorrectHypotheses(g);
    } else {
      assert j == f[m - |t|] && j in f;
      assert s[j] in multiset(g);
      var i :| 0 <= i < n && g[i] == s[j];
      h := Placed(g[i], j, n);
      assert h in PartialHypotheses(g);
    }
  }

  /** Revealing one more index of an order without repeats fills a slot
      that was still empty. */
  lemma RevealNext(s: seq<Colour>, o: seq<nat>, m: nat)
    requires m < |o| && NoDuplicates(o)
    requires forall i :: 0 <= i < |o| ==> o[i] < |s|
    ensures Reveal(s, o[..m])[o[m]] == Empty
    ensures Reveal(s, o[..m + 1]) == Reveal(s, o[..m])[o[m] := Peg(s[o[m]])]
  {
    RevealAt(s, o[..m]);
    assert o[m] !in o[..m];
    assert o[..m + 1][..m] == o[..m];
  }

  /** A solution kept after `m` keys, merged with a hypothesis of key `m`,
      is kept after `m + 1` keys. */
  lemma FoldKeeps(g: seq<Colour>, keys: seq<char>, m: nat, r: Solution, h: Solution, next: Solution)
    requires m < |keys| && Fold(g, keys[..m]).Success? && r in Fold(g, keys[..m]).value
    requires Hypotheses(g, keys[m]).Success? && h in Hypotheses(g, keys[m]).value
    requires Merge(h, r) == Some(next)
    ensures Fold(g, keys[..m + 1]).Success? && next in Fold(g, keys[..m + 1]).value
  {
    var sols, hyps := Fold(g, keys[..m]).value, Hypotheses(g, keys[m]).value;
    MergeAllMembers(hyps, sols);
    FoldStep(g, keys, m, hyps);
  }

  /** One step of the soundness argument: the key at position `m` reveals
      the secret's colour at `Order(g, s)[m]`. */
  lemma SoundStep(g: seq<Colour>, s: seq<Colour>, m: nat)
    requires 0 < |g| == |s| && multiset(g) == multiset(s) && m < |g|
    requires |Score(g, s, StandardKeys)| == |g|
    requires Revealed(g, s, m)
    ensures Revealed(g, s, m + 1)
  {
    var fb, o := Score(g, s, StandardKeys), Order(g, s);
    OrderFacts(g, s);
    var j := o[m];
    var r := Reveal(s, o[..m]);
    RevealNext(s, o, m);
    var h := RevealingHypothesis(g, s, m);
    MergePlaced(s[j], j, r);
    FoldKeeps(g, fb, m, r, h, Reveal(s, o[..m + 1]));
  }

  /** After the first `m` keys, the solution revealing the secret at the
      first `m` positions of `Order(g, s)` is among the solutions. */
  ghost predicate Revealed(g: seq<Colour>, s: seq<Colour>, m: nat)
    requires |g| == |s| && m <= |g| && m <= |Score(g, s, StandardKeys)|
  {
    Fold(g, Score(g, s, StandardKeys)[..m]).Success? &&
    Reveal(s, Order(g, s)[..m]) in Fold(g, Score(g, s, StandardKeys)[..m]).value
  }

  /** Before any key, the blank solution is the only one, and nothing of the
      secret is revealed. */
  lemma SoundStart(g: seq<Colour>, s: seq<Colour>)
    requires 0 < |g| == |s|
    ensures Revealed(g, s, 0)
  {
    var fb, o := Score(g, s, StandardKeys), Order(g, s);
    assert fb[..0] == [] && o[..0] == [];
    assert Fold(g, []) == Success({Blank(|g|)});
    assert Reveal(s, []) == Blank(|g|);
  }

  lemma {:induction false} SoundPrefix(g: seq<Colour>, s: seq<Colour>, m: nat)
    requires 0 < |g| == |s| && multiset(g) == multiset(s) && m <= |g|
    requires |Score(g, s, StandardKeys)| == |g|
    ensures Revealed(g, s, m)
  {
    if m == 0 {
      SoundStart(g, s);
    } else {
      var k := m - 1;
      SoundPrefix(g, s, k);
      SoundStep(g, s, k);
      assert k + 1 == m;
    }
  }

  /** The secret is never ruled out: when it uses the guess's colours, the
      solutions generated from the guess and the feedback it earned include it. */
  lemma Soundness(g: seq<Colour>, s: seq<Colour>)
    requires 0 < |g| == |s| && multiset(g) == multiset(s)
    ensures Candidates(g, Score(g, s, StandardKeys)).Success?
    ensures Lift(s) in Candidates(g, Score(g, s, StandardKeys)).value
  {
    var fb, o := Score(g, s, StandardKeys), Order(g, s);
    ScoreShape(g, s);
    OrderFacts(g, s);
    SoundPrefix(g, s, |g|);
    assert fb[..|g|] == fb && o[..|g|] == o;
    RevealAt(s, o);
    assert Reveal(s, o) == Lift(s);
    SameColoursLift(s, g);
  }

  /** The candidates for the keys a secret earns contain the secret, and
      every one of them has the secret's colours. */
  lemma CandidatesTrack(g: seq<Colour>, s: seq<Colour>)
    requires 0 < |g| == |s| && multiset(g) == multiset(s)
    ensures Candidates(g, Score(g, s, StandardKeys)).Success?
    ensures Lift(s) in Candidates(g, Score(g, s, StandardKeys)).value
    ensures forall p :: p in Candidates(g, Score(g, s, StandardKeys)).value ==> SameColours(p, s)
  {
    Soundness(g, s);
    SameColoursLift(g, s);
  }
}
