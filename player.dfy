/** The Player class of player.py: the codemaker's scoring of a guess, the
    validation of a typed pattern, and the score it keeps. */
module Players {
  import opened Wrappers
  import opened Seqs
  import opened Functions
  import opened Scoring

  /** The two pattern lists after the first pass of `prepare_feedback`: the
      entries of `v` with `None` where guess `g` and secret `s` agree. */
  ghost function Marked(g: seq<Colour>, s: seq<Colour>, v: seq<Colour>): (r: seq<Option<Colour>>)
    requires |g| == |s| == |v|
    ensures |r| == |g|
  {
    seq(|g|, k requires 0 <= k < |g| => if g[k] == s[k] then None else Some(v[k]))
  }

  /** Removing the marks leaves exactly the unmatched pegs, in order. */
  lemma {:induction false} MarkedPrefix(g: seq<Colour>, s: seq<Colour>, v: seq<Colour>, n: nat)
    requires |g| == |s| == |v| && n <= |g|
    ensures WithoutNone(Marked(g, s, v)[..n]) == Somes(Pick(v, Positions(g, s, n, false)))
  {
    var m := Marked(g, s, v);
    if n == 0 {
      assert m[..0] == [];
    } else {
      MarkedPrefix(g, s, v, n - 1);
      var f := Positions(g, s, n - 1, false);
      assert m[..n] == m[..n - 1] + [m[n - 1]];
      WithoutNoneAppend(m[..n - 1], [m[n - 1]]);
      if g[n - 1] == s[n - 1] {
        assert Positions(g, s, n, false) == f;
        assert WithoutNone([m[n - 1]]) == [];
      } else {
        assert Positions(g, s, n, false) == f + [n - 1];
        PickSnoc(v, f, n - 1);
        assert WithoutNone([m[n - 1]]) == [Some(v[n - 1])];
        assert Somes(Pick(v, f) + [v[n - 1]]) == Somes(Pick(v, f)) + [Some(v[n - 1])];
      }
    }
  }

  lemma MarkedLeavesUnmatched(g: seq<Colour>, s: seq<Colour>)
    requires |g| == |s|
    ensures WithoutNone(Marked(g, s, g)) == Somes(Unmatched(g, s))
    ensures WithoutNone(Marked(g, s, s)) == Somes(Unmatched(s, g))
  {
    MarkedPrefix(g, s, g, |g|);
    MarkedPrefix(g, s, s, |g|);
    assert Marked(g, s, g)[..|g|] == Marked(g, s, g);
    assert Marked(g, s, s)[..|g|] == Marked(g, s, s);
    PositionsSymmetric(g, s, |g|, false);
  }

  lemma SomesMultiset(u: seq<Colour>, c: Colour)
    ensures multiset(Somes(u))[Some(c)] == multiset(u)[c]
  {
    if u != [] {
      var n := |u| - 1;
      assert u == u[..n] + [u[n]];
      assert Somes(u) == Somes(u[..n]) + [Some(u[n])];
      SomesMultiset(u[..n], c);
    }
  }

  /** One step of the second pass: a leftover guess peg either consumes one
      remaining secret peg of its colour and earns a key, or earns nothing. */
  lemma IntersectStep(u: seq<Colour>, i: nat, rem: multiset<Colour>)
    requires i < |u|
    ensures rem[u[i]] > 0 ==> |multiset(u[i..]) * rem| == 1 + |multiset(u[i + 1..]) * (rem - multiset{u[i]})|
    ensures rem[u[i]] == 0 ==> |multiset(u[i..]) * rem| == |multiset(u[i + 1..]) * rem|
  {
    var c, a := u[i], multiset(u[i + 1..]);
    assert u[i..] == [c] + u[i + 1..];
    assert multiset(u[i..]) == multiset{c} + a;
    if rem[c] > 0 {
      assert (multiset{c} + a) * rem == multiset{c} + a * (rem - multiset{c}) by {
        forall y ensures ((multiset{c} + a) * rem)[y] == (multiset{c} + a * (rem - multiset{c}))[y] {
        }
      }
    } else {
      assert (multiset{c} + a) * rem == a * rem by {
        forall y ensures ((multiset{c} + a) * rem)[y] == (a * rem)[y] {
        }
      }
    }
  }

  class Player {
    var name: string
    var score: int
    var patternLength: nat
    var patternColours: seq<Colour>
    var secretPattern: seq<Colour>
    var guess: seq<Colour>
    var feedback: seq<char>

    /** `__init__`: no name yet and no points. */
    constructor ()
      ensures name == "" && score == 0
    {
      name, score := "", 0;
      patternLength, patternColours := 0, [];
      secretPattern, guess, feedback := [], [], [];
    }

    /** `remember_rules`: the pattern length and palette of this game set. */
    method RememberRules(length: nat, colours: seq<Colour>)
      modifies this`patternLength, this`patternColours
      ensures patternLength == length && patternColours == colours
    {
      patternLength := length;
      patternColours := colours;
    }

    /** `__validate_input` on the line the player typed (already lower-cased):
        the line is cut to the pattern length, then rejected when too short or
        when a character is not a colour of the palette. The source asks again
        while the cut line is empty, so the line given here is not empty. */
    method ValidateInput(typed: string) returns (pattern: Option<seq<Colour>>)
      requires 0 < patternLength && typed != []
      ensures pattern.Some? <==>
        patternLength <= |typed| && forall i :: 0 <= i < patternLength ==> typed[i] in patternColours
      ensures pattern.Some? ==> pattern.value == typed[..patternLength]
    {
      var cut := if |typed| <= patternLength then typed else typed[..patternLength];
      if |cut| < patternLength {
        return None;
      }
      for i := 0 to |cut|
        invariant forall k :: 0 <= k < i ==> cut[k] in patternColours
      {
        if cut[i] !in patternColours {
          return None;
        }
      }
      return Some(cut);
    }

    /** `is_correct`: the guess is the secret, that is, it matches it peg for
        peg in every position. */
    function IsCorrect(g: seq<Colour>): (r: bool)
      reads this
      ensures r <==> |g| == |secretPattern| && ExactCount(g, secretPattern) == |g|
    {
      if |g| == |secretPattern| then
        AllExactIsEqual(g, secretPattern);
        g == secretPattern
      else
        false
    }

    /** `prepare_feedback`: score the guess against the secret pattern, working
        on copies of both. */
    method PrepareFeedback(g: seq<Colour>, keys: FeedbackKeys)
      requires |g| == |secretPattern|
      modifies this`feedback
      ensures feedback == Score(g, secretPattern, keys)
    {
      feedback := [];
      var guessPegs := new NoneList(Somes(g));
      var secretPegs := new NoneList(Somes(secretPattern));
      FindCorrectPegs(g, secretPattern, guessPegs, secretPegs, keys.correct);

      // Remove done pegs
      RemoveEmptyElements(guessPegs);
      RemoveEmptyElements(secretPegs);
      MarkedLeavesUnmatched(g, secretPattern);

      FindPartiallyCorrectPegs(Unmatched(g, secretPattern), Unmatched(secretPattern, g),
        guessPegs, secretPegs, keys.partiallyCorrect);
    }

    /** The first pass of `prepare_feedback`: one key per peg right in colour
        and position; both pegs are then overwritten with `None`. */
    method FindCorrectPegs(g: seq<Colour>, ghost s: seq<Colour>,
                           guessPegs: NoneList<Colour>, secretPegs: NoneList<Colour>, key: char)
      requires |g| == |s| && guessPegs != secretPegs
      requires guessPegs.items == Somes(g) && secretPegs.items == Somes(s)
      modifies this`feedback, guessPegs, secretPegs
      ensures guessPegs.items == Marked(g, s, g) && secretPegs.items == Marked(g, s, s)
      ensures feedback == old(feedback) + Repeat(key, ExactCount(g, s))
    {
      var n := |g|;
      for i := 0 to n
        invariant |guessPegs.items| == n && |secretPegs.items| == n
        invariant forall k :: 0 <= k < n ==>
          guessPegs.items[k] == if k < i && g[k] == s[k] then None else Some(g[k])
        invariant forall k :: 0 <= k < n ==>
          secretPegs.items[k] == if k < i && g[k] == s[k] then None else Some(s[k])
        invariant feedback == old(feedback) + Repeat(key, |Positions(g, s, i, true)|)
      {
        if guessPegs.items[i] == secretPegs.items[i] {
          RepeatSnoc(key, |Positions(g, s, i, true)|);
          AppendSnoc(old(feedback), Repeat(key, |Positions(g, s, i, true)|), key);
          feedback := feedback + [key];
          guessPegs.items := guessPegs.items[i := None];
          secretPegs.items := secretPegs.items[i := None];
        }
      }
    }

    /** The second pass of `prepare_feedback`: each leftover guess peg whose
        colour is still among the leftover secret pegs earns a key and
        overwrites the first such secret peg with `None`. */
    method FindPartiallyCorrectPegs(ghost ug: seq<Colour>, ghost us: seq<Colour>,
                                    guessPegs: NoneList<Colour>, secretPegs: NoneList<Colour>, key: char)
      requires guessPegs != secretPegs
      requires guessPegs.items == Somes(ug) && secretPegs.items == Somes(us)
      modifies this`feedback, secretPegs
      ensures feedback == old(feedback) + Repeat(key, |multiset(ug) * multiset(us)|)
    {
      ghost var rem := multiset(us);
      ghost var count := 0;
      forall c ensures multiset(secretPegs.items)[Some(c)] == rem[c] {
        SomesMultiset(us, c);
      }
      var m := |guessPegs.items|;
      assert ug[0..] == ug;
      for i := 0 to m
        invariant guessPegs.items == Somes(ug) && m == |ug|
        invariant forall c :: multiset(secretPegs.items)[Some(c)] == rem[c]
        invariant feedback == old(feedback) + Repeat(key, count)
        invariant count + |multiset(ug[i..]) * rem| == |multiset(ug) * multiset(us)|
      {
        var colour := guessPegs.items[i];
        assert colour == Some(ug[i]);
        IntersectStep(ug, i, rem);
        if colour in secretPegs.items {
          assert rem[ug[i]] > 0 by {
            assert multiset(secretPegs.items)[Some(ug[i])] > 0;
          }
          RepeatSnoc(key, count);
          AppendSnoc(old(feedback), Repeat(key, count), key);
          feedback := feedback + [key];
          var k := IndexOf(secretPegs.items, colour);
          ghost var before := secretPegs.items;
          secretPegs.items := secretPegs.items[k := None];
          rem := rem - multiset{ug[i]};
          count := count + 1;
          forall c ensures multiset(secretPegs.items)[Some(c)] == rem[c] {
            MultisetUpdate(before, k, None);
          }
        } else {
          assert rem[ug[i]] == 0 by {
            assert multiset(secretPegs.items)[Some(ug[i])] == 0;
          }
        }
      }
      assert ug[m..] == [];
    }

    /** `gain_point`: one more point. */
    method GainPoint()
      modifies this`score
      ensures score == old(score) + 1
    {
      score := score + 1;
    }
  }

  /** The scoring leaves the secret pattern alone, and the secret itself
      earns one 'correct' key per peg and counts as correct. */
  lemma PerfectGuess(p: Player, keys: FeedbackKeys)
    ensures p.IsCorrect(p.secretPattern)
    ensures Score(p.secretPattern, p.secretPattern, keys) == Repeat(keys.correct, |p.secretPattern|)
  {
    PerfectGuessKeys(p.secretPattern, keys);
  }
}
