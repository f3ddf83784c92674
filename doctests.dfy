/** The examples in the docstrings of solving_algorithm.py, for the guess
    `rgby`, stated as sets: the model leaves the order of a deduplicated list
    open. */
module Doctests {
  import opened Seqs
  import opened Scoring
  import opened SolvingAlgorithm

  /** A one-slot solution of four slots, written out. */
  lemma PlacedFour(c: Colour, j: nat)
    requires j < 4
    ensures Placed(c, j, 4) == if j == 0 then [Peg(c), Empty, Empty, Empty]
      else if j == 1 then [Empty, Peg(c), Empty, Empty]
      else if j == 2 then [Empty, Empty, Peg(c), Empty]
      else [Empty, Empty, Empty, Peg(c)]
  {
  }

  /** The four patterns of the `add_correct_solution` example. */
  const CorrectRgby: set<Solution> := {
    [Peg('r'), Empty, Empty, Empty], [Empty, Peg('g'), Empty, Empty],
    [Empty, Empty, Peg('b'), Empty], [Empty, Empty, Empty, Peg('y')]}

  /** The 'b' hypotheses for `rgby`: each colour alone in its own place. */
  lemma CorrectDoctest()
    ensures CorrectHypotheses("rgby") == CorrectRgby
  {
    var g := "rgby";
    forall i | 0 <= i < 4 ensures Placed(g[i], i, 4) in CorrectRgby {
      PlacedFour(g[i], i);
    }
    PlacedFour(g[0], 0);
    PlacedFour(g[1], 1);
    PlacedFour(g[2], 2);
    PlacedFour(g[3], 3);
    assert Placed(g[0], 0, 4) in CorrectHypotheses(g);
    assert Placed(g[1], 1, 4) in CorrectHypotheses(g);
    assert Placed(g[2], 2, 4) in CorrectHypotheses(g);
    assert Placed(g[3], 3, 4) in CorrectHypotheses(g);
  }

  /** The twelve patterns of the `add_partially_correct_solution` example,
      in the docstring's order. */
  const PartialRgbyList: seq<Solution> := [
    [Empty, Peg('r'), Empty, Empty], [Empty, Empty, Peg('r'), Empty], [Empty, Empty, Empty, Peg('r')],
    [Peg('g'), Empty, Empty, Empty], [Empty, Empty, Peg('g'), Empty], [Empty, Empty, Empty, Peg('g')],
    [Peg('b'), Empty, Empty, Empty], [Empty, Peg('b'), Empty, Empty], [Empty, Empty, Empty, Peg('b')],
    [Peg('y'), Empty, Empty, Empty], [Empty, Peg('y'), Empty, Empty], [Empty, Empty, Peg('y'), Empty]]

  const PartialRgby: set<Solution> := Elems(PartialRgbyList)

  lemma PartialMember(i: nat, j: nat)
    requires i < 4 && j < 4 && i != j
    ensures Placed("rgby"[i], j, 4) in PartialHypotheses("rgby")
  {
    var g := "rgby";
    assert g[0] == 'r' && g[1] == 'g' && g[2] == 'b' && g[3] == 'y';
    assert g[i] != g[j];
  }

  lemma PartialCovered()
    ensures PartialHypotheses("rgby") <= PartialRgby
  {
    var g := "rgby";
    forall i, j | 0 <= i < 4 && 0 <= j < 4 && g[i] != g[j] ensures Placed(g[i], j, 4) in PartialRgby {
      PlacedFour(g[i], j);
    }
  }

  lemma PartialListed()
    ensures PartialRgby <= PartialHypotheses("rgby")
  {
    var g := "rgby";
    PartialMember(0, 1);
    PlacedFour("rgby"[0], 1);
    PartialMember(0, 2);
    PlacedFour("rgby"[0], 2);
    PartialMember(0, 3);
    PlacedFour("rgby"[0], 3);
    PartialMember(1, 0);
    PlacedFour("rgby"[1], 0);
    PartialMember(1, 2);
    PlacedFour("rgby"[1], 2);
    PartialMember(1, 3);
    PlacedFour("rgby"[1], 3);
    PartialMember(2, 0);
    PlacedFour("rgby"[2], 0);
    PartialMember(2, 1);
    PlacedFour("rgby"[2], 1);
    PartialMember(2, 3);
    PlacedFour("rgby"[2], 3);
    PartialMember(3, 0);
    PlacedFour("rgby"[3], 0);
    PartialMember(3, 1);
    PlacedFour("rgby"[3], 1);
    PartialMember(3, 2);
    PlacedFour("rgby"[3], 2);
  }

  /** The 'w' hypotheses for `rgby`: each colour alone in each other place. */
  lemma PartialDoctest()
    ensures PartialHypotheses("rgby") == PartialRgby
  {
    PartialCovered();
    PartialListed();
  }

  /** The docstring's twelve patterns are pairwise distinct. */
  lemma PartialRgbyCount()
    ensures |PartialRgby| == 12
  {
    NoDuplicatesCard(PartialRgbyList);
  }

  /** The count of the `add_partially_correct_solution` example: whatever
      order the deduplicated list takes, it holds twelve patterns for `rgby`. */
  lemma PartialDoctestLength(solutions: seq<Solution>)
    requires Elems(solutions) == PartialHypotheses("rgby") && NoDuplicates(solutions)
    ensures |solutions| == 12
  {
    PartialDoctest();
    PartialRgbyCount();
    NoDuplicatesCard(solutions);
  }
}
