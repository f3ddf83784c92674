/** solving_algorithm.py: the patterns consistent with one (guess, feedback)
    observation, built by merging one-slot hypotheses per feedback key. */
module SolvingAlgorithm {
  import opened Wrappers
  import opened Seqs
  import opened Functions
  import opened Scoring

  /** One slot of a (partial) solution: the source's '' or a colour. */
  datatype Slot = Empty | Peg(colour: Colour)

  /** A solution: a list of slots as long as the guess. */
  type Solution = seq<Slot>

  /** A pattern as a solution with every slot filled. */
  function Lift(code: seq<Colour>): (r: Solution)
    ensures |r| == |code|
    ensures forall k :: 0 <= k < |code| ==> r[k] == Peg(code[k])
  {
    seq(|code|, k requires 0 <= k < |code| => Peg(code[k]))
  }

  predicate Complete(p: Solution)
  {
    Empty !in p
  }

  /** The pattern a complete solution spells. */
  function Code(p: Solution): (r: seq<Colour>)
    requires Complete(p)
    ensures Lift(r) == p
  {
    var r := seq(|p|, k requires 0 <= k < |p| => p[k].colour);
    assert forall k :: 0 <= k < |p| ==> p[k] == Peg(r[k]);
    r
  }

  /** A solution with no slot filled. */
  function Blank(n: nat): Solution
  {
    Repeat(Empty, n)
  }

  /** The solution of length `n` holding `c` at `j` and nothing elsewhere. */
  function Placed(c: Colour, j: nat, n: nat): (r: Solution)
    requires j < n
    ensures |r| == n && r[j] == Peg(c)
    ensures forall k :: 0 <= k < n && k != j ==> r[k] == Empty
  {
    Blank(n)[j := Peg(c)]
  }

  /** `add_solution`: `index` empty slots, the colour, then empty slots up
      to `length` (none when `index` is already past it). */
  method AddSolution(colour: Colour, index: nat, length: nat) returns (solution: Solution)
    ensures |solution| == if index < length then length else index + 1
    ensures solution[index] == Peg(colour)
    ensures forall k :: 0 <= k < |solution| && k != index ==> solution[k] == Empty
  {
    solution := [];
    for i := 0 to index
      invariant solution == Blank(i)
    {
      solution := solution + [Empty];
    }
    solution := solution + [Peg(colour)];
    var after := if index + 1 < length then length - (index + 1) else 0;
    for i := 0 to after
      invariant |solution| == index + 1 + i
      invariant solution[index] == Peg(colour)
      invariant forall k :: 0 <= k < |solution| && k != index ==> solution[k] == Empty
    {
      solution := solution + [Empty];
    }
  }

  /** `add_empty_solution`: `length` solutions with no slot filled. */
  method AddEmptySolution(length: nat) returns (solutions: seq<Solution>)
    ensures |solutions| == length
    ensures forall i :: 0 <= i < length ==> solutions[i] == Blank(length)
  {
    solutions := [];
    for i := 0 to length
      invariant |solutions| == i
      invariant forall k :: 0 <= k < i ==> solutions[k] == Blank(length)
    {
      solutions := solutions + [[]];
      for j := 0 to length
        invariant |solutions| == i + 1 && solutions[i] == Blank(j)
        invariant forall k :: 0 <= k < i ==> solutions[k] == Blank(length)
      {
        solutions := solutions[i := solutions[i] + [Empty]];
      }
    }
  }

  /** What one 'b' key may mean: some peg of the guess is in its place. */
  function CorrectHypotheses(g: seq<Colour>): set<Solution>
  {
    set i | 0 <= i < |g| :: Placed(g[i], i, |g|)
  }

  /** What one 'w' key may mean: the colour of some guess peg belongs at
      another position, one where the guess has a different colour. */
  function PartialHypotheses(g: seq<Colour>): set<Solution>
  {
    set i, j | 0 <= i < |g| && 0 <= j < |g| && g[i] != g[j] :: Placed(g[i], j, |g|)
  }

  /** A one-slot solution leaves every other slot empty. */
  lemma PlacedHoles(c: Colour, j: nat, n: nat)
    requires j < n
    ensures multiset(Placed(c, j, n))[Empty] == n - 1
  {
    RepeatMultiset(Empty, n, Empty);
    MultisetUpdate(Blank(n), j, Peg(c));
  }

  /** Every 'b' hypothesis fills exactly one slot, with the guess's own
      colour there. */
  lemma CorrectHypothesesShape(g: seq<Colour>)
    ensures forall h: Solution :: h in CorrectHypotheses(g) ==>
      |h| == |g| && multiset(h)[Empty] == |g| - 1 &&
      forall j :: 0 <= j < |g| && h[j].Peg? ==> h[j].colour == g[j]
  {
    forall h: Solution | h in CorrectHypotheses(g)
      ensures |h| == |g| && multiset(h)[Empty] == |g| - 1
    {
      var i :| 0 <= i < |g| && h == Placed(g[i], i, |g|);
      PlacedHoles(g[i], i, |g|);
    }
  }

  /** Every 'w' hypothesis fills exactly one slot, with another of the
      guess's colours, never the one the guess has there. */
  lemma PartialHypothesesShape(g: seq<Colour>)
    ensures forall h: Solution :: h in PartialHypotheses(g) ==>
      |h| == |g| && multiset(h)[Empty] == |g| - 1 &&
      forall j :: 0 <= j < |g| && h[j].Peg? ==> h[j].colour != g[j] && h[j].colour in g
  {
    forall h: Solution | h in PartialHypotheses(g)
      ensures |h| == |g| && multiset(h)[Empty] == |g| - 1
    {
      var i, j :| 0 <= i < |g| && 0 <= j < |g| && g[i] != g[j] && h == Placed(g[i], j, |g|);
      PlacedHoles(g[i], j, |g|);
    }
  }

  /** `add_correct_solution`: for each position in order, the guess's peg
      there alone. */
  method AddCorrectSolution(guess: seq<Colour>) returns (solutions: seq<Solution>)
    ensures |solutions| == |guess|
    ensures forall i :: 0 <= i < |guess| ==> solutions[i] == Placed(guess[i], i, |guess|)
    ensures Elems(solutions) == CorrectHypotheses(guess)
  {
    var n := |guess|;
    solutions := [];
    for i := 0 to n
      invariant |solutions| == i
      invariant forall k :: 0 <= k < i ==> solutions[k] == Placed(guess[k], k, n)
    {
      var solution := AddSolution(guess[i], i, n);
      solutions := solutions + [solution];
    }
    assert forall x :: x in CorrectHypotheses(guess) ==> x in solutions by {
      forall x | x in CorrectHypotheses(guess) ensures x in solutions {
        var i :| 0 <= i < n && x == Placed(guess[i], i, n);
        assert solutions[i] == x;
      }
    }
  }

  /** The hypotheses for the pairs (a, b) that come before (i, j) in the
      loop order of `add_partially_correct_solution`. */
  ghost function PartialUpTo(g: seq<Colour>, i: nat, j: nat): set<Solution>
  {
    set a, b | 0 <= a < |g| && 0 <= b < |g| && (a < i || (a == i && b < j)) && g[a] != g[b] ::
      Placed(g[a], b, |g|)
  }

  lemma PartialUpToStep(g: seq<Colour>, i: nat, j: nat)
    requires i < |g| && j < |g|
    ensures PartialUpTo(g, i, j + 1) ==
      PartialUpTo(g, i, j) + if g[i] != g[j] then {Placed(g[i], j, |g|)} else {}
  {
  }

  lemma PartialUpToRow(g: seq<Colour>, i: nat)
    requires i < |g|
    ensures PartialUpTo(g, i, |g|) == PartialUpTo(g, i + 1, 0)
  {
  }

  lemma PartialUpToAll(g: seq<Colour>)
    ensures PartialUpTo(g, |g|, 0) == PartialHypotheses(g)
  {
  }

  /** `add_partially_correct_solution`: every pair of positions with
      different colours, the first's colour placed at the second; duplicates
      are dropped and the order is not specified. */
  method AddPartiallyCorrectSolution(guess: seq<Colour>) returns (solutions: seq<Solution>)
    ensures Elems(solutions) == PartialHypotheses(guess)
    ensures NoDuplicates(solutions)
  {
    var n := |guess|;
    var found: seq<Solution> := [];
    for i := 0 to n
      invariant Elems(found) == PartialUpTo(guess, i, 0)
    {
      for j := 0 to n
        invariant Elems(found) == PartialUpTo(guess, i, j)
      {
        PartialUpToStep(guess, i, j);
        if guess[i] == guess[j] {   // current peg position
          continue;
        }
        var solution := AddSolution(guess[i], j, n);
        assert solution == Placed(guess[i], j, n);
        assert Elems(found + [solution]) == Elems(found) + {solution};
        found := found + [solution];
      }
      PartialUpToRow(guess, i);
    }
    PartialUpToAll(guess);
    solutions := Deduplicate(found);
  }

  /** `set(map(tuple, ...))` then `map(list, ...)`: the same solutions, each
      once, in an order the model leaves open. */
  method Deduplicate(solutions: seq<Solution>) returns (r: seq<Solution>)
    ensures Elems(r) == Elems(solutions)
    ensures NoDuplicates(r)
  {
    var rest := Elems(solutions);
    r := [];
    while rest != {}
      invariant Elems(r) + rest == Elems(solutions)
      invariant Elems(r) !! rest
      invariant NoDuplicates(r)
      decreases |rest|
    {
      var x :| x in rest;
      r := r + [x];
      rest := rest - {x};
    }
  }

  /** The merge of one new solution `h` into one cumulative solution `s`,
      looking from slot `i` on: the first slot that `h` fills and `s` leaves
      empty receives `h`'s colour; without such a slot there is no merge. */
  function MergeFrom(h: Solution, s: Solution, i: nat): (r: Option<Solution>)
    requires |h| <= |s| && i <= |h|
    ensures r.None? <==> forall k :: i <= k < |h| ==> !(h[k].Peg? && s[k] == Empty)
    ensures r.Some? ==> exists k :: i <= k < |h| && h[k].Peg? && s[k] == Empty && r.value == s[k := h[k]]
    decreases |h| - i
  {
    if i == |h| then None
    else if h[i].Peg? && s[i] == Empty then Some(s[i := h[i]])
    else MergeFrom(h, s, i + 1)
  }

  function Merge(h: Solution, s: Solution): Option<Solution>
    requires |h| <= |s|
  {
    MergeFrom(h, s, 0)
  }

  /** Every merge of a new solution into a cumulative one (`merge_solutions`
      before the order is dropped). */
  function MergeAll(news: set<Solution>, cumulative: set<Solution>): set<Solution>
    requires forall h, s :: h in news && s in cumulative ==> |h| <= |s|
  {
    set h, s | h in news && s in cumulative && Merge(h, s).Some? :: Merge(h, s).value
  }

  /** Each merged solution is a cumulative solution with exactly one
      previously empty slot filled by a new solution's colour there, and every
      pair with such a slot contributes. */
  lemma MergeAllMembers(news: set<Solution>, cumulative: set<Solution>)
    requires forall h, s :: h in news && s in cumulative ==> |h| <= |s|
    ensures forall p :: p in MergeAll(news, cumulative) ==>
      exists h: Solution, s: Solution, k: int :: h in news && s in cumulative &&
        0 <= k < |h| && h[k].Peg? && s[k] == Empty && p == s[k := h[k]]
    ensures forall h: Solution, s: Solution :: h in news && s in cumulative && Merge(h, s).Some? ==>
      Merge(h, s).value in MergeAll(news, cumulative)
  {
  }

  lemma MergeAllSplitNew(a: set<Solution>, b: set<Solution>, c: set<Solution>)
    requires forall h, s :: h in a + b && s in c ==> |h| <= |s|
    ensures MergeAll(a + b, c) == MergeAll(a, c) + MergeAll(b, c)
  {
  }

  lemma MergeAllSplitCumulative(h: Solution, c: set<Solution>, s: Solution)
    requires forall t :: t in c + {s} ==> |h| <= |t|
    ensures MergeAll({h}, c + {s}) ==
      MergeAll({h}, c) + if Merge(h, s).Some? then {Merge(h, s).value} else {}
  {
  }

  lemma ElemsSnoc<T>(xs: seq<T>, n: nat)
    requires n < |xs|
    ensures Elems(xs[..n + 1]) == Elems(xs[..n]) + {xs[n]}
  {
    assert xs[..n + 1] == xs[..n] + [xs[n]];
  }

  /** `merge_solutions`: for every new and every cumulative solution, the
      first possible merge; duplicates are dropped and the order is not
      specified. */
  method MergeSolutions(newSolutions: seq<Solution>, cumulativeSolutions: seq<Solution>)
    returns (solutions: seq<Solution>)
    requires forall h, s :: h in newSolutions && s in cumulativeSolutions ==> |h| <= |s|
    ensures Elems(solutions) == MergeAll(Elems(newSolutions), Elems(cumulativeSolutions))
    ensures NoDuplicates(solutions)
  {
    var merged: seq<Solution> := [];
    var all := Elems(cumulativeSolutions);
    for a := 0 to |newSolutions|
      invariant Elems(merged) == MergeAll(Elems(newSolutions[..a]), all)
    {
      var h := newSolutions[a];
      var fromH := MergeNewSolution(h, cumulativeSolutions);
      assert Elems(merged + fromH) == Elems(merged) + Elems(fromH);
      merged := merged + fromH;
      ElemsSnoc(newSolutions, a);
      MergeAllSplitNew(Elems(newSolutions[..a]), {h}, all);
    }
    assert newSolutions[..|newSolutions|] == newSolutions;
    solutions := Deduplicate(merged);
  }

  /** The two inner loops of `merge_solutions`, for one new solution `h`:
      each cumulative solution in turn, merged at the first slot where `h`
      has a colour and it is empty. */
  method MergeNewSolution(h: Solution, cumulativeSolutions: seq<Solution>) returns (merged: seq<Solution>)
    requires forall s :: s in cumulativeSolutions ==> |h| <= |s|
    ensures Elems(merged) == MergeAll({h}, Elems(cumulativeSolutions))
  {
    merged := [];
    for b := 0 to |cumulativeSolutions|
      invariant Elems(merged) == MergeAll({h}, Elems(cumulativeSolutions[..b]))
    {
      var s := cumulativeSolutions[b];
      ghost var before := merged;
      for i := 0 to |h|
        invariant Merge(h, s) == MergeFrom(h, s, i)
        invariant merged == before
      {
        if h[i] != Empty && s[i] == Empty {   // merge if possible
          var solution := s;
          solution := solution[i := h[i]];
          merged := merged + [solution];
          break;
        }
      }
      assert Elems(merged) == Elems(before) + if Merge(h, s).Some? then {Merge(h, s).value} else {};
      ElemsSnoc(cumulativeSolutions, b);
      MergeAllSplitCumulative(h, Elems(cumulativeSolutions[..b]), s);
    }
    assert cumulativeSolutions[..|cumulativeSolutions|] == cumulativeSolutions;
  }

  /** Same colours, as often: `sorted(solution) == sorted(guess)`. */
  predicate SameColours(p: Solution, g: seq<Colour>)
  {
    multiset(p) == multiset(Lift(g))
  }

  /** The solutions of `sols` with the guess's colours, in order. */
  function ValidOnly(g: seq<Colour>, sols: seq<Solution>): (r: seq<Solution>)
    ensures forall p :: p in r <==> p in sols && SameColours(p, g)
  {
    if sols == [] then []
    else
      var init, last := sols[..|sols| - 1], sols[|sols| - 1];
      assert sols == init + [last];
      ValidOnly(g, init) + if SameColours(last, g) then [last] else []
  }

  lemma {:induction false} ValidOnlyNoDuplicates(g: seq<Colour>, sols: seq<Solution>)
    requires NoDuplicates(sols)
    ensures NoDuplicates(ValidOnly(g, sols))
  {
    if sols != [] {
      var init, last := sols[..|sols| - 1], sols[|sols| - 1];
      assert sols == init + [last];
      ValidOnlyNoDuplicates(g, init);
      assert last !in init;
    }
  }

  /** The list `remove_invalid_solutions` marks: invalid solutions become `None`. */
  ghost function Marks(g: seq<Colour>, sols: seq<Solution>): (r: seq<Option<Solution>>)
    ensures |r| == |sols|
  {
    seq(|sols|, k requires 0 <= k < |sols| => if SameColours(sols[k], g) then Some(sols[k]) else None)
  }

  /** The mark of one solution, with any `None` stripped, is the solution
      when it is valid and nothing otherwise. */
  lemma MarkOne(g: seq<Colour>, p: Solution)
    ensures WithoutNone([if SameColours(p, g) then Some(p) else None]) ==
      Somes(if SameColours(p, g) then [p] else [])
  {
    var o: Option<Solution> := if SameColours(p, g) then Some(p) else None;
    assert [o][1..] == [];
  }

  /** Filtering a list that ends in `p` keeps `p` at the end when it is valid. */
  lemma ValidOnlySnoc(g: seq<Colour>, init: seq<Solution>, p: Solution)
    ensures ValidOnly(g, init + [p]) == ValidOnly(g, init) + if SameColours(p, g) then [p] else []
  {
    assert (init + [p])[..|init|] == init;
  }

  lemma {:induction false} MarksPrefix(g: seq<Colour>, sols: seq<Solution>, n: nat)
    requires n <= |sols|
    ensures WithoutNone(Marks(g, sols)[..n]) == Somes(ValidOnly(g, sols[..n]))
  {
    var m := Marks(g, sols);
    if n == 0 {
      assert m[..0] == [];
    } else {
      var k := n - 1;
      MarksPrefix(g, sols, k);
      var p := sols[k];
      var tail := if SameColours(p, g) then [p] else [];
      PrefixSnoc(sols, k);
      ValidOnlySnoc(g, sols[..k], p);
      var v := ValidOnly(g, sols[..k]);
      PrefixSnoc(m, k);
      WithoutNoneAppend(m[..k], [m[k]]);
      MarkOne(g, p);
      assert Somes(v + tail) == Somes(v) + Somes(tail);
    }
  }

  /** `remove_invalid_solutions`: overwrite each solution whose colours are
      not the guess's with `None`, then strip the `None`s. */
  method RemoveInvalidSolutions(guess: seq<Colour>, solutions: seq<Solution>) returns (r: seq<Solution>)
    ensures r == ValidOnly(guess, solutions)
  {
    var list := new NoneList(Somes(solutions));
    for i := 0 to |solutions|
      invariant |list.items| == |solutions|
      invariant forall k :: 0 <= k < |solutions| ==>
        list.items[k] == if k < i && !SameColours(solutions[k], guess) then None else Some(solutions[k])
    {
      if !SameColours(list.items[i].value, guess) {
        list.items := list.items[i := None];   // mark for removal
      }
    }
    assert list.items == Marks(guess, solutions);
    RemoveEmptyElements(list);
    MarksPrefix(guess, solutions, |solutions|);
    assert Marks(guess, solutions)[..|solutions|] == Marks(guess, solutions);
    assert solutions[..|solutions|] == solutions;
    r := Values(list.items);
  }

  /** The hypotheses for one feedback key; any key but 'b' and 'w' is not in
      the `generate_solution` dictionary. */
  function Hypotheses(g: seq<Colour>, key: char): (r: Result<set<Solution>, Error>)
    ensures r.Success? <==> key == 'b' || key == 'w'
    ensures r.Success? ==> forall h :: h in r.value ==> |h| == |g|
  {
    if key == 'b' then Success(CorrectHypotheses(g))
    else if key == 'w' then Success(PartialHypotheses(g))
    else Failure(UnknownKey(key))
  }

  /** The solutions after merging the hypotheses of every key in turn into
      the all-empty start; the first unknown key is an error. */
  function Fold(g: seq<Colour>, keys: seq<char>): (r: Result<set<Solution>, Error>)
    ensures r.Success? ==> forall p :: p in r.value ==> |p| == |g|
    decreases |keys|
  {
    if keys == [] then Success(if |g| == 0 then {} else {Blank(|g|)})
    else
      match Fold(g, keys[..|keys| - 1])
      case Failure(e) => Failure(e)
      case Success(sols) =>
        match Hypotheses(g, keys[|keys| - 1])
        case Failure(e) => Failure(e)
        case Success(hyps) =>
          MergeAllMembers(hyps, sols);
          Success(MergeAll(hyps, sols))
  }

  /** What `generate_solutions` returns, as a set. */
  function Candidates(g: seq<Colour>, keys: seq<char>): Result<set<Solution>, Error>
  {
    match Fold(g, keys)
    case Failure(e) => Failure(e)
    case Success(sols) => Success(set p | p in sols && SameColours(p, g))
  }

  predicate KnownKeys(keys: seq<char>)
  {
    forall k :: 0 <= k < |keys| ==> keys[k] == 'b' || keys[k] == 'w'
  }

  lemma {:induction false} FoldSucceeds(g: seq<Colour>, keys: seq<char>)
    ensures Fold(g, keys).Success? <==> KnownKeys(keys)
  {
    if keys != [] {
      var init := keys[..|keys| - 1];
      FoldSucceeds(g, init);
      assert forall k :: 0 <= k < |init| ==> init[k] == keys[k];
    }
  }

  /** A lookup in the `generate_solution` dictionary, applied to the guess. */
  method GenerateHypotheses(guess: seq<Colour>, key: char) returns (r: Result<seq<Solution>, Error>)
    ensures r.Success? <==> key == 'b' || key == 'w'
    ensures r.Success? ==> Hypotheses(guess, key) == Success(Elems(r.value))
    ensures r.Success? ==> forall h :: h in r.value ==> |h| == |guess|
  {
    var hypotheses;
    if key == 'b' {
      hypotheses := AddCorrectSolution(guess);
    } else if key == 'w' {
      hypotheses := AddPartiallyCorrectSolution(guess);
    } else {
      return Failure(UnknownKey(key));
    }
    assert forall h :: h in hypotheses ==> h in Elems(hypotheses);
    return Success(hypotheses);
  }

  lemma FoldStep(g: seq<Colour>, keys: seq<char>, k: nat, hyps: set<Solution>)
    requires k < |keys| && Fold(g, keys[..k]).Success?
    requires Hypotheses(g, keys[k]) == Success(hyps)
    ensures Fold(g, keys[..k + 1]) == Success(MergeAll(hyps, Fold(g, keys[..k]).value))
  {
    assert keys[..k + 1][..k] == keys[..k];
  }

  /** With no key at all, no solution has the guess's colours (unless the
      guess is empty, and then there is no solution). */
  lemma NoKeysNoCandidates(g: seq<Colour>, blanks: seq<Solution>)
    requires forall p :: p in blanks ==> p == Blank(|g|)
    requires |g| > 0 || blanks == []
    ensures ValidOnly(g, blanks) == []
  {
    var r := ValidOnly(g, blanks);
    if r != [] {
      assert r[0] in r;
      var p := r[0];
      RepeatMultiset(Empty, |g|, Empty);
      assert false;
    }
  }

  /** `generate_solutions`: fold the feedback keys over the all-empty
      solutions, then keep the solutions with the guess's colours. */
  method GenerateSolutions(guess: seq<Colour>, feedback: seq<char>) returns (r: Result<seq<Solution>, Error>)
    ensures r.Failure? <==> !KnownKeys(feedback)
    ensures r.Success? ==> Candidates(guess, feedback) == Success(Elems(r.value)) && NoDuplicates(r.value)
  {
    FoldSucceeds(guess, feedback);
    var solutions := AddEmptySolution(|guess|);   // start with empty solutions
    if |guess| > 0 {
      assert solutions[0] in solutions;
    }
    assert Elems(solutions) == Fold(guess, []).value;
    ghost var blanks := solutions;
    for k := 0 to |feedback|
      invariant Fold(guess, feedback[..k]).Success?
      invariant Elems(solutions) == Fold(guess, feedback[..k]).value
      invariant forall p :: p in solutions ==> |p| == |guess|
      invariant k == 0 ==> solutions == blanks
      invariant k > 0 ==> NoDuplicates(solutions)
    {
      var hypotheses := GenerateHypotheses(guess, feedback[k]);
      if hypotheses.Failure? {
        return Failure(hypotheses.error);
      }
      FoldStep(guess, feedback, k, Elems(hypotheses.value));
      solutions := MergeSolutions(hypotheses.value, solutions);
    }
    assert feedback[..|feedback|] == feedback;
    if |feedback| == 0 {
      NoKeysNoCandidates(guess, solutions);
    } else {
      ValidOnlyNoDuplicates(guess, solutions);
    }
    ghost var folded := solutions;
    solutions := RemoveInvalidSolutions(guess, solutions);
    assert Elems(solutions) == set p | p in Elems(folded) && SameColours(p, guess);
    return Success(solutions);
  }
}
