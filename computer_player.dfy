/** The ComputerPlayer class of computer_player.py: a codebreaker that counts
    the secret's colours with single-colour guesses (phase '1'), tries them in
    the order found (phase '2'), then guesses among the patterns consistent
    with every observation so far (phase '3'). */
module ComputerPlayers {
  import opened Wrappers
  import opened Seqs
  import opened Scoring
  import opened SolvingAlgorithm
  import opened SolvingLemmas

  /** The `solving_phase` strings '1', '2' and '3'. */
  datatype Phase = CountColours | Arrange | Refine

  function Rank(p: Phase): nat
  {
    match p
    case CountColours => 1
    case Arrange => 2
    case Refine => 3
  }

  /** The colour list phase '1' holds after trying the first `k` colours of
      the palette against secret `s`: each tried colour as often as the secret
      holds it, in palette order. */
  function Counted(colours: seq<Colour>, s: seq<Colour>, k: nat): seq<Colour>
    requires k <= |colours|
  {
    if k == 0 then []
    else Counted(colours, s, k - 1) + Repeat(colours[k - 1], multiset(s)[colours[k - 1]])
  }

  /** Over a palette of distinct colours, the colours counted so far are the
      secret's pegs of the tried colours. */
  lemma {:induction false} CountedMultiset(colours: seq<Colour>, s: seq<Colour>, k: nat)
    requires k <= |colours| && NoDuplicates(colours)
    ensures forall c :: multiset(Counted(colours, s, k))[c] == if c in colours[..k] then multiset(s)[c] else 0
  {
    if k > 0 {
      CountedMultiset(colours, s, k - 1);
      var x := colours[k - 1];
      assert colours[..k] == colours[..k - 1] + [x];
      assert x !in colours[..k - 1];
      forall c ensures multiset(Counted(colours, s, k))[c] == if c in colours[..k] then multiset(s)[c] else 0 {
        RepeatMultiset(x, multiset(s)[x], c);
      }
    }
  }

  /** A sub-multiset as large as the whole is the whole. */
  lemma SubMultisetFull<T>(a: multiset<T>, b: multiset<T>)
    requires a <= b && |a| == |b|
    ensures a == b
  {
    var d := b - a;
    assert b == a + d;
    assert |d| == 0;
    assert d == multiset{};
  }

  /** What the colours counted so far say about the secret: never more pegs
      than it has, all of them once every palette colour is tried, and so the
      secret's own colours as soon as there are as many as pegs. */
  lemma CountedWithin(colours: seq<Colour>, s: seq<Colour>, k: nat)
    requires k <= |colours| && NoDuplicates(colours)
    requires forall i :: 0 <= i < |s| ==> s[i] in colours
    ensures multiset(Counted(colours, s, k)) <= multiset(s)
    ensures |Counted(colours, s, k)| <= |s|
    ensures k == |colours| ==> multiset(Counted(colours, s, k)) == multiset(s)
    ensures |Counted(colours, s, k)| == |s| ==> multiset(Counted(colours, s, k)) == multiset(s)
  {
    CountedMultiset(colours, s, k);
    var m := multiset(Counted(colours, s, k));
    assert m <= multiset(s);
    assert multiset(s) == m + (multiset(s) - m);
    if k == |colours| {
      assert colours[..k] == colours;
      forall c ensures m[c] == multiset(s)[c] {
        if c !in colours {
          assert c !in s;
        }
      }
    }
    if |Counted(colours, s, k)| == |s| {
      SubMultisetFull(m, multiset(s));
    }
  }

  /** One round of phase '1' against secret `s`: the keys for the `k`-th
      colour add that colour as often as the secret holds it; one colour
      before the end the last colour is filled in, which completes the count. */
  lemma CountStep(colours: seq<Colour>, s: seq<Colour>, k: nat)
    requires k < |colours| && NoDuplicates(colours)
    requires forall i :: 0 <= i < |s| ==> s[i] in colours
    ensures Counted(colours, s, k) + Repeat(colours[k], multiset(s)[colours[k]]) == Counted(colours, s, k + 1)
    ensures k + 1 == |colours| - 1 ==>
      Counted(colours, s, k + 1) + Repeat(colours[k + 1], Remaining(|s|, |Counted(colours, s, k + 1)|))
        == Counted(colours, s, |colours|)
    ensures k + 1 == |colours| ==> |Counted(colours, s, k + 1)| == |s|
  {
    CountedWithin(colours, s, |colours|);
    if k + 1 == |colours| - 1 {
      CountedWithin(colours, s, k + 1);
    }
  }

  /** A whole phase '1' round against secret `s`: from the colours counted
      for the first `tried` palette colours, the keys for the next colour and
      the last-colour fill either complete the secret's colours or leave the
      count for one colour more, with a colour still to try. */
  lemma CountRound(colours: seq<Colour>, s: seq<Colour>, tried: nat, counted: seq<Colour>, after: seq<Colour>)
    requires tried < |colours| && NoDuplicates(colours)
    requires forall i :: 0 <= i < |s| ==> s[i] in colours
    requires counted == Counted(colours, s, tried) + Repeat(colours[tried], multiset(s)[colours[tried]])
    requires after == counted + (if tried + 1 == |colours| - 1
                                 then Repeat(colours[tried + 1], Remaining(|s|, |counted|))
                                 else [])
    ensures |after| == |s| ==> multiset(after) == multiset(s)
    ensures |after| != |s| ==> tried + 1 < |colours| && after == Counted(colours, s, tried + 1)
  {
    CountStep(colours, s, tried);
    CountedWithin(colours, s, tried + 1);
    if tried + 1 == |colours| - 1 {
      CountedWithin(colours, s, |colours|);
    }
  }

  class ComputerPlayer {
    var patternLength: nat
    var patternColours: seq<Colour>
    var guess: seq<Colour>
    var phase: Phase
    var coloursTried: nat
    /** `solutions` in phases '1' and '2': the colours found so far. */
    var found: seq<Colour>
    /** `solutions` in phase '3': the patterns still possible. */
    var solutions: set<Solution>

    /** The patterns still possible are full patterns. */
    ghost predicate Valid()
      reads this`solutions
    {
      forall p :: p in solutions ==> Complete(p)
    }

    /** A secret the game can set: of the pattern length, over a palette of
        distinct colours. */
    ghost predicate Admissible(s: seq<Colour>)
      reads this`patternLength, this`patternColours
    {
      0 < patternLength == |s| && NoDuplicates(patternColours) &&
      forall i :: 0 <= i < |s| ==> s[i] in patternColours
    }

    /** Between turns, the codebreaker has lost nothing about secret `s`. */
    ghost predicate Tracks(s: seq<Colour>)
      reads this
    {
      Admissible(s) &&
      match phase
      case CountColours => coloursTried < |patternColours| && found == Counted(patternColours, s, coloursTried)
      case Arrange => |found| == |s| && multiset(found) == multiset(s)
      case Refine => Lift(s) in solutions && forall p :: p in solutions ==> SameColours(p, s)
    }

    /** After `make_guess`: the guess is the one the phase calls for, and the
        secret is the guess or still possible. */
    ghost predicate Guessed(s: seq<Colour>)
      reads this
    {
      Admissible(s) &&
      match phase
      case CountColours =>
        coloursTried < |patternColours| && found == Counted(patternColours, s, coloursTried) &&
        guess == Repeat(patternColours[coloursTried], patternLength)
      case Arrange => |found| == |s| && multiset(found) == multiset(s) && guess == found
      case Refine =>
        |guess| == |s| && multiset(guess) == multiset(s) && (guess == s || Lift(s) in solutions) &&
        forall p :: p in solutions ==> SameColours(p, s)
    }

    /** `analyse_feedback` is called when the guess of this turn was wrong,
        with the keys the secret earned for it. */
    ghost predicate Informed(feedback: seq<char>, s: seq<Colour>)
      reads this
    {
      Guessed(s) && guess != s && |guess| == |s| && feedback == Score(guess, s, StandardKeys)
    }

    /** `__init__`: the inherited fields; the phase is set by `ready_for_game`. */
    constructor ()
      ensures Valid() && found == [] && solutions == {}
    {
      patternLength, patternColours, guess := 0, [], [];
      phase, coloursTried, found, solutions := CountColours, 0, [], {};
    }

    /** `remember_rules`, inherited from the Player class. */
    method RememberRules(length: nat, colours: seq<Colour>)
      modifies this`patternLength, this`patternColours
      ensures patternLength == length && patternColours == colours
    {
      patternLength := length;
      patternColours := colours;
    }

    /** `ready_for_game`: back to phase '1' with nothing tried or found; the
        codebreaker then tracks any secret the game can set. */
    method ReadyForGame()
      modifies this`solutions, this`found, this`coloursTried, this`phase
      ensures phase == CountColours && coloursTried == 0 && found == [] && solutions == {}
      ensures Valid()
      ensures forall s :: Admissible(s) ==> Tracks(s)
    {
      solutions, found := {}, [];
      coloursTried := 0;
      phase := CountColours;
      forall s | Admissible(s) ensures Tracks(s) {
        assert s[0] in patternColours;
      }
    }

    /** `make_guess`, without the printing: phase '1' guesses the next palette
        colour in every peg, phase '2' the colours found, and phase '3' pops
        a still-possible pattern. */
    method MakeGuess(ghost s: seq<Colour>) returns (outcome: Outcome)
      requires Valid()
      modifies this`guess, this`solutions
      ensures Valid()
      ensures phase == CountColours ==>
        if coloursTried < |patternColours|
        then outcome == Pass && guess == Repeat(patternColours[coloursTried], patternLength)
        else outcome == Fail(IndexOutOfRange) && guess == []
      ensures phase == Arrange ==> outcome == Pass && guess == found
      ensures phase == Refine ==>
        if old(solutions) == {}
        then outcome == Fail(PopFromEmpty) && guess == [] && solutions == {}
        else outcome == Pass && Lift(guess) in old(solutions) && solutions == old(solutions) - {Lift(guess)}
      ensures phase != Refine ==> solutions == old(solutions)
      ensures old(Tracks(s)) ==> outcome == Pass && Guessed(s)
    {
      ghost var tracking := Tracks(s);
      if tracking {
        assert Admissible(s);
      }
      guess := [];
      outcome := Pass;
      if phase == CountColours {
        if coloursTried >= |patternColours| {
          return Fail(IndexOutOfRange);
        }
        var colour := patternColours[coloursTried];
        for peg := 0 to patternLength
          modifies this`guess
          invariant guess == Repeat(colour, peg)
        {
          RepeatSnoc(colour, peg);
          guess := guess + [colour];
        }
      } else if phase == Arrange {
        for i := 0 to |found|
          modifies this`guess
          invariant guess == found[..i]
        {
          assert found[..i + 1] == found[..i] + [found[i]];
          guess := guess + [found[i]];
        }
        assert found[..|found|] == found;
      } else {
        if solutions == {} {
          return Fail(PopFromEmpty);
        }
        var solution: Solution :| solution in solutions;
        solutions := solutions - {solution};
        for i := 0 to |solution|
          modifies this`guess
          invariant |guess| == i
          invariant forall k :: 0 <= k < i ==> solution[k] == Peg(guess[k])
        {
          guess := guess + [solution[i].colour];
        }
        assert Lift(guess) == solution;
        if tracking {
          SameColoursCode(solution, s);
          assert Code(solution) == guess;
          if solution == Lift(s) {
            assert forall k :: 0 <= k < |s| ==> guess[k] == s[k];
          }
        }
      }
    }

    /** `analyse_feedback`: phase '1' records the colour of the guess once per
        key and may fill in the last colour; phase '2' starts the possible
        patterns from this observation; phase '3' keeps those also consistent
        with this observation. An unknown key or an empty guess is an error
        and changes nothing. When the codebreaker is tracking the secret and
        the feedback is the secret's score of a wrong guess, it goes on
        tracking it. */
    method AnalyseFeedback(feedback: seq<char>, ghost s: seq<Colour>) returns (outcome: Outcome)
      requires Valid()
      modifies this`phase, this`coloursTried, this`found, this`solutions
      ensures Valid()
      ensures outcome.Fail? ==> unchanged(this)
      ensures Rank(old(phase)) <= Rank(phase) <= Rank(old(phase)) + 1
      ensures old(phase) == CountColours ==> CountedColour(feedback, old(found), old(coloursTried), outcome)
      ensures old(phase) == CountColours ==> solutions == old(solutions)
      ensures old(phase) != CountColours ==>
        (outcome == Pass <==> KnownKeys(feedback)) &&
        (outcome == Pass ==> phase == Refine && Candidates(guess, feedback).Success? &&
                             found == old(found) && coloursTried == old(coloursTried))
      ensures old(phase) == Arrange && outcome == Pass ==> solutions == Candidates(guess, feedback).value
      ensures old(phase) == Refine && outcome == Pass ==>
        solutions == old(solutions) * Candidates(guess, feedback).value
      ensures old(Informed(feedback, s)) ==>
        outcome == Pass && Tracks(s)
    {
      if phase == CountColours {
        outcome := CountColour(feedback, s);
      } else {
        outcome := UpdateSolutions(feedback, s);
      }
    }

    /** The new phase '1' state: one colour more tried, the guess's colour
        recorded once per key, the last colour filled in one colour before
        the end, and phase '2' once there are as many colours as pegs. */
    ghost predicate CountedColour(feedback: seq<char>, before: seq<Colour>, tried: nat, outcome: Outcome)
      reads this
    {
      if guess == [] then outcome == Fail(IndexOutOfRange)
      else
        var counted := before + Repeat(guess[0], |feedback|);
        outcome == Pass && coloursTried == tried + 1 &&
        found == counted + (if coloursTried == |patternColours| - 1
                            then Repeat(patternColours[coloursTried], Remaining(patternLength, |counted|))
                            else []) &&
        phase == if |found| == patternLength then Arrange else CountColours
    }

    /** Phase '1' of `analyse_feedback`. */
    method CountColour(feedback: seq<char>, ghost s: seq<Colour>) returns (outcome: Outcome)
      requires phase == CountColours
      modifies this`phase, this`coloursTried, this`found
      ensures outcome.Fail? ==> unchanged(this)
      ensures CountedColour(feedback, old(found), old(coloursTried), outcome)
      ensures old(Informed(feedback, s)) ==>
        Tracks(s)
    {
      ghost var tracking := Informed(feedback, s);
      ghost var tried := coloursTried;
      if tracking {
        assert tried < |patternColours| && found == Counted(patternColours, s, tried);
        assert guess == Repeat(patternColours[tried], |s|);
        MonochromeKeys(patternColours[tried], s, StandardKeys);
      }
      outcome := Pass;
      if guess == [] {
        assert !tracking;
        return Fail(IndexOutOfRange);
      }
      var colour := guess[0];
      AppendFound(colour, |feedback|);   // one peg of this colour per key
      coloursTried := coloursTried + 1;
      ghost var counted := found;
      if coloursTried == |patternColours| - 1 {
        // the remaining pegs must have the last colour
        AppendFound(patternColours[coloursTried], Remaining(patternLength, |found|));
      }
      if |found| == patternLength {
        phase := Arrange;
      }
      if tracking {
        CountColourTracks(s, tried, counted);
      }
    }

    /** The phase '1' step of the tracking argument, on the fields after the
        update: `counted` is the colour list before any last-colour fill. */
    lemma CountColourTracks(s: seq<Colour>, tried: nat, counted: seq<Colour>)
      requires Admissible(s) && tried < |patternColours| && coloursTried == tried + 1
      requires counted == Counted(patternColours, s, tried) + Repeat(patternColours[tried], multiset(s)[patternColours[tried]])
      requires found == counted + (if coloursTried == |patternColours| - 1
                                   then Repeat(patternColours[coloursTried], Remaining(patternLength, |counted|))
                                   else [])
      requires phase == if |found| == patternLength then Arrange else CountColours
      ensures Tracks(s)
    {
      CountRound(patternColours, s, tried, counted, found);
      if |found| != patternLength {
        assert |found| != |s|;
      }
    }

    /** The loops of phase '1' that append one colour `n` times to `solutions`. */
    method AppendFound(colour: Colour, n: nat)
      modifies this`found
      ensures found == old(found) + Repeat(colour, n)
    {
      for k := 0 to n
        invariant found == old(found) + Repeat(colour, k)
      {
        AppendSnoc(old(found), Repeat(colour, k), colour);
        RepeatSnoc(colour, k);
        found := found + [colour];
      }
    }

    /** Phases '2' and '3' of `analyse_feedback`. */
    method UpdateSolutions(feedback: seq<char>, ghost s: seq<Colour>) returns (outcome: Outcome)
      requires Valid() && phase != CountColours
      modifies this`phase, this`solutions
      ensures Valid()
      ensures outcome.Fail? ==> unchanged(this)
      ensures outcome == Pass <==> KnownKeys(feedback)
      ensures outcome == Pass ==> phase == Refine && Candidates(guess, feedback).Success?
      ensures old(phase) == Arrange && outcome == Pass ==> solutions == Candidates(guess, feedback).value
      ensures old(phase) == Refine && outcome == Pass ==>
        solutions == old(solutions) * Candidates(guess, feedback).value
      ensures old(Informed(feedback, s)) ==>
        outcome == Pass && Tracks(s)
    {
      ghost var tracking := Informed(feedback, s);
      if tracking {
        assert Admissible(s);
        assert 0 < |guess| == |s| && multiset(guess) == multiset(s);
        assert phase == Refine ==> Lift(s) in solutions;
        CandidatesTrack(guess, s);
        FoldSucceeds(guess, feedback);
        assert KnownKeys(feedback);
      }
      var generated := GenerateSolutions(guess, feedback);
      if generated.Failure? {
        return Fail(generated.error);
      }
      outcome := Pass;
      CandidatesAreRearrangements(guess, feedback);
      if phase == Arrange {
        solutions := Elems(generated.value);
        phase := Refine;
      } else {
        solutions := solutions * Elems(generated.value);
      }
      if tracking {
        assert Admissible(s) && phase == Refine;
        assert Lift(s) in solutions && forall p :: p in solutions ==> SameColours(p, s);
      }
    }
  }
}
