# Mastermind codebreaker, modelled in Dafny

This project models the logic of a terminal Mastermind game written in Python 2.
A codemaker hides a pattern of coloured pegs. A codebreaker guesses patterns of
the same length, and each guess earns feedback keys: 'b' (black) for a peg right
in colour and place, and 'w' (white) for a peg right in colour only. The model
covers five parts of the game:

- **Scoring** (`player.py`). `Player.prepare_feedback` scores a guess in two
  passes over copies of guess and secret. It marks matched pegs `None` and then
  strips them. The model keeps these passes as methods over in-place lists. Their
  result is tied to `Scoring.Score`: one 'correct' key per exact position, then
  one 'partially correct' key per leftover guess peg that finds a leftover secret
  peg of its colour. The lemmas about `Score` state what the codebreaker relies
  on:
  - the number of keys is the colour-wise minimum of guess and secret;
  - a one-colour guess earns one key per secret peg of that colour;
  - a rearrangement of the secret earns exactly one key per peg.
- **The candidate generator** (`solving_algorithm.py`). `generate_solutions`
  starts from all-empty partial solutions. For each feedback key it builds the
  one-slot hypotheses:
  - a 'b' key says guess peg `i` is in place;
  - a 'w' key says the colour of guess peg `i` belongs at a position `j` where
    the guess has another colour.

  Each hypothesis is merged into the first free slot it can fill, duplicates are
  dropped, and the survivors must hold the guess's colours. The methods keep the
  source's loops. Each is proved against a set-valued specification (`Fold`,
  `Candidates`). The main theorem, `SolvingLemmas.Soundness`, says that a
  non-empty secret is always among the candidates whenever it is a
  rearrangement of the guess and the keys are its own score. (For an empty
  guess `add_empty_solution(0)` gives no start solution, so there is no
  candidate at all.)
- **The computer codebreaker** (`computer_player.py`). The codebreaker is a
  class with three phases:
  - phase '1' guesses one colour at a time and counts it;
  - phase '2' guesses the colours it found;
  - phase '3' guesses among the candidates and intersects them with each new
    observation.

  The methods state the new state outright. A ghost secret `s` threads through
  them: a codebreaker that tracks `s` and is told `s`'s keys for a wrong guess
  still tracks `s` afterwards. Phase '3' therefore never runs out of candidates
  before guessing the secret.
- **Helpers** (`functions.py`): the parity test, and the in-place removal of
  `None` from a list.
- **The board** (`board.py`): the list of row strings, its construction, and
  the in-place update of the row for one turn.

The source's '' slot marker becomes `SolvingAlgorithm.Slot.Empty`. A colour is a
character. Python lists that the source overwrites with `None` and then strips
become `Functions.NoneList`, a class with one `seq<Option<T>>` field. Python
exceptions become `Wrappers.Error` values inside an `Outcome` or `Result`:
- a `KeyError` for a key other than 'b' or 'w';
- an `IndexError` from `pop()` on an empty list, from `pop(i)` past the end,
  from `guess[0]` on an empty guess, and from a board index past the last row.

`ComputerPlayer.solutions` holds colours in phases '1' and '2' and patterns in
phase '3'. The model splits it into two fields: `found` (a sequence of colours)
and `solutions` (a set of patterns).

## Model

| member | source | states |
|---|---|---|
| Functions.IsOdd | functions.py:3-5 | the result holds exactly when `n` is one more than twice `n / 2`; Python's floored `%` and Dafny's Euclidean `%` agree for divisor 2 |
| Functions.RemoveEmptyElements | functions.py:8-11 | the list becomes the list with every `None` removed, in place |
| Functions.WithoutNoneAppend | functions.py:8-11 | removal works piecewise, so the surviving elements keep their relative order |
| Functions.WithoutNoneIdentity | functions.py:8-11 | a list without `None` is left unchanged |
| Functions.WithoutNoneMultiset | functions.py:8-11 | every non-`None` element survives as often as it occurred; the length drops by exactly the number of `None`s |
| Functions.DropNone | functions.py:10-11 | one `lst.remove(None)` does not change what survives the whole removal |
| Players.Player.constructor | player.py:9-11 | a new player has no name and no points |
| Players.Player.RememberRules | player.py:36-39 | the pattern length and the palette are set, and nothing else changes |
| Players.Player.ValidateInput | player.py:14-33 | a pattern is returned exactly when the typed line is at least the pattern length and its first `pattern_length` characters are all palette colours; the pattern is those characters |
| Players.Player.IsCorrect | player.py:70-72 | a guess is correct exactly when it has the secret's length and matches it in every position |
| Players.Player.PrepareFeedback | player.py:75-96 | the feedback becomes the guess's score against the secret; only the `feedback` field changes, so the secret is left alone |
| Players.Player.FindCorrectPegs | player.py:82-86 | the first pass appends one 'correct' key per exact position and marks exactly those pegs `None` in both copies |
| Players.Player.FindPartiallyCorrectPegs | player.py:92-96 | the second pass appends one 'partially correct' key for each leftover guess peg that can still claim a leftover secret peg of its colour, as many as the colour-wise minimum of the two leftovers |
| Players.Player.GainPoint | player.py:122-124 | the score grows by exactly one, and nothing else changes |
| Players.MarkedLeavesUnmatched | player.py:88-90 | stripping the marks leaves exactly the unmatched pegs of guess and secret, in order |
| Players.PerfectGuess | player.py:70-86 | the secret itself is correct and earns one 'correct' key per peg |
| Scoring.ExactKeys | player.py:82-96 | with two distinct keys, the 'correct' keys number the positions where guess and secret agree, and they come before every 'partially correct' key |
| Scoring.KeysTotal | player.py:82-96 | the number of keys is the size of the intersection of the guess's and the secret's colour multisets |
| Scoring.KeysAtMostLength | player.py:82-96 | there are never more keys than pegs |
| Scoring.MonochromeKeys | player.py:82-96 | a one-colour guess earns one key per secret peg of that colour |
| Scoring.PerfectGuessKeys | player.py:82-86 | the secret scored against itself is all 'correct' keys, one per peg |
| Scoring.AllExactIsEqual | player.py:82-86 | every position matches exactly when the guess is the secret |
| Scoring.RearrangementKeys | player.py:92-96 | when the secret uses the guess's colours, the leftovers hold the same colours and every leftover peg earns a 'partially correct' key |
| Scoring.SplitColours | player.py:82-90 | each pattern's colours are its exact-match colours plus its leftovers; each has length minus the exact count leftovers |
| Scoring.PositionsMembers | player.py:83-84 | the exact (or inexact) positions are listed in increasing order, each exactly once |
| SolvingAlgorithm.AddSolution | solving_algorithm.py:8-21 | the solution has `length` slots (one more than `index` when `index` is past the end), the colour at `index`, and empty slots elsewhere |
| SolvingAlgorithm.AddEmptySolution | solving_algorithm.py:24-36 | `length` solutions, each of `length` empty slots |
| SolvingAlgorithm.AddCorrectSolution | solving_algorithm.py:39-50 | for each position in order, the guess's peg there alone; as a set these are the 'b' hypotheses |
| SolvingAlgorithm.CorrectHypothesesShape | solving_algorithm.py:39-50 | every 'b' hypothesis has the guess's length, fills exactly one slot, and holds the guess's own colour there |
| SolvingAlgorithm.AddPartiallyCorrectSolution | solving_algorithm.py:53-72 | the 'w' hypotheses, each exactly once |
| SolvingAlgorithm.PartialHypothesesShape | solving_algorithm.py:53-72 | every 'w' hypothesis has the guess's length and fills exactly one slot, with a guess colour that differs from the guess's colour there |
| SolvingAlgorithm.Deduplicate | solving_algorithm.py:70-71 | the same solutions, each exactly once |
| SolvingAlgorithm.MergeFrom | solving_algorithm.py:86-94 | there is no merge exactly when no slot from `i` on is filled in the new solution and empty in the cumulative one; a merge fills one such slot and changes nothing else |
| SolvingAlgorithm.MergeAllMembers | solving_algorithm.py:75-97 | every merged solution is a cumulative solution with exactly one empty slot filled by the new solution's colour there; every pair that can merge contributes |
| SolvingAlgorithm.MergeSolutions | solving_algorithm.py:75-97 | the result, as a set, is every possible merge of a new into a cumulative solution, with no duplicates |
| SolvingAlgorithm.MergeNewSolution | solving_algorithm.py:85-94 | for one new solution, the merges with every cumulative solution |
| SolvingAlgorithm.ValidOnly | solving_algorithm.py:100-111 | a solution is kept exactly when it is in the list and holds the guess's colours as often as the guess does |
| SolvingAlgorithm.ValidOnlyNoDuplicates | solving_algorithm.py:100-111 | filtering a list without duplicates leaves none |
| SolvingAlgorithm.MarksPrefix | solving_algorithm.py:107-110 | marking the invalid solutions `None` and stripping the marks keeps the valid ones in order |
| SolvingAlgorithm.RemoveInvalidSolutions | solving_algorithm.py:100-111 | the result is the valid solutions, in their original order |
| SolvingAlgorithm.Hypotheses | solving_algorithm.py:114-117 | only 'b' and 'w' have hypotheses, and every hypothesis has the guess's length |
| SolvingAlgorithm.GenerateHypotheses | solving_algorithm.py:114-120 | the dictionary lookup fails exactly for a key other than 'b' or 'w'; otherwise it yields that key's hypotheses |
| SolvingAlgorithm.Fold | solving_algorithm.py:118-120 | every solution after folding the keys has the guess's length |
| SolvingAlgorithm.FoldSucceeds | solving_algorithm.py:119-120 | the fold fails exactly when some key is neither 'b' nor 'w' |
| SolvingAlgorithm.FoldStep | solving_algorithm.py:119-120 | one more key merges its hypotheses into the solutions so far |
| SolvingAlgorithm.NoKeysNoCandidates | solving_algorithm.py:118-121 | with no keys, no empty start solution holds the guess's colours |
| SolvingAlgorithm.GenerateSolutions | solving_algorithm.py:5-122 | fails exactly when some key is unknown; otherwise returns, without duplicates, exactly the folded solutions that hold the guess's colours |
| SolvingLemmas.MergePlaced | solving_algorithm.py:88-94 | a one-slot hypothesis fills its slot when that slot is empty, and merges nothing otherwise |
| SolvingLemmas.MergeAllHoles | solving_algorithm.py:88-94 | every merged solution has one empty slot fewer |
| SolvingLemmas.FoldHoles | solving_algorithm.py:118-120 | after `k` keys every solution has exactly `k` filled slots |
| SolvingLemmas.CandidatesAreRearrangements | solving_algorithm.py:114-122 | every candidate fills every slot and is a rearrangement of the guess; there are candidates only when there are as many keys as pegs |
| SolvingLemmas.SoundStep | solving_algorithm.py:119-120 | the key at position `m` of the secret's score reveals the secret's colour at one more position |
| SolvingLemmas.SoundPrefix | solving_algorithm.py:118-120 | after the first `m` keys of the secret's score, the solution revealing the secret at the first `m` positions of the scoring order is kept |
| SolvingLemmas.Soundness | solving_algorithm.py:114-122 | when a non-empty secret is a rearrangement of the guess and the keys are its score, the fold succeeds and the secret is among the candidates |
| SolvingLemmas.CandidatesTrack | solving_algorithm.py:114-122 | the candidates for the secret's score contain the secret, and all of them hold the secret's colours |
| Doctests.CorrectDoctest | solving_algorithm.py:39-44 | the 'b' hypotheses for `rgby` are the four patterns of the docstring |
| Doctests.PartialDoctest | solving_algorithm.py:53-61 | the 'w' hypotheses for `rgby` are the twelve patterns of the docstring |
| Doctests.PartialRgbyCount | solving_algorithm.py:56-60 | the twelve patterns of the docstring are pairwise distinct |
| Doctests.PartialDoctestLength | solving_algorithm.py:53-72 | any duplicate-free list of the 'w' hypotheses for `rgby`, as `add_partially_correct_solution` returns, has exactly twelve entries, whatever its order |
| ComputerPlayers.CountedWithin | computer_player.py:97-111 | the colours counted never exceed the secret's, equal them once every palette colour is tried, and equal them as soon as there are as many as pegs |
| ComputerPlayers.CountRound | computer_player.py:97-111 | one phase '1' round against the secret either completes the secret's colours or leaves the count for one more colour, with a colour still to try |
| ComputerPlayers.ComputerPlayer.constructor | computer_player.py:18-24 | sets up a codebreaker with empty `found` and `solutions`; the source creates no `solutions` list here (it first appears in `ready_for_game`), and the model sets both fields only because every Dafny field needs an initial value |
| ComputerPlayers.ComputerPlayer.RememberRules | player.py:36-39 | inherited from Player: sets the pattern length and the palette |
| ComputerPlayers.ComputerPlayer.ReadyForGame | computer_player.py:40-44 | phase '1' with nothing tried, found or kept; the codebreaker then tracks every secret the game can set |
| ComputerPlayers.ComputerPlayer.MakeGuess | computer_player.py:68-91 | phase '1' guesses the next palette colour in every peg and fails past the palette's end; phase '2' guesses the colours found; phase '3' removes one candidate and guesses it, and fails when there is none; a tracking codebreaker never fails, and its guess is the secret or leaves the secret a candidate |
| ComputerPlayers.ComputerPlayer.AnalyseFeedback | computer_player.py:94-130 | the phase only moves forward, one step at a time; phase '2' makes the candidates this observation's candidates and phase '3' intersects with them; a phase '1' round leaves the candidate set as it was; an unknown key fails and changes nothing; told the secret's keys for a wrong guess, a tracking codebreaker goes on tracking |
| ComputerPlayers.ComputerPlayer.CountColour | computer_player.py:97-111 | one more colour tried; the guess's colour recorded once per key; the last colour filled up to the pattern length one colour before the end; phase '2' once there are as many colours as pegs |
| ComputerPlayers.ComputerPlayer.CountColourTracks | computer_player.py:97-111 | after a phase '1' round on the secret's keys, the codebreaker still tracks the secret |
| ComputerPlayers.ComputerPlayer.AppendFound | computer_player.py:99-100 | the colour is appended exactly `n` times |
| ComputerPlayers.ComputerPlayer.UpdateSolutions | computer_player.py:113-130 | phase '2' sets the candidates and phase '3' intersects with them, both ending in phase '3'; fails exactly on an unknown key, changing nothing |
| Boards.TimesSingle | board.py:25-27 | a one-character string repeated `n` times is a run of `n` such characters |
| Boards.PegAt | board.py:38-39 | peg `i` of a guess appears at column `3 * i` of the guess area |
| Boards.KeyAt | board.py:41-42 | key `j` of a feedback appears at column `2 * j` of the feedback area |
| Boards.Board.Margin | board.py:25 | the indentation is `screen_width / 4` characters, rounded down |
| Boards.Board.CreateRow | board.py:23-27 | the row is `screen_width / 4` spaces (integer division), three borders, and `5 * pattern_length + 3` slots |
| Boards.Board.constructor | board.py:7-20 | a border row, `2 * turns + 1` blank rows and a border row |
| Boards.Board.Update | board.py:35-46 | only row `(turn + 1) * 2` changes, to the guess row of the pegs and keys; an index past the last row fails and changes nothing |
| Boards.RowWidth | board.py:23-27 | with one-character border and slot, a row is `screen_width / 4 + 5 * pattern_length + 6` characters wide |
| Boards.GuessRowShape | board.py:37-45 | a full guess with at most one key per peg makes a row as wide as a blank row, with peg `i` and key `j` at fixed columns |
| Boards.UpdateKeepsBorders | board.py:18-46 | on a board built for `turns` turns, the update of any turn of the game lands inside the board on a blank row, and both border rows stay border rows |

## Left out

- Terminal and GUI input and output are not modelled. This covers printing, `raw_input`, the typing animation, the random name and the random secret. `mastermind_game.py`, `mastermind_gui.py`, `mastermind.py` and `signal_handler.py` are not part of this model; only their calling order informs it (feedback is analysed only after a wrong guess).
- Players.Player.ValidateInput: the prompt loop and `.lower()` are not modelled. The typed line is a parameter and is taken as already lower-cased. The method requires a non-empty line, because the source asks again while the cut line is empty. It requires `pattern_length > 0`, because otherwise the source would ask forever.
- Players.Player.PrepareFeedback: requires guess and secret of equal length. The game only scores validated patterns of the pattern length. Unequal lengths are not modelled. A longer guess would raise `IndexError` in the source. A shorter guess is scored without error in the source, because its first loop runs over the guess only (player.py:83-84); the model does not cover that case either.
- The order of the lists built through `set(...)` is left open. Candidate collections are sets, `Deduplicate` returns an arbitrary order, and phase '3' `pop()` removes an arbitrary candidate.
- SolvingAlgorithm.Deduplicate: states the elements and the absence of duplicates, not Python's hash order.
- ComputerPlayers.ComputerPlayer.MakeGuess: the printing of the guess is left out. Phase '3' does not model which candidate `pop()` picks.
- ComputerPlayers.ComputerPlayer: the Python `solutions` field is two fields here. `found` holds the colours of phases '1' and '2', and `solutions` holds the candidate set of phase '3'. The pause and the name list of the constructor are not modelled.
- ComputerPlayers.ComputerPlayer.RememberRules repeats `Player.remember_rules` instead of inheriting it, because the model has no class inheritance.
- The `name`, `secret_pattern` and `score` of the computer player are not modelled; only the Player class keeps them.
- Boards.Board.Update: `turn` is a natural number, so Python's negative list indices are not modelled.
- Python 2 string arithmetic is written out. `s * n` is `Times`, and `screen_width / 4` is integer division on naturals.
