/** The Board class of board.py: the rows of text that show the game, one
    border row at each end, and a guess row written after every turn. */
module Boards {
  import opened Wrappers
  import opened Seqs

  /** String repetition, `s * n`. */
  function Times(s: string, n: nat): (r: string)
    ensures |r| == n * |s|
  {
    if n == 0 then "" else Times(s, n - 1) + s
  }

  /** A one-character string repeated is a run of that character. */
  lemma {:induction false} TimesSingle(c: char, n: nat)
    ensures Times([c], n) == Repeat(c, n)
  {
    if n > 0 {
      TimesSingle(c, n - 1);
      RepeatSnoc(c, n - 1);
    }
  }

  /** Each peg of a guess followed by two spaces. */
  function Pegs(guess: seq<char>): (r: string)
    ensures |r| == 3 * |guess|
  {
    if guess == [] then ""
    else Pegs(guess[..|guess| - 1]) + [guess[|guess| - 1], ' ', ' ']
  }

  /** Each key of a feedback followed by one space. */
  function Keys(feedback: seq<char>): (r: string)
    ensures |r| == 2 * |feedback|
  {
    if feedback == [] then ""
    else Keys(feedback[..|feedback| - 1]) + [feedback[|feedback| - 1], ' ']
  }

  /** The `i`-th peg is shown at column `3 * i`. */
  lemma {:induction false} PegAt(guess: seq<char>, i: nat)
    requires i < |guess|
    ensures Pegs(guess)[3 * i] == guess[i]
  {
    var n := |guess| - 1;
    if i < n {
      PegAt(guess[..n], i);
      assert Pegs(guess)[3 * i] == Pegs(guess[..n])[3 * i];
    }
  }

  /** The `j`-th key is shown at column `2 * j`. */
  lemma {:induction false} KeyAt(feedback: seq<char>, j: nat)
    requires j < |feedback|
    ensures Keys(feedback)[2 * j] == feedback[j]
  {
    var n := |feedback| - 1;
    if j < n {
      KeyAt(feedback[..n], j);
      assert Keys(feedback)[2 * j] == Keys(feedback[..n])[2 * j];
    }
  }

  class Board {
    var patternLength: nat
    var screenWidth: nat
    var board: seq<string>

    /** The indentation that centres the board: a quarter of the screen
        width, rounded down. */
    function Margin(): (r: string)
      reads this`screenWidth
      ensures |r| == screenWidth / 4
    {
      Repeat(' ', screenWidth / 4)
    }

    /** `__create_row`: the margin, then a border, a guess area of
        `3 * patternLength + 2` slots, a border, a feedback area of
        `2 * patternLength + 1` slots and a border. */
    function CreateRow(border: string, slot: string): (r: string)
      reads this`screenWidth, this`patternLength
      ensures |r| == screenWidth / 4 + 3 * |border| + (5 * patternLength + 3) * |slot|
    {
      Margin() + border + Times(slot, patternLength * 3 + 2) + border + Times(slot, patternLength * 2 + 1) + border
    }

    /** The row `update` writes: the margin, each peg followed by two spaces,
        each key followed by one space, two spaces per missing key. */
    function GuessRow(guess: seq<char>, feedback: seq<char>): (r: string)
      reads this`screenWidth, this`patternLength
    {
      Margin() + "|  " + Pegs(guess) + "| " + Keys(feedback) + Times("  ", Remaining(patternLength, |feedback|)) + "|"
    }

    /** `__init__`: a border row, `2 * turns + 1` blank rows, a border row. */
    constructor (patternLength: nat, screenWidth: nat, turns: nat)
      ensures this.patternLength == patternLength && this.screenWidth == screenWidth
      ensures board == [CreateRow("+", "-")] + Repeat(CreateRow("|", " "), turns * 2 + 1) + [CreateRow("+", "-")]
    {
      this.patternLength := patternLength;
      this.screenWidth := screenWidth;
      board := [];
      new;
      var boardRow := CreateRow("|", " ");
      var boardEnd := CreateRow("+", "-");
      board := [boardEnd];
      for row := 0 to turns * 2 + 1
        modifies this`board
        invariant board == [boardEnd] + Repeat(boardRow, row)
      {
        RepeatSnoc(boardRow, row);
        board := board + [boardRow];
      }
      board := board + [boardEnd];
    }

    /** `update`: write the guess row of `turn` at index `(turn + 1) * 2`; an
        index past the last row is an error and changes nothing. */
    method Update(turn: nat, guess: seq<char>, feedback: seq<char>) returns (outcome: Outcome)
      modifies this`board
      ensures (turn + 1) * 2 < |old(board)| ==>
        outcome == Pass && board == old(board)[(turn + 1) * 2 := GuessRow(guess, feedback)]
      ensures (turn + 1) * 2 >= |old(board)| ==> outcome == Fail(IndexOutOfRange) && board == old(board)
    {
      var boardRow := Margin() + "|  ";
      ghost var start := boardRow;
      for i := 0 to |guess|
        invariant boardRow == start + Pegs(guess[..i])
      {
        assert guess[..i + 1][..i] == guess[..i];
        boardRow := boardRow + [guess[i]] + "  ";   // add guess
      }
      assert guess[..|guess|] == guess;
      boardRow := boardRow + "| ";
      start := boardRow;
      for j := 0 to |feedback|
        invariant boardRow == start + Keys(feedback[..j])
      {
        assert feedback[..j + 1][..j] == feedback[..j];
        boardRow := boardRow + [feedback[j]] + " ";   // add feedback
      }
      assert feedback[..|feedback|] == feedback;
      start := boardRow;
      for k := 0 to Remaining(patternLength, |feedback|)
        invariant boardRow == start + Times("  ", k)
      {
        boardRow := boardRow + "  ";   // add empty slots
      }
      boardRow := boardRow + "|";
      if (turn + 1) * 2 >= |board| {
        return Fail(IndexOutOfRange);
      }
      board := board[(turn + 1) * 2 := boardRow];
      return Pass;
    }
  }

  /** With single-character border and slot the row is
      `screenWidth / 4 + 5 * patternLength + 6` characters wide. */
  lemma RowWidth(b: Board)
    ensures |b.CreateRow("|", " ")| == |b.CreateRow("+", "-")| == b.screenWidth / 4 + 5 * b.patternLength + 6
  {
  }

  /** A full guess with at most one key per peg fills exactly the width of a
      blank row: its pegs sit at every third column of the guess area, and its
      keys at every second column of the feedback area. */
  lemma GuessRowShape(b: Board, guess: seq<char>, feedback: seq<char>)
    requires |guess| == b.patternLength && |feedback| <= b.patternLength
    ensures |b.GuessRow(guess, feedback)| == |b.CreateRow("|", " ")|
    ensures forall i :: 0 <= i < |guess| ==> b.GuessRow(guess, feedback)[b.screenWidth / 4 + 3 + 3 * i] == guess[i]
    ensures forall j :: 0 <= j < |feedback| ==>
      b.GuessRow(guess, feedback)[b.screenWidth / 4 + 3 * |guess| + 5 + 2 * j] == feedback[j]
  {
    var m := b.screenWidth / 4;
    var row := b.GuessRow(guess, feedback);
    var pegs, keys := Pegs(guess), Keys(feedback);
    assert row == b.Margin() + "|  " + pegs + "| " + keys + Times("  ", Remaining(b.patternLength, |feedback|)) + "|";
    forall i | 0 <= i < |guess| ensures row[m + 3 + 3 * i] == guess[i] {
      PegAt(guess, i);
      assert row[m + 3 + 3 * i] == pegs[3 * i];
    }
    forall j | 0 <= j < |feedback| ensures row[m + 3 * |guess| + 5 + 2 * j] == feedback[j] {
      KeyAt(feedback, j);
      assert row[m + 3 * |guess| + 5 + 2 * j] == keys[2 * j];
    }
  }

  /** On a board built for `turns` turns, the update of any turn of the game
      lands inside the board, on a blank row, and leaves both border rows as
      they were. */
  lemma UpdateKeepsBorders(border: string, blank: string, turns: nat, turn: nat, row: string, b: seq<string>)
    requires turn < turns && b == [border] + Repeat(blank, turns * 2 + 1) + [border]
    ensures (turn + 1) * 2 < |b| && b[(turn + 1) * 2] == blank
    ensures b[(turn + 1) * 2 := row][0] == border && b[(turn + 1) * 2 := row][|b| - 1] == border
  {
  }
}
