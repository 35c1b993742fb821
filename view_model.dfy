/**
  The game engine: the view model that owns the board and the turn and reacts to
  cell clicks and new-game requests. Each method is proved against the rules in
  module AmobaRules; the win and draw message boxes become the returned Outcome.
 */
module AmobaGame {
  import opened AmobaRules

  class AmobaViewModel {
    /** The cells in row-major order; NewGame clears the list and adds nine empty cells. */
    var board: seq<Cell>
    /** True when X moves next. */
    var player1Turn: bool

    ghost predicate Valid()
      reads this
    {
      |board| == CellCount
    }

    /** The board and the turn as one value. */
    ghost function State(): GameState
      reads this
    {
      GameState(board, player1Turn)
    }

    /** A fresh view model starts a new game. */
    constructor ()
      ensures Valid() && State() == Initial()
      ensures Reachable(State())
    {
      board := [];
      player1Turn := false;
      new;
      NewGame();
      InitialReachable();
    }

    /** Clears the board to nine empty cells and gives the turn to X. */
    method NewGame()
      modifies this
      ensures Valid() && State() == Initial()
    {
      board := [];
      player1Turn := true;
      var i := 0;
      while i < BoardSize * BoardSize
        invariant 0 <= i <= CellCount && |board| == i
        invariant forall j :: 0 <= j < i ==> board[j] == Empty
        invariant player1Turn
      {
        board := board + [Empty];
        i := i + 1;
      }
      assert board == EmptyBoard();
    }

    /**
      A click on cell i: an occupied cell is ignored; otherwise the current mark
      is written, the turn passes and the board is checked for a win or a draw.
     */
    method CellClick(i: nat) returns (outcome: Outcome)
      requires Valid() && i < CellCount
      modifies this
      ensures Valid()
      ensures Transition(State(), outcome) == Click(old(State()), i)
      ensures old(Reachable(State())) ==> Reachable(State())
    {
      ghost var before := State();
      if board[i] != Empty {
        return InProgress;
      }
      board := board[i := Marked(MarkFor(player1Turn))];
      player1Turn := !player1Turn;
      outcome := CheckWin();
      if Reachable(before) {
        ClickPreservesReachable(before, i);
      }
    }

    /**
      Checks the rows top to bottom, the columns left to right, then the main and
      the anti-diagonal; the first complete line wins and starts a new game. With
      no complete line a full board is a draw, which also starts a new game.
     */
    method CheckWin() returns (outcome: Outcome)
      requires Valid()
      modifies this
      ensures Valid()
      ensures outcome == Evaluate(old(board))
      ensures outcome.InProgress? ==> board == old(board) && player1Turn == old(player1Turn)
      ensures !outcome.InProgress? ==> State() == Initial()
    {
      var i := 0;
      while i < BoardSize
        invariant 0 <= i <= BoardSize
        invariant board == old(board) && player1Turn == old(player1Turn)
        invariant forall k :: 0 <= k < i ==> !LineAtComplete(board, k)
      {
        assert Lines[i] == (BoardSize * i, 1);
        outcome := CheckLine(BoardSize * i, 1);
        if outcome.Win? {
          return;
        }
        i := i + 1;
      }

      i := 0;
      while i < BoardSize
        invariant 0 <= i <= BoardSize
        invariant board == old(board) && player1Turn == old(player1Turn)
        invariant forall k :: 0 <= k < BoardSize + i ==> !LineAtComplete(board, k)
      {
        assert Lines[BoardSize + i] == (i, BoardSize);
        outcome := CheckLine(i, BoardSize);
        if outcome.Win? {
          return;
        }
        i := i + 1;
      }

      outcome := CheckLine(0, BoardSize + 1);
      if outcome.Win? {
        return;
      }
      outcome := CheckLine(BoardSize - 1, BoardSize - 1);
      if outcome.Win? {
        return;
      }

      if Full(board) {
        outcome := Draw;
        NewGame();
      } else {
        outcome := InProgress;
      }
    }

    /**
      Visits start, start + step and start + 2 * step, stopping at the first cell
      that is empty or differs from the first. When all three match, the line is
      a win for their mark and a new game starts.
     */
    method CheckLine(start: nat, step: nat) returns (outcome: Outcome)
      requires Valid() && 1 <= step && start + 2 * step < CellCount
      modifies this
      ensures Valid()
      ensures LineComplete(old(board), start, step) ==>
                outcome == Win(old(board)[start].mark, start, step) && State() == Initial()
      ensures !LineComplete(old(board), start, step) ==>
                outcome == InProgress && board == old(board) && player1Turn == old(player1Turn)
      ensures outcome.Win? <==>
                forall t :: t in LineCells(start, step) ==> old(board)[t] != Empty && old(board)[t] == old(board)[start]
    {
      ghost var cells := LineCells(start, step);
      var i := start;
      while i < start + BoardSize * step
        invariant i == start || i == start + step || i == start + 2 * step || i == start + 3 * step
        invariant forall t :: t in cells && t < i ==> board[t] != Empty && board[t] == board[start]
        decreases start + BoardSize * step - i
      {
        if board[i] == Empty || board[i] != board[start] {
          return InProgress;
        }
        i := i + step;
      }
      var winner := board[start].mark;
      NewGame();
      outcome := Win(winner, start, step);
    }
  }
}
