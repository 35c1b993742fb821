/**
  The rules of the 3x3 amoba (tic-tac-toe) game, as pure values and functions.

  A board is nine cells in row-major order (row = index / 3, column = index % 3).
  A cell is empty or holds the mark of one of the two players, X (who moves first)
  or O. The view model in module AmobaGame is proved against these definitions.
 */
module AmobaRules {

  /** The side length of the board. */
  const BoardSize: nat := 3

  /** The number of cells on the board. */
  const CellCount: nat := BoardSize * BoardSize

  datatype Option<T> = None | Some(value: T)

  datatype Mark = X | O

  /** A cell's content; the view model's cell content is a string, and both null and "" are Empty. */
  datatype Cell = Empty | Marked(mark: Mark)

  /** What a click announces: a win on the line (start, step), a draw, or nothing. */
  datatype Outcome = InProgress | Win(mark: Mark, start: nat, step: nat) | Draw

  /** The whole game state: the board and whether it is X's turn. */
  datatype GameState = GameState(board: seq<Cell>, player1Turn: bool)

  /** The state after a click, with the announcement it made. */
  datatype Transition = Transition(next: GameState, outcome: Outcome)

  /** The mark placed by the player whose turn it is. */
  function MarkFor(player1Turn: bool): (m: Mark)
    ensures m == X <==> player1Turn
    ensures m == O <==> !player1Turn
  {
    if player1Turn then X else O
  }

  /** The board a new game starts with: nine cells, none of them marked. */
  function EmptyBoard(): (b: seq<Cell>)
    ensures |b| == CellCount
    ensures forall i :: 0 <= i < |b| ==> b[i] == Empty
  {
    seq(CellCount, _ => Empty)
  }

  /** The state a new game starts in: an empty board and X to move. */
  function Initial(): (s: GameState)
    ensures s.player1Turn && |s.board| == CellCount
    ensures forall i :: 0 <= i < |s.board| ==> s.board[i] == Empty
  {
    GameState(EmptyBoard(), true)
  }

  /** The cells a line check visits: start, start + step and start + 2 * step. */
  function LineCells(start: nat, step: nat): seq<nat>
  {
    [start, start + step, start + 2 * step]
  }

  /** All three cells of the line are non-empty and equal to the first one. */
  predicate LineComplete(b: seq<Cell>, start: nat, step: nat)
    requires start + 2 * step < |b|
    ensures LineComplete(b, start, step) ==>
              b[start + step] != Empty && b[start + 2 * step] != Empty
  {
    && b[start] != Empty
    && b[start + step] == b[start]
    && b[start + 2 * step] == b[start]
  }

  /**
    A line is complete exactly when every cell the line check visits is
    non-empty and equal to the line's first cell.
   */
  lemma LineCompleteOnCells(b: seq<Cell>, start: nat, step: nat)
    requires start + 2 * step < |b|
    ensures LineComplete(b, start, step) <==>
              forall t :: t in LineCells(start, step) ==> t < |b| && b[t] != Empty && b[t] == b[start]
  {
  }

  /**
    The eight lines as (start, step), in the order the win check visits them:
    the rows top to bottom, the columns left to right, the main diagonal and
    the anti-diagonal.
   */
  const Lines: seq<(nat, nat)> :=
    [(0, 1), (3, 1), (6, 1), (0, 3), (1, 3), (2, 3), (0, 4), (2, 2)]

  predicate IsLine(start: nat, step: nat)
  {
    (start, step) in Lines
  }

  /** Every line of Lines lies on the board. */
  lemma LinesOnBoard()
    ensures |Lines| == 8
    ensures forall k :: 0 <= k < |Lines| ==> 1 <= Lines[k].1 && Lines[k].0 + 2 * Lines[k].1 < CellCount
  {
  }

  /**
    Lines holds the rows {3r, 3r+1, 3r+2} top to bottom, then the columns
    {c, c+3, c+6} left to right, then the diagonals {0, 4, 8} and {2, 4, 6}.
   */
  lemma LinesAreRowsColumnsDiagonals()
    ensures forall r :: 0 <= r < BoardSize ==>
              LineCells(Lines[r].0, Lines[r].1) == [BoardSize * r, BoardSize * r + 1, BoardSize * r + 2]
    ensures forall k :: BoardSize <= k < 2 * BoardSize ==>
              LineCells(Lines[k].0, Lines[k].1) == [k - BoardSize, k, k + BoardSize]
    ensures LineCells(Lines[6].0, Lines[6].1) == [0, 4, 8]
    ensures LineCells(Lines[7].0, Lines[7].1) == [2, 4, 6]
  {
  }

  /** The k-th line of Lines is complete on b. */
  predicate LineAtComplete(b: seq<Cell>, k: nat)
    requires |b| == CellCount && k < |Lines|
  {
    LineComplete(b, Lines[k].0, Lines[k].1)
  }

  /** No line of the board is complete. */
  predicate NoLineComplete(b: seq<Cell>)
    requires |b| == CellCount
  {
    forall k :: 0 <= k < |Lines| ==> !LineAtComplete(b, k)
  }

  /** Every cell of the board is occupied. */
  predicate Full(b: seq<Cell>)
    ensures Full(b) <==> Empty !in b
  {
    forall i :: 0 <= i < |b| ==> b[i] != Empty
  }

  /**
    The position in Lines of the first complete line at position `from` or later,
    or None when there is none.
   */
  function FirstComplete(b: seq<Cell>, from: nat): (r: Option<nat>)
    requires |b| == CellCount && from <= |Lines|
    ensures r.Some? ==> from <= r.value < |Lines| && LineAtComplete(b, r.value)
    ensures r.Some? ==> forall j :: from <= j < r.value ==> !LineAtComplete(b, j)
    ensures r.None? <==> forall j :: from <= j < |Lines| ==> !LineAtComplete(b, j)
    decreases |Lines| - from
  {
    if from == |Lines| then None
    else if LineAtComplete(b, from) then Some(from)
    else FirstComplete(b, from + 1)
  }

  /**
    The result of evaluating a board: the first complete line in Lines order is a
    win for the mark on it; with no complete line a full board is a draw.
   */
  function Evaluate(b: seq<Cell>): (o: Outcome)
    requires |b| == CellCount
    ensures forall k :: 0 <= k < |Lines| && LineAtComplete(b, k) && (forall j :: 0 <= j < k ==> !LineAtComplete(b, j))
              ==> o == Win(b[Lines[k].0].mark, Lines[k].0, Lines[k].1)
    ensures o.Win? ==> IsLine(o.start, o.step) && o.start + 2 * o.step < |b|
                       && LineComplete(b, o.start, o.step) && b[o.start] == Marked(o.mark)
    ensures o.Draw? <==> NoLineComplete(b) && Full(b)
    ensures o.InProgress? <==> NoLineComplete(b) && !Full(b)
  {
    match FirstComplete(b, 0)
    case Some(k) => Win(b[Lines[k].0].mark, Lines[k].0, Lines[k].1)
    case None => if Full(b) then Draw else InProgress
  }

  /**
    One click on cell i. An occupied cell changes nothing. Otherwise the current
    player's mark is placed, the turn passes, and the board is evaluated; a win or
    a draw starts a new game at once.
   */
  function Click(s: GameState, i: nat): (t: Transition)
    requires |s.board| == CellCount && i < CellCount
    ensures |t.next.board| == CellCount
    ensures t.outcome.Win? || t.outcome.Draw? ==> t.next == Initial()
  {
    if s.board[i] != Empty then
      Transition(s, InProgress)
    else
      var placed := s.board[i := Marked(MarkFor(s.player1Turn))];
      var o := Evaluate(placed);
      if o.InProgress? then Transition(GameState(placed, !s.player1Turn), o)
      else Transition(Initial(), o)
  }

  /** Clicking an occupied cell changes neither the board nor the turn. */
  lemma ClickOccupiedIsNoOp(s: GameState, i: nat)
    requires |s.board| == CellCount && i < CellCount
    requires s.board[i] != Empty
    ensures Click(s, i) == Transition(s, InProgress)
  {
  }

  /**
    A click on an empty cell that does not end the game writes the current
    player's mark there, leaves the other cells alone and passes the turn.
   */
  lemma ClickEmptyContinues(s: GameState, i: nat)
    requires |s.board| == CellCount && i < CellCount
    requires s.board[i] == Empty
    requires Click(s, i).outcome.InProgress?
    ensures Click(s, i).next.board[i] == Marked(MarkFor(s.player1Turn))
    ensures forall j :: 0 <= j < CellCount && j != i ==> Click(s, i).next.board[j] == s.board[j]
    ensures Click(s, i).next.player1Turn == !s.player1Turn
  {
  }

  /** A click that ends the game leaves an empty board with X to move. */
  lemma TerminalClickResets(s: GameState, i: nat)
    requires |s.board| == CellCount && i < CellCount
    requires !Click(s, i).outcome.InProgress?
    ensures s.board[i] == Empty
    ensures forall j :: 0 <= j < CellCount ==> Click(s, i).next.board[j] == Empty
    ensures Click(s, i).next.player1Turn
  {
  }

  /** A row that is complete is reported before any column or diagonal. */
  lemma RowsComeFirst(b: seq<Cell>, r: nat)
    requires |b| == CellCount && r < BoardSize
    requires LineComplete(b, BoardSize * r, 1)
    ensures Evaluate(b).Win? && Evaluate(b).step == 1 && Evaluate(b).start <= BoardSize * r
  {
  }

  // ---------------------------------------------------------------------------
  // Mark counts and the invariant of the states a game can reach between clicks
  // ---------------------------------------------------------------------------

  /** The number of cells of b equal to c. */
  function Count(b: seq<Cell>, c: Cell): (n: nat)
    ensures n <= |b|
  {
    if b == [] then 0 else (if b[0] == c then 1 else 0) + Count(b[1..], c)
  }

  /** Writing mark m into an empty cell adds one m and leaves the other count alone. */
  lemma {:induction false} CountPlace(b: seq<Cell>, i: nat, m: Mark, c: Cell)
    requires i < |b| && b[i] == Empty
    ensures Count(b[i := Marked(m)], c)
         == if c == Marked(m) then Count(b, c) + 1
            else if c == Empty then Count(b, c) - 1
            else Count(b, c)
  {
    var b' := b[i := Marked(m)];
    assert b'[1..] == if i == 0 then b[1..] else b[1..][i - 1 := Marked(m)];
    if i > 0 {
      CountPlace(b[1..], i - 1, m, c);
    }
  }

  /** On a full board every cell holds X or O. */
  lemma {:induction false} CountFull(b: seq<Cell>)
    requires Full(b)
    ensures Count(b, Marked(X)) + Count(b, Marked(O)) == |b|
  {
    if b != [] {
      assert b[0].mark == X || b[0].mark == O;
      assert Count(b, Marked(X)) == (if b[0] == Marked(X) then 1 else 0) + Count(b[1..], Marked(X));
      assert Count(b, Marked(O)) == (if b[0] == Marked(O) then 1 else 0) + Count(b[1..], Marked(O));
      assert Full(b[1..]) by {
        forall i | 0 <= i < |b[1..]| ensures b[1..][i] != Empty { assert b[1..][i] == b[i + 1]; }
      }
      CountFull(b[1..]);
    }
  }

  lemma {:induction false} CountEmptyBoard(n: nat)
    ensures Count(seq(n, _ => Empty), Marked(X)) == 0 && Count(seq(n, _ => Empty), Marked(O)) == 0
  {
    if n > 0 {
      assert seq(n, _ => Empty)[1..] == seq(n - 1, _ => Empty);
      CountEmptyBoard(n - 1);
    }
  }

  /**
    What holds of every state between clicks: no line is complete, the board is
    not full (a click that fills it always ends the game and starts a new one),
    X has as many marks as O or one more, and it is X's turn exactly when the
    counts are equal.
   */
  predicate Reachable(s: GameState)
  {
    && |s.board| == CellCount
    && NoLineComplete(s.board)
    && !Full(s.board)
    && var xs, os := Count(s.board, Marked(X)), Count(s.board, Marked(O));
       (xs == os || xs == os + 1) && (s.player1Turn <==> xs == os)
  }

  lemma InitialReachable()
    ensures Count(Initial().board, Marked(X)) == 0 && Count(Initial().board, Marked(O)) == 0
    ensures Reachable(Initial())
  {
    CountEmptyBoard(CellCount);
    assert Initial().board[0] == Empty;
  }

  /** Every click keeps the game in a reachable state. */
  lemma ClickPreservesReachable(s: GameState, i: nat)
    requires Reachable(s) && i < CellCount
    ensures Reachable(Click(s, i).next)
  {
    var t := Click(s, i);
    if s.board[i] == Empty {
      if t.outcome.InProgress? {
        var m := MarkFor(s.player1Turn);
        CountPlace(s.board, i, m, Marked(X));
        CountPlace(s.board, i, m, Marked(O));
      } else {
        InitialReachable();
      }
    }
  }

  /** Writing into a cell that a line does not visit does not change whether that line is complete. */
  lemma LineOffCellUnaffected(b: seq<Cell>, i: nat, c: Cell, k: nat)
    requires |b| == CellCount && i < CellCount && k < |Lines|
    requires i !in LineCells(Lines[k].0, Lines[k].1)
    ensures LineAtComplete(b[i := c], k) <==> LineAtComplete(b, k)
  {
  }

  /**
    When writing c into cell i of a board with no complete line produces a win,
    the winning line passes through i and its mark is c.
   */
  lemma WinLineHoldsMove(b: seq<Cell>, i: nat, c: Cell)
    requires |b| == CellCount && i < CellCount && NoLineComplete(b)
    requires Evaluate(b[i := c]).Win?
    ensures i in LineCells(Evaluate(b[i := c]).start, Evaluate(b[i := c]).step)
    ensures c == Marked(Evaluate(b[i := c]).mark)
  {
    var placed := b[i := c];
    var k := FirstComplete(placed, 0).value;
    var (start, step) := Lines[k];
    assert Evaluate(placed) == Win(placed[start].mark, start, step);
    if i !in LineCells(start, step) {
      LineOffCellUnaffected(b, i, c, k);
      assert false;
    }
  }

  /** In a reachable game the winner announced is always the player who just moved. */
  lemma WinnerIsMover(s: GameState, i: nat)
    requires Reachable(s) && i < CellCount
    requires Click(s, i).outcome.Win?
    ensures s.board[i] == Empty
    ensures Click(s, i).outcome.mark == MarkFor(s.player1Turn)
    ensures i in LineCells(Click(s, i).outcome.start, Click(s, i).outcome.step)
  {
    WinLineHoldsMove(s.board, i, Marked(MarkFor(s.player1Turn)));
  }

  /** A draw is only ever announced after X's fifth mark, never after one of O's. */
  lemma DrawFollowsXMove(s: GameState, i: nat)
    requires Reachable(s) && i < CellCount
    requires Click(s, i).outcome.Draw?
    ensures s.player1Turn
    ensures Count(s.board, Marked(X)) == 4 && Count(s.board, Marked(O)) == 4
  {
    var m := MarkFor(s.player1Turn);
    var placed := s.board[i := Marked(m)];
    CountFull(placed);
    CountPlace(s.board, i, m, Marked(X));
    CountPlace(s.board, i, m, Marked(O));
  }

  /** The state reached from a new game by a sequence of clicks. */
  function StateAfter(clicks: seq<nat>): (s: GameState)
    requires forall k :: 0 <= k < |clicks| ==> clicks[k] < CellCount
    ensures |s.board| == CellCount
  {
    if clicks == [] then Initial()
    else Click(StateAfter(clicks[..|clicks| - 1]), clicks[|clicks| - 1]).next
  }

  /** Every state a game can reach by clicking from a new game satisfies Reachable. */
  lemma {:induction false} PlayedStatesAreReachable(clicks: seq<nat>)
    requires forall k :: 0 <= k < |clicks| ==> clicks[k] < CellCount
    ensures Reachable(StateAfter(clicks))
  {
    if clicks == [] {
      InitialReachable();
    } else {
      var prefix := clicks[..|clicks| - 1];
      PlayedStatesAreReachable(prefix);
      ClickPreservesReachable(StateAfter(prefix), clicks[|clicks| - 1]);
    }
  }

  /** Any first click of a new game places X there, passes the turn to O and continues. */
  lemma FirstClick(i: nat)
    requires i < CellCount
    ensures Click(Initial(), i) == Transition(GameState(EmptyBoard()[i := Marked(X)], false), InProgress)
  {
  }

  /**
    Clicking the same cell twice is the same as clicking it once, provided the
    first click did not end the game.
   */
  lemma ClickTwiceIsClickOnce(s: GameState, i: nat)
    requires |s.board| == CellCount && i < CellCount
    requires Click(s, i).outcome.InProgress?
    ensures Click(Click(s, i).next, i) == Transition(Click(s, i).next, InProgress)
  {
  }

  /**
    When the first click ends the game, a second click on the same cell is not a
    no-op: the board was reset, so it places X there again.
   */
  lemma ClickTwiceAfterWinIsNotClickOnce()
    ensures var s := GameState([Marked(X), Marked(X), Empty, Marked(O), Marked(O), Empty, Empty, Empty, Empty], true);
            && Click(s, 2).outcome == Win(X, 0, 1)
            && Click(Click(s, 2).next, 2).next.board[2] == Marked(X)
            && Click(Click(s, 2).next, 2).next != Click(s, 2).next
  {
  }

  /** A click on an empty cell that completes no line and leaves a cell free continues the game. */
  lemma ClickContinuesOn(s: GameState, i: nat, b: seq<Cell>, free: nat)
    requires |s.board| == CellCount && i < CellCount && s.board[i] == Empty
    requires b == s.board[i := Marked(MarkFor(s.player1Turn))]
    requires free < CellCount && b[free] == Empty
    requires !LineComplete(b, 0, 1) && !LineComplete(b, 3, 1) && !LineComplete(b, 6, 1)
    requires !LineComplete(b, 0, 3) && !LineComplete(b, 1, 3) && !LineComplete(b, 2, 3)
    requires !LineComplete(b, 0, 4) && !LineComplete(b, 2, 2)
    ensures Click(s, i) == Transition(GameState(b, !s.player1Turn), InProgress)
  {
  }

  // The boards of a drawn game: X on 0, 1, 5, 6, 7 and O on 2, 3, 4, 8, played
  // in the order 0, 2, 1, 3, 5, 4, 6, 8, 7.
  const DrawBoards: seq<seq<Cell>> := [
    [Empty, Empty, Empty, Empty, Empty, Empty, Empty, Empty, Empty],
    [Marked(X), Empty, Empty, Empty, Empty, Empty, Empty, Empty, Empty],
    [Marked(X), Empty, Marked(O), Empty, Empty, Empty, Empty, Empty, Empty],
    [Marked(X), Marked(X), Marked(O), Empty, Empty, Empty, Empty, Empty, Empty],
    [Marked(X), Marked(X), Marked(O), Marked(O), Empty, Empty, Empty, Empty, Empty],
    [Marked(X), Marked(X), Marked(O), Marked(O), Empty, Marked(X), Empty, Empty, Empty],
    [Marked(X), Marked(X), Marked(O), Marked(O), Marked(O), Marked(X), Empty, Empty, Empty],
    [Marked(X), Marked(X), Marked(O), Marked(O), Marked(O), Marked(X), Marked(X), Empty, Empty],
    [Marked(X), Marked(X), Marked(O), Marked(O), Marked(O), Marked(X), Marked(X), Empty, Marked(O)],
    [Marked(X), Marked(X), Marked(O), Marked(O), Marked(O), Marked(X), Marked(X), Marked(X), Marked(O)]
  ]
  const DrawMoves: seq<nat> := [0, 2, 1, 3, 5, 4, 6, 8, 7]

  /** The n-th click of the drawn game continues it from board n to board n + 1. */
  lemma DrawOpeningStep(n: nat)
    requires n < 8
    ensures |DrawBoards[n]| == CellCount && DrawMoves[n] < CellCount
    ensures Click(GameState(DrawBoards[n], n % 2 == 0), DrawMoves[n])
         == Transition(GameState(DrawBoards[n + 1], n % 2 != 0), InProgress)
  {
    // cell 7 stays free until the last click
    ClickContinuesOn(GameState(DrawBoards[n], n % 2 == 0), DrawMoves[n], DrawBoards[n + 1], 7);
  }

  /** The last click of the drawn game fills the board without a line. */
  lemma DrawLastClick()
    ensures |DrawBoards[8]| == CellCount
    ensures Click(GameState(DrawBoards[8], true), 7) == Transition(Initial(), Draw)
  {
  }

  /**
    The drawn game played from a new game: no click before the last ends it, and
    the last fills the board without a line, so a draw is announced and a new
    game begins.
   */
  lemma ClassicDraw()
    ensures GameState(DrawBoards[0], true) == Initial()
    ensures forall n :: 0 <= n < 8 ==>
              |DrawBoards[n]| == CellCount && DrawMoves[n] < CellCount
              && Click(GameState(DrawBoards[n], n % 2 == 0), DrawMoves[n])
                 == Transition(GameState(DrawBoards[n + 1], n % 2 != 0), InProgress)
    ensures |DrawBoards[8]| == CellCount
            && Click(GameState(DrawBoards[8], true), DrawMoves[8]) == Transition(Initial(), Draw)
  {
    forall n | 0 <= n < 8
      ensures |DrawBoards[n]| == CellCount && DrawMoves[n] < CellCount
      ensures Click(GameState(DrawBoards[n], n % 2 == 0), DrawMoves[n])
              == Transition(GameState(DrawBoards[n + 1], n % 2 != 0), InProgress)
    {
      DrawOpeningStep(n);
    }
    DrawLastClick();
    assert DrawBoards[0] == EmptyBoard();
  }

  /**
    X completes the top row and the left column with the same click on cell 0,
    from a state a game can reach: the top row is the one reported.
   */
  lemma RowBeatsColumnExample()
    ensures var s := GameState([Empty, Marked(X), Marked(X), Marked(X), Marked(O), Marked(O), Marked(X), Marked(O), Marked(O)], true);
            && Reachable(s)
            && LineComplete(s.board[0 := Marked(X)], 0, 1)
            && LineComplete(s.board[0 := Marked(X)], 0, 3)
            && Click(s, 0) == Transition(Initial(), Win(X, 0, 1))
  {
    var s := GameState([Empty, Marked(X), Marked(X), Marked(X), Marked(O), Marked(O), Marked(X), Marked(O), Marked(O)], true);
    assert Count(s.board, Marked(X)) == 4 && Count(s.board, Marked(O)) == 4;
    assert NoLineComplete(s.board) by {
      forall k | 0 <= k < |Lines| ensures !LineAtComplete(s.board, k) {
        assert s.board[Lines[k].0] == Empty || s.board[Lines[k].0 + Lines[k].1] != s.board[Lines[k].0];
      }
    }
    assert LineAtComplete(s.board[0 := Marked(X)], 0);
  }

}
