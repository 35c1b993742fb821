# Amoba (3×3 tic-tac-toe) game engine in Dafny

This project models the game engine of the EgyszeruJatek desktop game: the view
model `AmobaViewModel` that owns a 3×3 board and a turn flag. It reacts to two
requests. A cell click places the current player's mark. A new-game request
clears the board. After each placed mark it checks the eight lines for a win,
then the board for a draw, and it starts a new game as soon as either is found.

Two modules:

- `AmobaRules` (`rules.dfy`) holds the rules as pure values and functions:
  - cells (`Empty`, `Marked(X)`, `Marked(O)`) and the board as nine cells in row-major order;
  - the line test `LineComplete` and the eight lines `Lines`, in the order the engine checks them;
  - `Evaluate`, which gives the outcome of a board;
  - `Click`, the effect of one click on the board and the turn;
  - the invariant `Reachable`, which holds between clicks, and the lemmas about all of these.
- `AmobaGame` (`view_model.dfy`) holds the class `AmobaViewModel`. It has the fields
  `board` and `player1Turn` and the methods `NewGame`, `CellClick`, `CheckWin` and
  `CheckLine`, written as loops and in-place updates like the original. Each method is
  proved against the functions of `AmobaRules`.

The board is a `seq<Cell>` field. `NewGame` empties it and appends nine empty cells
in a loop, as the original clears its observable collection and adds new cells.
A click writes one element. The two message boxes (win and draw) become the `Outcome`
that `CellClick`, `CheckWin` and `CheckLine` return: `Win(mark, start, step)`, `Draw`
or `InProgress`. A line is named by its first cell and the distance between its cells,
as in the original's `CheckLine(start, step)`.

The model follows the code in two places where a reader might expect different behaviour:

- There is no error for an index outside 0..8.
  The code receives a cell object and has no such case, so `CellClick` requires `i < 9`.
- Clicking the same cell twice is not always the same as clicking it once.
  It is the same only when the first click does not end the game (`ClickTwiceIsClickOnce`).
  When the first click wins, the board has already been reset, so the second click places
  a new X (`ClickTwiceAfterWinIsNotClickOnce`).

## Model

| member | source | states |
|---|---|---|
| `AmobaRules.MarkFor` | EgyszeruJatek/EgyszeruJatek/MainWindow.xaml.cs:59 | the mark placed is X exactly when it is player 1's turn, and O exactly when it is not |
| `AmobaRules.EmptyBoard` | EgyszeruJatek/EgyszeruJatek/MainWindow.xaml.cs:45-51 | the board of a new game has nine cells, all empty |
| `AmobaRules.Initial` | EgyszeruJatek/EgyszeruJatek/MainWindow.xaml.cs:43-52 | a new game is nine empty cells with X to move |
| `AmobaRules.LineComplete` | EgyszeruJatek/EgyszeruJatek/MainWindow.xaml.cs:88-94 | a complete line has all three of its cells non-empty, not just the first |
| `AmobaRules.LineCompleteOnCells` | EgyszeruJatek/EgyszeruJatek/MainWindow.xaml.cs:90-94 | a line is complete if and only if each of its three cells start, start+step and start+2·step is non-empty and equal to the cell at start |
| `AmobaRules.Full` | EgyszeruJatek/EgyszeruJatek/MainWindow.xaml.cs:81 | the board counts as full (every cell non-empty) exactly when no cell is empty |
| `AmobaRules.LinesOnBoard` | EgyszeruJatek/EgyszeruJatek/MainWindow.xaml.cs:67-78 | there are eight (start, step) pairs; each has step ≥ 1 and all three cells on the board |
| `AmobaRules.LinesAreRowsColumnsDiagonals` | EgyszeruJatek/EgyszeruJatek/MainWindow.xaml.cs:67-78 | in check order, the lines are the rows {3r, 3r+1, 3r+2}, then the columns {c, c+3, c+6}, then {0, 4, 8}, then {2, 4, 6} |
| `AmobaRules.FirstComplete` | EgyszeruJatek/EgyszeruJatek/MainWindow.xaml.cs:67-79 | the line returned is complete and no earlier line in check order is; None exactly when no later line is complete |
| `AmobaRules.Evaluate` | EgyszeruJatek/EgyszeruJatek/MainWindow.xaml.cs:65-99 | the first complete line in check order is reported as a win for the mark on it; a draw exactly when no line is complete and all nine cells are filled; otherwise in progress, so a win takes precedence over a draw |
| `AmobaRules.Click` | EgyszeruJatek/EgyszeruJatek/MainWindow.xaml.cs:54-63 | the board keeps nine cells; after a win or a draw the state is a new game (empty board, X to move), although the turn had just been flipped |
| `AmobaRules.ClickOccupiedIsNoOp` | EgyszeruJatek/EgyszeruJatek/MainWindow.xaml.cs:56-57 | a click on an occupied cell changes neither the board nor the turn |
| `AmobaRules.ClickEmptyContinues` | EgyszeruJatek/EgyszeruJatek/MainWindow.xaml.cs:59-62 | a click on an empty cell that does not end the game writes X when it was X's turn and O otherwise; the other eight cells are unchanged and the turn is negated |
| `AmobaRules.TerminalClickResets` | EgyszeruJatek/EgyszeruJatek/MainWindow.xaml.cs:81-97 | a click that announces a win or a draw was on an empty cell and leaves all nine cells empty with X to move |
| `AmobaRules.RowsComeFirst` | EgyszeruJatek/EgyszeruJatek/MainWindow.xaml.cs:67-71 | when some row is complete, a row win is reported (step 1), never a column or diagonal, and it is that row or one above it |
| `AmobaRules.RowBeatsColumnExample` | EgyszeruJatek/EgyszeruJatek/MainWindow.xaml.cs:67-77 | from a reachable state (four X, four O, X to move), X's click on cell 0 completes both the top row and the left column; the top row is reported and a new game starts |
| `AmobaRules.FirstClick` | EgyszeruJatek/EgyszeruJatek/MainWindow.xaml.cs:59-62 | on a new game, a click on any of the nine cells places X there, passes the turn to O and does not end the game |
| `AmobaRules.CountPlace` | EgyszeruJatek/EgyszeruJatek/MainWindow.xaml.cs:59 | writing a mark into an empty cell adds one to that mark's count, removes one empty cell and leaves the other mark's count alone |
| `AmobaRules.CountFull` | EgyszeruJatek/EgyszeruJatek/MainWindow.xaml.cs:81 | on a board with no empty cell the X and O counts add up to the board size |
| `AmobaRules.InitialReachable` | EgyszeruJatek/EgyszeruJatek/MainWindow.xaml.cs:43-52 | a new game has zero X and zero O marks and satisfies the invariant: no complete line, board not full, X to move |
| `AmobaRules.ClickPreservesReachable` | EgyszeruJatek/EgyszeruJatek/MainWindow.xaml.cs:54-99 | every click, resets included, keeps the invariant: no line is complete, the board is not full, count(X) − count(O) is 0 or 1, and it is X's turn exactly when the counts are equal |
| `AmobaRules.StateAfter` | EgyszeruJatek/EgyszeruJatek/MainWindow.xaml.cs:40-63 | the state reached by any sequence of clicks from a new game keeps a nine-cell board |
| `AmobaRules.PlayedStatesAreReachable` | EgyszeruJatek/EgyszeruJatek/MainWindow.xaml.cs:40-99 | every state reached by clicks from a new game satisfies the invariant, so no finished game persists: the board between clicks never holds a complete line and is never full |
| `AmobaRules.LineOffCellUnaffected` | EgyszeruJatek/EgyszeruJatek/MainWindow.xaml.cs:88-94 | writing a cell that a line does not visit leaves that line's completeness unchanged |
| `AmobaRules.WinLineHoldsMove` | EgyszeruJatek/EgyszeruJatek/MainWindow.xaml.cs:59-98 | when a board with no complete line gains one mark and a win results, the winning line passes through that cell and carries that mark |
| `AmobaRules.WinnerIsMover` | EgyszeruJatek/EgyszeruJatek/MainWindow.xaml.cs:59-96 | in a reachable game the announced winner is the player who just moved, and the winning line contains the clicked cell |
| `AmobaRules.DrawFollowsXMove` | EgyszeruJatek/EgyszeruJatek/MainWindow.xaml.cs:81-84 | in a reachable game a draw is announced only after X's fifth mark, when the board held four X and four O |
| `AmobaRules.ClickTwiceIsClickOnce` | EgyszeruJatek/EgyszeruJatek/MainWindow.xaml.cs:56-62 | when a click does not end the game, clicking the same cell again changes nothing |
| `AmobaRules.ClickTwiceAfterWinIsNotClickOnce` | EgyszeruJatek/EgyszeruJatek/MainWindow.xaml.cs:96-97 | after a click that wins on the top row, the board is reset, so the same cell clicked again gets a new X |
| `AmobaRules.ClassicDraw` | EgyszeruJatek/EgyszeruJatek/MainWindow.xaml.cs:81-85 | X on 0, 1, 5, 6, 7 and O on 2, 3, 4, 8, clicked alternately from a new game: the first eight clicks continue the game; the ninth announces a draw and starts a new game |
| `AmobaGame.AmobaViewModel.constructor` | EgyszeruJatek/EgyszeruJatek/MainWindow.xaml.cs:34-41 | a new view model holds a new game, which satisfies the invariant |
| `AmobaGame.AmobaViewModel.NewGame` | EgyszeruJatek/EgyszeruJatek/MainWindow.xaml.cs:43-52 | afterwards the board is exactly nine empty cells and X moves next, whatever the state before |
| `AmobaGame.AmobaViewModel.CellClick` | EgyszeruJatek/EgyszeruJatek/MainWindow.xaml.cs:54-63 | the new board, turn and announced outcome are those of `Click` on the old state; the invariant is preserved |
| `AmobaGame.AmobaViewModel.CheckWin` | EgyszeruJatek/EgyszeruJatek/MainWindow.xaml.cs:65-86 | the announced outcome is `Evaluate` of the board as it was; a win or a draw leaves a new game, and in-progress leaves board and turn untouched |
| `AmobaGame.AmobaViewModel.CheckLine` | EgyszeruJatek/EgyszeruJatek/MainWindow.xaml.cs:88-99 | it succeeds exactly when the three visited cells start, start+step and start+2·step are non-empty and equal to the first cell (stated both through `LineComplete` and over `LineCells`); it then announces a win for that mark and starts a new game, and otherwise changes nothing |

## Left out

- The window class, `InitializeComponent` and the data-context wiring are presentation plumbing with no game logic.
- `RelayCommand<T>` and its command-manager hookup are framework indirection. The model calls `CellClick` and `NewGame` directly.
- Property-change notifications to the UI are observer events and carry no state of their own.
- The message boxes are modal UI output. Only the outcome they announce is modelled, as the returned `Outcome`; their text is not.
- A cell is identified by its index 0..8, not by a cell object. Clicks on cell objects left over from before a reset therefore have no counterpart.
- `CellClick` requires an index below nine. The original has no out-of-range case, so the model has no index error.
- `CellClick` returns `InProgress` for an ignored click on an occupied cell. The original returns nothing there and shows no message.
- The null and the empty string are both "empty" in the original. Both are modelled as `Empty`.
- The unused `object` parameter of `NewGame` is dropped.
