# Connect Four engine, modelled and verified in Dafny

This project models the game engine of a Connect Four program written in Python.
The engine appears twice, almost unchanged, in `Proto.py` and `Revisi_Prototype.py`.
It has these parts:

- one 6 x 7 board that the engine changes in place;
- the board primitives:
  - `reset_board` empties the board;
  - `cek` tests whether a column is legal;
  - `taruh` drops a piece into a column;
  - `balik` takes back the top piece of a column;
  - `penuh` tests whether the board is full;
- the four-in-a-row test `menang`;
- the evaluator `hitung`, which returns 1000, -1000 or 0;
- a depth-bounded minimax with no pruning:
  - `minimax` searches by dropping a piece, recursing and undoing it on the one shared board;
  - `pilih_minimax` runs `minimax` with `DEPTH` = 5 below each root drop of O;
- the one-ply picker `pilih_bfs`: win now, else block, else a random legal column.

The model is split into three modules.

- `grid.dfy`, module `Grids`, models the board as a value, `Grid`: a 6 x 7 `seq<seq<Cell>>` with row 0 at the top.
  - It defines the legality test, the fullness test and the gravity invariant (below a piece there are only pieces).
  - `AfterDrop` and `AfterUndo` say what a drop and an undo do to a grid.
  - The four scan predicates follow the source's four loops. `FourInARow`, a reference definition by direction vectors, is proved equivalent to them.
  - `Score` is the evaluation.
- `search.dfy`, module `Search`, defines the value the search computes, `MinimaxValue`, as a ghost function.
  - `Running` is the loop's running best, computed with the source's explicit strict updates.
  - `BestColumn` is the column that running best last came from.
  - The module proves what these values mean: they are scores, the result is a maximum or minimum that some column reaches, the first best column is kept, and a winning root drop is worth 1000.
- `engine.dfy`, module `Engine`, holds the class `Board` around an `array2<Cell>`.
  - A ghost field `G` is the grid the array holds.
  - `cek` and `penuh` become the predicates `IsLegal` and `IsFull`, read off the array.
  - `reset_board`, `taruh`, `balik`, `menang`, `hitung`, `pilih_minimax` and `pilih_bfs` each become one method with the source's loops.
  - `minimax` becomes four methods: `Minimax` (the terminal test), `MaximizeOver` and `MinimizeOver` (its two column loops) and `SearchChild` (the drop, recurse and undo around each recursive call).
  - Each contract relates the result and the new `G` to the functions above.
  - Every search method promises that the board is as it was on return.

## Model

Rows cite `Proto.py`. The same functions sit in `Revisi_Prototype.py` at lines 30-145:

- the board and primitives at 30-50;
- `menang` and `penuh` at 52-76;
- `hitung` at 78-81;
- `minimax` at 84-108;
- `pilih_minimax` at 110-124;
- `pilih_bfs` at 127-145.

The rows for the running-best lemmas cite that file, because its explicit updates are what they model.

| member | source | states |
|---|---|---|
| Grids.EmptyGrid | Proto.py:48 | the starting board has every cell empty |
| Grids.EmptyGridFacts | Proto.py:50-56 | an emptied board satisfies gravity, has every column legal, is not full, has no winner and scores 0 |
| Grids.LegalIffRoom | Proto.py:55-56 | under gravity, a column passes the top-cell test exactly when it has an empty cell somewhere |
| Grids.LowestEmpty | Proto.py:59-61 | the bottom-up scan stops at an empty row with only occupied rows below it, or reports -1 when the column is full |
| Grids.TopPiece | Proto.py:65-67 | the top-down scan stops at an occupied row with only empty rows above it, or reports Rows when the column is empty |
| Grids.AfterDrop | Proto.py:58-62 | a drop leaves every other column unchanged and leaves a full column exactly as it was |
| Grids.DropWritesLowestEmpty | Proto.py:58-62 | when row k is the lowest empty cell of the column, the drop writes s into that one cell and changes nothing else |
| Grids.AfterUndo | Proto.py:64-68 | an undo leaves every other column unchanged and leaves an empty column exactly as it was |
| Grids.UndoClearsTopPiece | Proto.py:64-68 | when row k holds the topmost piece, the undo clears that one cell and changes nothing else |
| Grids.DropPreservesGravity | Proto.py:58-62 | dropping a piece keeps the gravity invariant |
| Grids.UndoPreservesGravity | Proto.py:64-68 | undoing a column keeps the gravity invariant |
| Grids.DropUndoRoundTrip | Proto.py:58-68 | on a gravity board, a drop into a legal column followed by an undo of that column gives back exactly the board |
| Grids.RoundTripNeedsGravity | Proto.py:58-68 | on a board breaking gravity (a floating X) the drop and undo round trip does not restore the board |
| Grids.Legal | Proto.py:55-56 | cek's test on the grid: the column is on the board and its top cell is empty; LegalIffRoom gives its meaning under gravity |
| Grids.Full | Proto.py:93-94 | penuh's test on the grid: every top cell is occupied; FullIffNoLegal ties it to cek |
| Grids.Wins | Proto.py:70-91 | menang on the grid: one existential per scan, over the same start rows and columns as the four loop nests; WinsIffFourInARow gives its meaning |
| Grids.WinningDrop | Proto.py:148-150 | the test inside pilih_bfs's first two loops: the column is legal and the board after dropping s there wins for s |
| Grids.FullIffNoLegal | Proto.py:93-94 | the board is full exactly when no column is legal |
| Grids.WinsIffFourInARow | Proto.py:70-91 | the four scans find a run for s exactly when some line of four on-board cells in one of the eight directions is all s |
| Grids.Score | Proto.py:96-99 | the score is 1000 iff O has four in a row, -1000 iff X has and O has not, and 0 iff neither has |
| Engine.Board.constructor | Proto.py:48 | a new board is 6 x 7 and empty |
| Engine.Board.Reset | Proto.py:50-53 | after reset_board the array holds the empty grid |
| Engine.Board.IsLegal | Proto.py:55-56 | cek is true exactly when the column is on the board and its top cell is empty |
| Engine.Board.IsFull | Proto.py:93-94 | penuh is true exactly when every top cell is occupied |
| Engine.Board.Drop | Proto.py:58-62 | taruh's bottom-up loop turns the board into AfterDrop of the old board |
| Engine.Board.Undo | Proto.py:64-68 | balik's top-down loop turns the board into AfterUndo of the old board |
| Engine.Board.HasWon | Proto.py:70-91 | menang's four loop nests return true exactly when the grid wins for s; the board is only read |
| Engine.Board.Evaluate | Proto.py:96-99 | hitung returns exactly the score of the board, with the O test before the X test |
| Engine.Board.RandomLegal | Proto.py:165-166 | the random choice returns a legal column when one exists, and 0 when none does |
| Search.MinimaxValue | Proto.py:102-125 | minimax as a function of the grid: the score when someone has won, the depth is 0 or the board is full, otherwise Running over all columns; MinimaxIsExtremum and ValueRange give its meaning |
| Search.DropValue | Proto.py:110-113 | one child of the search: the mover's piece is dropped into the column and the other side is searched one ply shallower |
| Search.Running | Revisi_Prototype.py:89-108 | the running best of the column loop, starting from -9999 or 9999 with the strict `>` or `<` update on each legal column; RunningIsAchieved and RunningIsBest give its meaning |
| Search.BestColumn | Proto.py:135-137 | best_col: the column whose value the running best last took, or -1 when no legal column has been scanned; RunningIsAchieved and RunningIsFirst give its meaning |
| Search.RootValue | Proto.py:132-134 | the value pilih_minimax gets for a root column: O drops there and minimax(DEPTH, False) searches the rest; RootChoice and WinningRootDrop give its meaning |
| Search.RunningStart | Revisi_Prototype.py:89-98 | while no legal column has been scanned, the running best is still its start value (-9999 or 9999) |
| Search.RunningStep | Revisi_Prototype.py:96-97 | one column never makes the running best worse for the mover, the new best is at least as good as that column's value, and the best changes only to that value |
| Search.RunningIsAchieved | Revisi_Prototype.py:89-108 | once a legal column is scanned, the running best is the value of a legal column, the one BestColumn names |
| Search.RunningIsBest | Revisi_Prototype.py:89-108 | no legal column scanned so far is better for the mover than the running best, so the strict updates compute the maximum or minimum |
| Search.RunningIsFirst | Proto.py:135-137 | every legal column before BestColumn is strictly worse, because only a strict improvement moves the best |
| Search.ChildrenAreScores | Proto.py:109-124 | every legal column's child value is -1000, 0 or 1000 |
| Search.ValueRange | Proto.py:102-125 | every minimax value is -1000, 0 or 1000, so the start values -9999 and 9999 never survive the loop |
| Search.MinimaxIsExtremum | Proto.py:102-125 | at a won, depth-0 or full board the value is the score; otherwise it is the value of some legal drop of the mover, and no legal drop is better for the mover |
| Search.WinningRootDrop | Proto.py:127-142 | a root drop that wins for O at once is worth 1000, and no root column is worth more |
| Search.RootChoice | Proto.py:130-137 | when some column is legal, the loop's column is legal, has the maximal root value, and every legal column before it is strictly worse |
| Engine.Board.Minimax | Proto.py:102-125 | minimax returns MinimaxValue of the board and leaves the board as it was |
| Engine.Board.MaximizeOver | Proto.py:107-115 | O's loop over the columns ends with Running for the maximizer, the minimax value, and the board restored |
| Engine.Board.MinimizeOver | Proto.py:117-125 | X's loop over the columns ends with Running for the minimizer, the minimax value, and the board restored |
| Engine.Board.SearchChild | Proto.py:110-113 | drop, recurse, undo: the value is the child's minimax value, it lies in -1000..1000, and the board is as it was |
| Engine.Board.ChooseMinimax | Proto.py:127-142 | pilih_minimax returns the first legal column of maximal root value when any column is legal, and 0 when none is; the chosen column is worth 1000 when O can win at once; the board is unchanged |
| Engine.Board.ChooseHeuristic | Proto.py:145-166 | pilih_bfs returns the first column where O wins at once. Failing that, it returns the first column where X would win at once. Failing that, it returns a legal column, or 0 when none is legal. The board is unchanged on every path |

## Left out

- The pygame layer is not modelled: initialisation, fonts, screen, clock, sound, the background image and all drawing. It is rendering and I/O with no engine logic.
- The `run()` event loop and its menu and play states are not modelled. They are driven by mouse events and button hit-testing. In that loop a win is checked before a draw (the full-board test).
- The timing and console printing around the AI move in `Revisi_Prototype.py` are not modelled. They use a clock and floating point.
- The internals of `random.choice` are not modelled. `RandomLegal` picks some element of the set of legal columns. The model says nothing about which one, or about its distribution.
- Node counts and speed of the search are not modelled. The search value is a ghost function and is never evaluated.
- Engine.Board.Drop: requires 0 <= c < 7. In Python, a column outside that range would raise an exception, or a negative one would wrap around the row list. Every caller passes only columns that `cek` accepts.
- Engine.Board.Undo: requires 0 <= c < 7, for the same reason as Drop.
- Engine.Board.Minimax: requires the gravity invariant, and so do SearchChild, MaximizeOver, MinimizeOver, ChooseMinimax and ChooseHeuristic. The board's restoration depends on it, as Grids.RoundTripNeedsGravity shows. Every board the program builds from empty by legal drops satisfies it.
- A drop on a full column is a silent no-op, as the code does it. A design of the same engine would signal an invalid-move error instead. The model follows the code.
- The two minimax branches are modelled as Engine.Board.MaximizeOver and Engine.Board.MinimizeOver. The drop, recurse and undo bracket around each recursive call is modelled as Engine.Board.SearchChild. This is the same code as the source, split into methods.
- `Proto.py` writes `best = max(best, val)` and `best = min(best, val)`. `Revisi_Prototype.py` writes strict if-updates. The values are the same either way, so one model covers both files.
