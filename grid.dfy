/** The Connect-Four grid as a value: its cells, the legality and fullness
    tests, the drop and undo scans, four-in-a-row detection and the 0/+-1000
    evaluation, with the facts the search relies on.
    Row 0 is the top row, row Rows - 1 the bottom row. */
module Grids {

  const Rows: int := 6
  const Cols: int := 7

  /** A cell: '.' (empty), 'X' (the human player) or 'O' (the computer). */
  datatype Cell = Empty | X | O

  /** A 6 x 7 grid, indexed g[row][column]. */
  type Grid = g: seq<seq<Cell>> | |g| == Rows && forall r :: 0 <= r < Rows ==> |g[r]| == Cols
    witness seq(Rows, _ => seq(Cols, _ => Empty))

  /** Every cell empty. */
  function EmptyGrid(): (g: Grid)
    ensures forall r, c :: 0 <= r < Rows && 0 <= c < Cols ==> g[r][c] == Empty
  {
    seq(Rows, _ => seq(Cols, _ => Empty))
  }

  /** A column may be played: it is on the board and its top cell is empty. */
  predicate Legal(g: Grid, c: int) {
    0 <= c < Cols && g[0][c] == Empty
  }

  /** The board is full: every top cell is occupied. */
  predicate Full(g: Grid) {
    forall c :: 0 <= c < Cols ==> g[0][c] != Empty
  }

  /** The gravity invariant: below a piece there are only pieces. */
  predicate Gravity(g: Grid) {
    forall r1, r2, c :: 0 <= r1 <= r2 < Rows && 0 <= c < Cols && g[r1][c] != Empty ==> g[r2][c] != Empty
  }

  // ---------------------------------------------------------------------
  // Dropping and undoing

  /** Scanning rows r, r - 1, ..., 0 of column c: the first empty row, or -1. */
  function LowestEmpty(g: Grid, c: int, r: int): (k: int)
    requires 0 <= c < Cols && -1 <= r < Rows
    ensures -1 <= k <= r
    ensures k >= 0 ==> g[k][c] == Empty
    ensures forall i :: k < i <= r ==> g[i][c] != Empty
    decreases r + 1
  {
    if r < 0 then -1
    else if g[r][c] == Empty then r
    else LowestEmpty(g, c, r - 1)
  }

  /** Scanning rows r, r + 1, ..., Rows - 1 of column c: the first occupied row, or Rows. */
  function TopPiece(g: Grid, c: int, r: int): (k: int)
    requires 0 <= c < Cols && 0 <= r <= Rows
    ensures r <= k <= Rows
    ensures k < Rows ==> g[k][c] != Empty
    ensures forall i :: r <= i < k ==> g[i][c] == Empty
    decreases Rows - r
  {
    if r == Rows then Rows
    else if g[r][c] != Empty then r
    else TopPiece(g, c, r + 1)
  }

  /** The grid after dropping piece s into column c: the lowest empty cell of
      the column receives s; a full column is left as it is. */
  function AfterDrop(g: Grid, c: int, s: Cell): (h: Grid)
    requires 0 <= c < Cols
    ensures forall r, j :: 0 <= r < Rows && 0 <= j < Cols && j != c ==> h[r][j] == g[r][j]
    ensures (forall r :: 0 <= r < Rows ==> g[r][c] != Empty) ==> h == g
  {
    var k := LowestEmpty(g, c, Rows - 1);
    if k < 0 then g else g[k := g[k][c := s]]
  }

  /** The grid after undoing column c: its topmost piece is cleared; an empty
      column is left as it is. */
  function AfterUndo(g: Grid, c: int): (h: Grid)
    requires 0 <= c < Cols
    ensures forall r, j :: 0 <= r < Rows && 0 <= j < Cols && j != c ==> h[r][j] == g[r][j]
    ensures (forall r :: 0 <= r < Rows ==> g[r][c] == Empty) ==> h == g
  {
    var k := TopPiece(g, c, 0);
    if k == Rows then g else g[k := g[k][c := Empty]]
  }

  /** A drop writes the lowest empty cell of the column, and only that cell. */
  lemma DropWritesLowestEmpty(g: Grid, c: int, s: Cell, k: int)
    requires 0 <= c < Cols && 0 <= k < Rows
    requires g[k][c] == Empty
    requires forall i :: k < i < Rows ==> g[i][c] != Empty
    ensures AfterDrop(g, c, s) == g[k := g[k][c := s]]
  {
    assert LowestEmpty(g, c, Rows - 1) == k;
  }

  /** An undo clears the topmost piece of the column, and only that cell. */
  lemma UndoClearsTopPiece(g: Grid, c: int, k: int)
    requires 0 <= c < Cols && 0 <= k < Rows
    requires g[k][c] != Empty
    requires forall i :: 0 <= i < k ==> g[i][c] == Empty
    ensures AfterUndo(g, c) == g[k := g[k][c := Empty]]
  {
    assert TopPiece(g, c, 0) == k;
  }

  /** Under gravity the cells above the lowest empty cell are empty too. */
  lemma EmptyAboveLowestEmpty(g: Grid, c: int)
    requires Gravity(g) && 0 <= c < Cols
    ensures forall i :: 0 <= i <= LowestEmpty(g, c, Rows - 1) ==> g[i][c] == Empty
  {
  }

  /** Dropping a piece keeps the gravity invariant. */
  lemma DropPreservesGravity(g: Grid, c: int, s: Cell)
    requires Gravity(g) && 0 <= c < Cols && s != Empty
    ensures Gravity(AfterDrop(g, c, s))
  {
    var k := LowestEmpty(g, c, Rows - 1);
    if k >= 0 {
      EmptyAboveLowestEmpty(g, c);
      var h := AfterDrop(g, c, s);
      assert h == g[k := g[k][c := s]];
      forall r1, r2, j | 0 <= r1 <= r2 < Rows && 0 <= j < Cols && h[r1][j] != Empty
        ensures h[r2][j] != Empty
      {
        if j == c {
          assert k <= r1;
          if r2 > k {
            assert h[r2][j] == g[r2][j];
          }
        } else {
          assert h[r1][j] == g[r1][j] && h[r2][j] == g[r2][j];
        }
      }
    }
  }

  /** Undoing a column keeps the gravity invariant. */
  lemma UndoPreservesGravity(g: Grid, c: int)
    requires Gravity(g) && 0 <= c < Cols
    ensures Gravity(AfterUndo(g, c))
  {
    var k := TopPiece(g, c, 0);
    if k < Rows {
      var h := AfterUndo(g, c);
      assert h == g[k := g[k][c := Empty]];
      forall r1, r2, j | 0 <= r1 <= r2 < Rows && 0 <= j < Cols && h[r1][j] != Empty
        ensures h[r2][j] != Empty
      {
        if j == c {
          assert r1 > k && h[r1][j] == g[r1][j] && h[r2][j] == g[r2][j];
        } else {
          assert h[r1][j] == g[r1][j] && h[r2][j] == g[r2][j];
        }
      }
    }
  }

  /** The undo discipline of the search: on a gravity grid, a drop into a
      legal column followed by an undo of that column restores the grid. */
  lemma DropUndoRoundTrip(g: Grid, c: int, s: Cell)
    requires Gravity(g) && Legal(g, c) && s != Empty
    ensures AfterUndo(AfterDrop(g, c, s), c) == g
  {
    var k := LowestEmpty(g, c, Rows - 1);
    assert k >= 0;
    EmptyAboveLowestEmpty(g, c);
    var h := AfterDrop(g, c, s);
    assert h == g[k := g[k][c := s]];
    UndoClearsTopPiece(h, c, k);
    assert h[k][c := Empty] == g[k];
  }

  /** Without gravity the round trip fails: a floating piece in row 1 of
      column 0 is what the undo removes, not the piece just dropped. */
  lemma RoundTripNeedsGravity()
    ensures var g := EmptyGrid()[1 := EmptyGrid()[1][0 := X]];
      Legal(g, 0) && !Gravity(g) && AfterUndo(AfterDrop(g, 0, O), 0) != g
  {
    var g := EmptyGrid()[1 := EmptyGrid()[1][0 := X]];
    assert g[1][0] != Empty && g[5][0] == Empty;
    DropWritesLowestEmpty(g, 0, O, 5);
    var h := AfterDrop(g, 0, O);
    UndoClearsTopPiece(h, 0, 1);
    assert AfterUndo(h, 0)[5][0] == O;
  }

  /** Under gravity, the top-cell test is exactly "the column has room". */
  lemma LegalIffRoom(g: Grid, c: int)
    requires Gravity(g) && 0 <= c < Cols
    ensures Legal(g, c) <==> exists r :: 0 <= r < Rows && g[r][c] == Empty
  {
    if exists r :: 0 <= r < Rows && g[r][c] == Empty {
      var r :| 0 <= r < Rows && g[r][c] == Empty;
      assert g[0][c] == Empty;
    }
  }

  /** A full board has no legal column, and a board that is not full has one. */
  lemma FullIffNoLegal(g: Grid)
    ensures Full(g) <==> forall c :: 0 <= c < Cols ==> !Legal(g, c)
  {
    if !Full(g) {
      var c :| 0 <= c < Cols && g[0][c] == Empty;
      assert Legal(g, c);
    }
  }

  // ---------------------------------------------------------------------
  // Four in a row

  /** g[r][c .. c+3] all hold s. */
  predicate HorizontalAt(g: Grid, s: Cell, r: int, c: int)
    requires 0 <= r < Rows && 0 <= c < Cols - 3
  {
    g[r][c] == s && g[r][c + 1] == s && g[r][c + 2] == s && g[r][c + 3] == s
  }

  /** Rows r .. r+3 of column c all hold s. */
  predicate VerticalAt(g: Grid, s: Cell, r: int, c: int)
    requires 0 <= r < Rows - 3 && 0 <= c < Cols
  {
    g[r][c] == s && g[r + 1][c] == s && g[r + 2][c] == s && g[r + 3][c] == s
  }

  /** The '/' diagonal going up and right from (r, c) holds s four times. */
  predicate RisingAt(g: Grid, s: Cell, r: int, c: int)
    requires 3 <= r < Rows && 0 <= c < Cols - 3
  {
    g[r][c] == s && g[r - 1][c + 1] == s && g[r - 2][c + 2] == s && g[r - 3][c + 3] == s
  }

  /** The '\' diagonal going down and right from (r, c) holds s four times. */
  predicate FallingAt(g: Grid, s: Cell, r: int, c: int)
    requires 0 <= r < Rows - 3 && 0 <= c < Cols - 3
  {
    g[r][c] == s && g[r + 1][c + 1] == s && g[r + 2][c + 2] == s && g[r + 3][c + 3] == s
  }

  /** menang: a run of four s in one of the four scanned directions, over
      exactly the start positions the scan visits. */
  predicate Wins(g: Grid, s: Cell) {
    (exists r, c :: 0 <= r < Rows && 0 <= c < Cols - 3 && HorizontalAt(g, s, r, c)) ||
    (exists r, c :: 0 <= r < Rows - 3 && 0 <= c < Cols && VerticalAt(g, s, r, c)) ||
    (exists r, c :: 3 <= r < Rows && 0 <= c < Cols - 3 && RisingAt(g, s, r, c)) ||
    (exists r, c :: 0 <= r < Rows - 3 && 0 <= c < Cols - 3 && FallingAt(g, s, r, c))
  }

  predicate OnBoard(r: int, c: int) {
    0 <= r < Rows && 0 <= c < Cols
  }

  /** One of the eight compass directions. */
  predicate Direction(dr: int, dc: int) {
    -1 <= dr <= 1 && -1 <= dc <= 1 && (dr != 0 || dc != 0)
  }

  /** Four consecutive cells from (r, c) in direction (dr, dc), all on the board and all s. */
  predicate Line(g: Grid, s: Cell, r: int, c: int, dr: int, dc: int)
    requires Direction(dr, dc)
  {
    OnBoard(r, c) && OnBoard(r + 3 * dr, c + 3 * dc) &&
    g[r][c] == s && g[r + dr][c + dc] == s && g[r + 2 * dr][c + 2 * dc] == s && g[r + 3 * dr][c + 3 * dc] == s
  }

  /** The reference notion: four in a row anywhere, in any direction. */
  ghost predicate FourInARow(g: Grid, s: Cell) {
    exists r, c, dr, dc :: Direction(dr, dc) && Line(g, s, r, c, dr, dc)
  }

  /** The four scans of menang find every four-in-a-row, and only those. */
  lemma {:induction false} WinsIffFourInARow(g: Grid, s: Cell)
    ensures Wins(g, s) <==> FourInARow(g, s)
  {
    if Wins(g, s) {
      if exists r, c :: 0 <= r < Rows && 0 <= c < Cols - 3 && HorizontalAt(g, s, r, c) {
        var r, c :| 0 <= r < Rows && 0 <= c < Cols - 3 && HorizontalAt(g, s, r, c);
        assert Line(g, s, r, c, 0, 1);
      } else if exists r, c :: 0 <= r < Rows - 3 && 0 <= c < Cols && VerticalAt(g, s, r, c) {
        var r, c :| 0 <= r < Rows - 3 && 0 <= c < Cols && VerticalAt(g, s, r, c);
        assert Line(g, s, r, c, 1, 0);
      } else if exists r, c :: 3 <= r < Rows && 0 <= c < Cols - 3 && RisingAt(g, s, r, c) {
        var r, c :| 3 <= r < Rows && 0 <= c < Cols - 3 && RisingAt(g, s, r, c);
        assert Line(g, s, r, c, -1, 1);
      } else {
        var r, c :| 0 <= r < Rows - 3 && 0 <= c < Cols - 3 && FallingAt(g, s, r, c);
        assert Line(g, s, r, c, 1, 1);
      }
    }
    if FourInARow(g, s) {
      var r, c, dr, dc :| Direction(dr, dc) && Line(g, s, r, c, dr, dc);
      LineIsScanned(g, s, r, c, dr, dc);
    }
  }

  /** Each of the eight directions of a run is one of the four scans, read
      from one of its two ends. */
  lemma LineIsScanned(g: Grid, s: Cell, r: int, c: int, dr: int, dc: int)
    requires Direction(dr, dc) && Line(g, s, r, c, dr, dc)
    ensures Wins(g, s)
  {
    if dr == 0 && dc == 1 {
      assert HorizontalAt(g, s, r, c);
    } else if dr == 0 && dc == -1 {
      assert HorizontalAt(g, s, r, c - 3);
    } else if dr == 1 && dc == 0 {
      assert VerticalAt(g, s, r, c);
    } else if dr == -1 && dc == 0 {
      assert VerticalAt(g, s, r - 3, c);
    } else if dr == -1 && dc == 1 {
      assert RisingAt(g, s, r, c);
    } else if dr == 1 && dc == -1 {
      assert RisingAt(g, s, r + 3, c - 3);
    } else if dr == 1 && dc == 1 {
      assert FallingAt(g, s, r, c);
    } else {
      assert dr == -1 && dc == -1;
      assert FallingAt(g, s, r - 3, c - 3);
    }
  }

  /** hitung: 1000 when O has four in a row, else -1000 when X has, else 0. */
  function Score(g: Grid): (v: int)
    ensures v == 1000 <==> Wins(g, O)
    ensures v == -1000 <==> !Wins(g, O) && Wins(g, X)
    ensures v == 0 <==> !Wins(g, O) && !Wins(g, X)
  {
    if Wins(g, O) then 1000 else if Wins(g, X) then -1000 else 0
  }

  /** A drop into column c that would give s four in a row. */
  predicate WinningDrop(g: Grid, c: int, s: Cell) {
    Legal(g, c) && Wins(AfterDrop(g, c, s), s)
  }

  /** The state reset_board produces: gravity holds, every column is legal,
      the board is not full and nobody has won. */
  lemma EmptyGridFacts()
    ensures Gravity(EmptyGrid())
    ensures forall c :: 0 <= c < Cols ==> Legal(EmptyGrid(), c)
    ensures !Full(EmptyGrid())
    ensures !Wins(EmptyGrid(), X) && !Wins(EmptyGrid(), O) && Score(EmptyGrid()) == 0
  {
    var e := EmptyGrid();
    assert !Legal(e, 0) ==> Full(e);
  }
}
