/** The game engine as its source runs it: one board, a 6 x 7 array that the
    primitives, the win scan and both move pickers read and change in place.
    The ghost field G is the grid the array holds; every method is stated
    in terms of G and the functions of Grids and Search. */
module Engine {
  import opened Grids
  import opened Search

  class Board {
    const cells: array2<Cell>
    ghost var G: Grid

    /** The array is 6 x 7 and holds exactly G. */
    ghost predicate Valid()
      reads this, cells
    {
      cells.Length0 == Rows && cells.Length1 == Cols &&
      forall r, c :: 0 <= r < Rows && 0 <= c < Cols ==> cells[r, c] == G[r][c]
    }

    /** The board as the program starts with it: every cell empty. */
    constructor ()
      ensures Valid() && G == EmptyGrid() && fresh(cells)
    {
      cells := new Cell[Rows, Cols]((r, c) => Empty);
      G := EmptyGrid();
    }

    /** reset_board: every cell becomes empty. */
    method Reset()
      requires Valid()
      modifies this, cells
      ensures Valid() && G == EmptyGrid()
    {
      for r := 0 to Rows
        invariant forall i, j :: 0 <= i < r && 0 <= j < Cols ==> cells[i, j] == Empty
      {
        for c := 0 to Cols
          invariant forall i, j :: 0 <= i < r && 0 <= j < Cols ==> cells[i, j] == Empty
          invariant forall j :: 0 <= j < c ==> cells[r, j] == Empty
        {
          cells[r, c] := Empty;
        }
      }
      G := EmptyGrid();
    }

    /** cek: the column is on the board and its top cell is empty. */
    predicate IsLegal(c: int)
      reads this, cells
      requires Valid()
      ensures IsLegal(c) == Legal(G, c)
    {
      0 <= c < Cols && cells[0, c] == Empty
    }

    /** penuh: every top cell is occupied. */
    predicate IsFull()
      reads this, cells
      requires Valid()
      ensures IsFull() == Full(G)
    {
      forall c :: 0 <= c < Cols ==> cells[0, c] != Empty
    }

    /** taruh: from the bottom row up, the first empty cell of column c
        receives s; a full column is left as it is. */
    method Drop(c: int, s: Cell)
      requires Valid() && 0 <= c < Cols
      modifies this, cells
      ensures Valid() && G == AfterDrop(old(G), c, s)
    {
      for r := Rows downto 0
        invariant Valid() && G == old(G)
        invariant forall i :: r <= i < Rows ==> G[i][c] != Empty
      {
        if cells[r, c] == Empty {
          DropWritesLowestEmpty(G, c, s, r);
          cells[r, c] := s;
          G := G[r := G[r][c := s]];
          return;
        }
      }
    }

    /** balik: from the top row down, the first occupied cell of column c
        is cleared; an empty column is left as it is. */
    method Undo(c: int)
      requires Valid() && 0 <= c < Cols
      modifies this, cells
      ensures Valid() && G == AfterUndo(old(G), c)
    {
      for r := 0 to Rows
        invariant Valid() && G == old(G)
        invariant forall i :: 0 <= i < r ==> G[i][c] == Empty
      {
        if cells[r, c] != Empty {
          UndoClearsTopPiece(G, c, r);
          cells[r, c] := Empty;
          G := G[r := G[r][c := Empty]];
          return;
        }
      }
    }

    /** menang: scans the horizontal, vertical, '/' and '\' runs of four in
        turn and reports whether one of them is all s. */
    method HasWon(s: Cell) returns (won: bool)
      requires Valid()
      ensures won == Wins(G, s)
    {
      for r := 0 to Rows
        invariant forall i, j :: 0 <= i < r && 0 <= j < Cols - 3 ==> !HorizontalAt(G, s, i, j)
      {
        for c := 0 to Cols - 3
          invariant forall i, j :: 0 <= i < r && 0 <= j < Cols - 3 ==> !HorizontalAt(G, s, i, j)
          invariant forall j :: 0 <= j < c ==> !HorizontalAt(G, s, r, j)
        {
          if cells[r, c] == s && cells[r, c + 1] == s && cells[r, c + 2] == s && cells[r, c + 3] == s {
            assert HorizontalAt(G, s, r, c);
            return true;
          }
        }
      }
      for r := 0 to Rows - 3
        invariant forall i, j :: 0 <= i < r && 0 <= j < Cols ==> !VerticalAt(G, s, i, j)
      {
        for c := 0 to Cols
          invariant forall i, j :: 0 <= i < r && 0 <= j < Cols ==> !VerticalAt(G, s, i, j)
          invariant forall j :: 0 <= j < c ==> !VerticalAt(G, s, r, j)
        {
          if cells[r, c] == s && cells[r + 1, c] == s && cells[r + 2, c] == s && cells[r + 3, c] == s {
            assert VerticalAt(G, s, r, c);
            return true;
          }
        }
      }
      for r := 3 to Rows
        invariant forall i, j :: 3 <= i < r && 0 <= j < Cols - 3 ==> !RisingAt(G, s, i, j)
      {
        for c := 0 to Cols - 3
          invariant forall i, j :: 3 <= i < r && 0 <= j < Cols - 3 ==> !RisingAt(G, s, i, j)
          invariant forall j :: 0 <= j < c ==> !RisingAt(G, s, r, j)
        {
          if cells[r, c] == s && cells[r - 1, c + 1] == s && cells[r - 2, c + 2] == s && cells[r - 3, c + 3] == s {
            assert RisingAt(G, s, r, c);
            return true;
          }
        }
      }
      for r := 0 to Rows - 3
        invariant forall i, j :: 0 <= i < r && 0 <= j < Cols - 3 ==> !FallingAt(G, s, i, j)
      {
        for c := 0 to Cols - 3
          invariant forall i, j :: 0 <= i < r && 0 <= j < Cols - 3 ==> !FallingAt(G, s, i, j)
          invariant forall j :: 0 <= j < c ==> !FallingAt(G, s, r, j)
        {
          if cells[r, c] == s && cells[r + 1, c + 1] == s && cells[r + 2, c + 2] == s && cells[r + 3, c + 3] == s {
            assert FallingAt(G, s, r, c);
            return true;
          }
        }
      }
      return false;
    }

    /** hitung: 1000 if O has won, else -1000 if X has won, else 0. */
    method Evaluate() returns (v: int)
      requires Valid()
      ensures v == Score(G)
    {
      var o := HasWon(O);
      if o {
        return 1000;
      }
      var x := HasWon(X);
      if x {
        return -1000;
      }
      return 0;
    }

    /** random.choice over the legal columns, or 0 when there is none. */
    method RandomLegal() returns (col: int)
      requires Valid()
      ensures (exists c :: 0 <= c < Cols && Legal(G, c)) ==> Legal(G, col)
      ensures (forall c :: 0 <= c < Cols ==> !Legal(G, c)) ==> col == 0
    {
      var valid := set c | 0 <= c < Cols && IsLegal(c);
      if valid != {} {
        col :| col in valid;
        assert Legal(G, col);
      } else {
        col := 0;
        forall c | 0 <= c < Cols ensures !Legal(G, c) {
          assert c !in valid;
        }
      }
    }

    /** minimax: the search value of the board; at a terminal position the
        evaluation, otherwise the best child value for the side to move,
        found by dropping, recursing and undoing column by column on the one
        board, which is as it was on return. */
    method Minimax(depth: nat, maximize: bool) returns (v: int)
      requires Valid() && Gravity(G)
      modifies this, cells
      ensures Valid() && G == old(G)
      ensures v == MinimaxValue(G, depth, maximize)
      decreases depth, 2
    {
      var score := Evaluate();
      var full := IsFull();
      if score == 1000 || score == -1000 || depth == 0 || full {
        return score;
      }
      if maximize {
        v := MaximizeOver(depth);
      } else {
        v := MinimizeOver(depth);
      }
    }

    /** The maximizing branch of minimax: O tries each legal column in
        ascending order and the largest child value is kept. */
    method MaximizeOver(depth: nat) returns (best: int)
      requires Valid() && Gravity(G) && !Terminal(G, depth)
      modifies this, cells
      ensures Valid() && G == old(G)
      ensures best == MinimaxValue(G, depth, true)
      decreases depth, 1
    {
      ghost var g0 := G;
      best := NoMax;
      for c := 0 to Cols
        invariant Valid() && G == g0
        invariant best == Running(g0, depth, true, c)
      {
        if IsLegal(c) {
          var val := SearchChild(c, depth, true);
          if val > best {
            best := val;
          }
        }
      }
    }

    /** The minimizing branch of minimax: X tries each legal column in
        ascending order and the smallest child value is kept. */
    method MinimizeOver(depth: nat) returns (best: int)
      requires Valid() && Gravity(G) && !Terminal(G, depth)
      modifies this, cells
      ensures Valid() && G == old(G)
      ensures best == MinimaxValue(G, depth, false)
      decreases depth, 1
    {
      ghost var g0 := G;
      best := NoMin;
      for c := 0 to Cols
        invariant Valid() && G == g0
        invariant best == Running(g0, depth, false, c)
      {
        if IsLegal(c) {
          var val := SearchChild(c, depth, false);
          if val < best {
            best := val;
          }
        }
      }
    }

    /** The bracket both searches put around each recursive call: the
        mover drops into column c (taruh), the other side is searched one ply
        shallower (minimax), and the drop is taken back (balik). The value is
        DropValue of column c, and the board is as it was. */
    method SearchChild(c: int, depth: nat, maximize: bool) returns (val: int)
      requires Valid() && Gravity(G) && depth > 0 && Legal(G, c)
      modifies this, cells
      ensures Valid() && G == old(G)
      ensures val == DropValue(G, depth, maximize, c)
      ensures -1000 <= val <= 1000
      decreases depth, 0
    {
      var s := Mover(maximize);
      DropPreservesGravity(G, c, s);
      DropUndoRoundTrip(G, c, s);
      Drop(c, s);
      val := Minimax(depth - 1, !maximize);
      ValueRange(AfterDrop(old(G), c, s), depth - 1, !maximize);
      Undo(c);
    }

    /** pilih_minimax: the first legal column whose root value is maximal;
        the board is as it was on return. */
    method ChooseMinimax() returns (col: int)
      requires Valid() && Gravity(G)
      modifies this, cells
      ensures Valid() && G == old(G)
      ensures (exists c :: 0 <= c < Cols && Legal(G, c)) ==>
        Legal(G, col) &&
        (forall c :: 0 <= c < Cols && Legal(G, c) ==> RootValue(G, c) <= RootValue(G, col)) &&
        (forall c :: 0 <= c < col && Legal(G, c) ==> RootValue(G, c) < RootValue(G, col))
      ensures (forall c :: 0 <= c < Cols ==> !Legal(G, c)) ==> col == 0
      ensures (exists c :: 0 <= c < Cols && WinningDrop(G, c, O)) ==> RootValue(G, col) == 1000
    {
      ghost var g0 := G;
      var best := NoMax;
      var found := false;
      var bestCol := 0;
      for c := 0 to Cols
        invariant Valid() && G == g0
        invariant best == Running(g0, Depth + 1, true, c)
        invariant found <==> exists j :: 0 <= j < c && Legal(g0, j)
        invariant !found ==> best == NoMax
        invariant found ==> bestCol == BestColumn(g0, Depth + 1, true, c)
      {
        if IsLegal(c) {
          var val := SearchChild(c, Depth + 1, true);
          if val > best {
            best := val;
            bestCol := c;
            found := true;
          }
        }
      }
      if !found {
        col := RandomLegal();
      } else {
        col := bestCol;
        RootChoice(g0);
        if exists c :: 0 <= c < Cols && WinningDrop(g0, c, O) {
          var c :| 0 <= c < Cols && WinningDrop(g0, c, O);
          WinningRootDrop(g0, c);
        }
      }
    }

    /** pilih_bfs: the first column where O wins at once, else the first
        column where X would win at once, else some legal column, else 0;
        the board is as it was on return. */
    method ChooseHeuristic() returns (col: int)
      requires Valid() && Gravity(G)
      modifies this, cells
      ensures Valid() && G == old(G)
      ensures (exists c :: 0 <= c < Cols && WinningDrop(G, c, O)) ==>
        WinningDrop(G, col, O) && forall c :: 0 <= c < col ==> !WinningDrop(G, c, O)
      ensures (forall c :: 0 <= c < Cols ==> !WinningDrop(G, c, O)) && (exists c :: 0 <= c < Cols && WinningDrop(G, c, X)) ==>
        WinningDrop(G, col, X) && forall c :: 0 <= c < col ==> !WinningDrop(G, c, X)
      ensures (forall c :: 0 <= c < Cols ==> !WinningDrop(G, c, O) && !WinningDrop(G, c, X)) ==>
        ((exists c :: 0 <= c < Cols && Legal(G, c)) ==> Legal(G, col)) &&
        ((forall c :: 0 <= c < Cols ==> !Legal(G, c)) ==> col == 0)
    {
      for c := 0 to Cols
        invariant Valid() && G == old(G)
        invariant forall j :: 0 <= j < c ==> !WinningDrop(G, j, O)
      {
        if IsLegal(c) {
          DropUndoRoundTrip(G, c, O);
          Drop(c, O);
          var won := HasWon(O);
          if won {
            Undo(c);
            return c;
          }
          Undo(c);
        }
      }
      for c := 0 to Cols
        invariant Valid() && G == old(G)
        invariant forall j :: 0 <= j < c ==> !WinningDrop(G, j, X)
      {
        if IsLegal(c) {
          DropUndoRoundTrip(G, c, X);
          Drop(c, X);
          var won := HasWon(X);
          if won {
            Undo(c);
            return c;
          }
          Undo(c);
        }
      }
      col := RandomLegal();
    }
  }
}
