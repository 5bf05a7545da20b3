/** The value the depth-bounded minimax search computes, as a function of the
    grid, and what that value means: one of -1000, 0 and 1000, the score at a
    terminal position and otherwise the maximum (for O) or minimum (for X)
    of the values of the legal drops. */
module Search {
  import opened Grids

  /** The number of plies searched below each root drop. */
  const Depth: nat := 5

  /** The starting values of the running best: below and above every score. */
  const NoMax: int := -9999
  const NoMin: int := 9999

  /** The piece the side to move drops: O when maximizing, X when minimizing. */
  function Mover(maximize: bool): (s: Cell) {
    if maximize then O else X
  }

  function Start(maximize: bool): (v: int) {
    if maximize then NoMax else NoMin
  }

  /** a is at least as good as b for the mover: no smaller when maximizing,
      no greater when minimizing. */
  predicate AsGood(maximize: bool, a: int, b: int) {
    if maximize then a >= b else a <= b
  }

  /** The three values the evaluator produces. */
  predicate IsScore(v: int) {
    v == 1000 || v == 0 || v == -1000
  }

  /** The search stops here: someone has won, the depth is used up, or the board is full. */
  predicate Terminal(g: Grid, depth: nat) {
    Score(g) != 0 || depth == 0 || Full(g)
  }

  // ---------------------------------------------------------------------
  // The search value

  /** minimax(depth, maximize) on grid g. */
  ghost function MinimaxValue(g: Grid, depth: nat, maximize: bool): (v: int)
    decreases depth, 2
  {
    var score := Score(g);
    if score == 1000 || score == -1000 || depth == 0 || Full(g) then score
    else Running(g, depth, maximize, Cols)
  }

  /** The value of column c: the position after the mover drops there,
      searched one ply shallower with the other side to move. */
  ghost function DropValue(g: Grid, depth: nat, maximize: bool, c: int): (v: int)
    requires depth > 0 && 0 <= c < Cols
    decreases depth, 0
  {
    MinimaxValue(AfterDrop(g, c, Mover(maximize)), depth - 1, !maximize)
  }

  /** The running best of the column loop once columns 0 .. n-1 are scanned:
      a value replaces the best when it is strictly greater (maximizing) or
      strictly smaller (minimizing); an illegal column is skipped. */
  ghost function Running(g: Grid, depth: nat, maximize: bool, n: nat): (best: int)
    requires depth > 0 && n <= Cols
    decreases depth, 1, n
  {
    if n == 0 then Start(maximize)
    else
      var best := Running(g, depth, maximize, n - 1);
      if !Legal(g, n - 1) then best
      else
        var v := DropValue(g, depth, maximize, n - 1);
        if maximize then (if v > best then v else best)
        else (if v < best then v else best)
  }

  /** While no legal column has been seen the running best is the start value. */
  lemma {:induction false} RunningStart(g: Grid, depth: nat, maximize: bool, n: nat)
    requires depth > 0 && n <= Cols
    requires forall i :: 0 <= i < n ==> !Legal(g, i)
    ensures Running(g, depth, maximize, n) == Start(maximize)
  {
    if n > 0 {
      RunningStart(g, depth, maximize, n - 1);
    }
  }

  /** One column of the loop: the running best never gets worse for the
      mover, a legal column's value is no better than the new best, and the
      best changes only to that value. */
  lemma RunningStep(g: Grid, depth: nat, maximize: bool, n: nat)
    requires depth > 0 && n < Cols
    ensures AsGood(maximize, Running(g, depth, maximize, n + 1), Running(g, depth, maximize, n))
    ensures Legal(g, n) ==> AsGood(maximize, Running(g, depth, maximize, n + 1), DropValue(g, depth, maximize, n))
    ensures Running(g, depth, maximize, n + 1) == Running(g, depth, maximize, n) ||
      (Legal(g, n) && DropValue(g, depth, maximize, n) == Running(g, depth, maximize, n + 1))
  {
  }

  /** The column whose value the running best last took, or -1 while no
      legal column has been scanned. */
  ghost function BestColumn(g: Grid, depth: nat, maximize: bool, n: nat): (col: int)
    requires depth > 0 && n <= Cols
  {
    if n == 0 then -1
    else if Running(g, depth, maximize, n) != Running(g, depth, maximize, n - 1) then n - 1
    else BestColumn(g, depth, maximize, n - 1)
  }

  /** The explicit running updates reach a value actually seen: once a
      legal column has been scanned, the running best is the value of one. */
  lemma {:induction false} RunningIsAchieved(g: Grid, depth: nat, maximize: bool, n: nat)
    requires depth > 0 && n <= Cols
    requires forall i {:trigger DropValue(g, depth, maximize, i)} :: 0 <= i < n && Legal(g, i) ==> -1000 <= DropValue(g, depth, maximize, i) <= 1000
    requires exists i :: 0 <= i < n && Legal(g, i)
    ensures 0 <= BestColumn(g, depth, maximize, n) < n && Legal(g, BestColumn(g, depth, maximize, n))
    ensures DropValue(g, depth, maximize, BestColumn(g, depth, maximize, n)) == Running(g, depth, maximize, n)
  {
    RunningStep(g, depth, maximize, n - 1);
    if Running(g, depth, maximize, n) != Running(g, depth, maximize, n - 1) {
    } else if exists i :: 0 <= i < n - 1 && Legal(g, i) {
      RunningIsAchieved(g, depth, maximize, n - 1);
    } else {
      RunningStart(g, depth, maximize, n - 1);
      assert false;
    }
  }

  /** The explicit running updates keep the extremum: no legal column
      scanned so far has a value better for the mover than the running best. */
  lemma {:induction false} RunningIsBest(g: Grid, depth: nat, maximize: bool, n: nat)
    requires depth > 0 && n <= Cols
    ensures forall i :: 0 <= i < n && Legal(g, i) ==>
      AsGood(maximize, Running(g, depth, maximize, n), DropValue(g, depth, maximize, i))
  {
    if n > 0 {
      RunningIsBest(g, depth, maximize, n - 1);
      RunningStep(g, depth, maximize, n - 1);
    }
  }

  /** The explicit running updates keep the first extremum: every legal
      column before the one whose value the best last took is strictly worse
      for the mover. */
  lemma {:induction false} RunningIsFirst(g: Grid, depth: nat, maximize: bool, n: nat)
    requires depth > 0 && n <= Cols
    ensures forall j :: 0 <= j < BestColumn(g, depth, maximize, n) && Legal(g, j) ==>
      !AsGood(maximize, DropValue(g, depth, maximize, j), Running(g, depth, maximize, n))
  {
    if n > 0 {
      RunningStep(g, depth, maximize, n - 1);
      if Running(g, depth, maximize, n) != Running(g, depth, maximize, n - 1) {
        RunningIsBest(g, depth, maximize, n - 1);
      } else {
        RunningIsFirst(g, depth, maximize, n - 1);
      }
    }
  }

  /** The value pilih_minimax gives root column c: O drops there, then X
      moves with Depth plies left. */
  ghost function RootValue(g: Grid, c: int): (v: int)
    requires 0 <= c < Cols
  {
    DropValue(g, Depth + 1, true, c)
  }

  /** Every search value is -1000, 0 or 1000. */
  lemma {:induction false} ValueRange(g: Grid, depth: nat, maximize: bool)
    ensures IsScore(MinimaxValue(g, depth, maximize))
    decreases depth, 1
  {
    if !Terminal(g, depth) {
      ChildrenAreScores(g, depth, maximize);
      FullIffNoLegal(g);
      var c :| 0 <= c < Cols && Legal(g, c);
      RunningIsAchieved(g, depth, maximize, Cols);
    }
  }

  /** Every legal column's value is a score. */
  lemma {:induction false} ChildrenAreScores(g: Grid, depth: nat, maximize: bool)
    requires depth > 0
    ensures forall c :: 0 <= c < Cols && Legal(g, c) ==> IsScore(DropValue(g, depth, maximize, c))
    decreases depth, 0
  {
    forall c | 0 <= c < Cols && Legal(g, c) ensures IsScore(DropValue(g, depth, maximize, c)) {
      ValueRange(AfterDrop(g, c, Mover(maximize)), depth - 1, !maximize);
    }
  }

  /** What minimax returns: the score at a terminal position; otherwise the
      value of some legal drop of the mover, with no legal drop better for
      the mover. */
  lemma MinimaxIsExtremum(g: Grid, depth: nat, maximize: bool)
    ensures Terminal(g, depth) ==> MinimaxValue(g, depth, maximize) == Score(g)
    ensures !Terminal(g, depth) ==>
      (exists c :: 0 <= c < Cols && Legal(g, c) &&
        MinimaxValue(g, depth, maximize) == MinimaxValue(AfterDrop(g, c, Mover(maximize)), depth - 1, !maximize)) &&
      (forall c :: 0 <= c < Cols && Legal(g, c) ==>
        AsGood(maximize, MinimaxValue(g, depth, maximize), MinimaxValue(AfterDrop(g, c, Mover(maximize)), depth - 1, !maximize)))
  {
    if !Terminal(g, depth) {
      ChildrenAreScores(g, depth, maximize);
      FullIffNoLegal(g);
      var c :| 0 <= c < Cols && Legal(g, c);
      RunningIsAchieved(g, depth, maximize, Cols);
      var w := BestColumn(g, depth, maximize, Cols);
      RunningIsBest(g, depth, maximize, Cols);
      forall j | 0 <= j < Cols && Legal(g, j)
        ensures AsGood(maximize, MinimaxValue(g, depth, maximize), MinimaxValue(AfterDrop(g, j, Mover(maximize)), depth - 1, !maximize))
      {
        assert Legal(g, j);
      }
    }
  }

  /** A root drop that wins at once is worth 1000, the most any root column can be worth. */
  lemma WinningRootDrop(g: Grid, c: int)
    requires WinningDrop(g, c, O)
    ensures RootValue(g, c) == 1000
    ensures forall j :: 0 <= j < Cols ==> RootValue(g, j) <= 1000
  {
    forall j | 0 <= j < Cols ensures RootValue(g, j) <= 1000 {
      ValueRange(AfterDrop(g, j, O), Depth, false);
    }
  }

  /** The column pilih_minimax's loop ends with, when some column is legal:
      a legal column of maximal root value, and the first such. */
  lemma RootChoice(g: Grid)
    requires exists c :: 0 <= c < Cols && Legal(g, c)
    ensures var col := BestColumn(g, Depth + 1, true, Cols);
      0 <= col < Cols && Legal(g, col) &&
      (forall c :: 0 <= c < Cols && Legal(g, c) ==> RootValue(g, c) <= RootValue(g, col)) &&
      (forall c :: 0 <= c < col && Legal(g, c) ==> RootValue(g, c) < RootValue(g, col))
  {
    var col := BestColumn(g, Depth + 1, true, Cols);
    forall c | 0 <= c < Cols && Legal(g, c) ensures -1000 <= DropValue(g, Depth + 1, true, c) <= 1000 {
      ValueRange(AfterDrop(g, c, O), Depth, false);
    }
    RunningIsAchieved(g, Depth + 1, true, Cols);
    RunningIsBest(g, Depth + 1, true, Cols);
    RunningIsFirst(g, Depth + 1, true, Cols);
  }
}
