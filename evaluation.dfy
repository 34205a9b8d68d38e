/**
 * Terminal evaluation and move availability: the two read-only scans of the
 * grid (`evaluate` and `isMovesLeft` in main.cpp).
 */
module Evaluation {
  import opened Position

  /** The three values the evaluation can yield. */
  predicate IsScore(v: int)
  {
    v == -10 || v == 0 || v == 10
  }

  /**
   * The evaluation of lines k..7, in scan order: the first line whose three
   * cells are equal and hold X gives +10, O gives -10; three equal cells of
   * any other character do not stop the scan.
   */
  function ScoreFrom(b: Board, k: nat): (r: int)
    requires k <= 8
    ensures IsScore(r)
    decreases 8 - k
  {
    if k == 8 then 0
    else
      var l := Line(k);
      if b[l.0] == b[l.1] && b[l.1] == b[l.2] && b[l.0] == PlayerX then 10
      else if b[l.0] == b[l.1] && b[l.1] == b[l.2] && b[l.0] == PlayerO then -10
      else ScoreFrom(b, k + 1)
  }

  /** The evaluation of a whole board. */
  function Score(b: Board): (r: int)
    ensures IsScore(r)
  {
    ScoreFrom(b, 0)
  }

  /** What the scan of lines k..7 yields, line by line. */
  lemma {:induction false} ScoreFromFirstLine(b: Board, k: nat)
    requires k <= 8
    ensures ScoreFrom(b, k) == 10 <==>
      exists w :: k <= w < 8 && Full(b, w, PlayerX) && forall j :: k <= j < w ==> !Full(b, j, PlayerO)
    ensures ScoreFrom(b, k) == -10 <==>
      exists w :: k <= w < 8 && Full(b, w, PlayerO) && forall j :: k <= j < w ==> !Full(b, j, PlayerX)
    ensures ScoreFrom(b, k) == 0 <==>
      forall j :: k <= j < 8 ==> !Full(b, j, PlayerX) && !Full(b, j, PlayerO)
    decreases 8 - k
  {
    if k < 8 {
      ScoreFromFirstLine(b, k + 1);
      if Full(b, k, PlayerX) {
        assert ScoreFrom(b, k) == 10;
      } else if Full(b, k, PlayerO) {
        assert ScoreFrom(b, k) == -10;
      } else {
        assert ScoreFrom(b, k) == ScoreFrom(b, k + 1);
        if ScoreFrom(b, k) == 10 {
          var w :| k + 1 <= w < 8 && Full(b, w, PlayerX) && forall j :: k + 1 <= j < w ==> !Full(b, j, PlayerO);
          assert forall j :: k <= j < w ==> !Full(b, j, PlayerO);
        }
        if exists w :: k <= w < 8 && Full(b, w, PlayerX) && forall j :: k <= j < w ==> !Full(b, j, PlayerO) {
          var w :| k <= w < 8 && Full(b, w, PlayerX) && forall j :: k <= j < w ==> !Full(b, j, PlayerO);
          assert w != k;
          assert forall j :: k + 1 <= j < w ==> !Full(b, j, PlayerO);
        }
        if ScoreFrom(b, k) == -10 {
          var w :| k + 1 <= w < 8 && Full(b, w, PlayerO) && forall j :: k + 1 <= j < w ==> !Full(b, j, PlayerX);
          assert forall j :: k <= j < w ==> !Full(b, j, PlayerX);
        }
        if exists w :: k <= w < 8 && Full(b, w, PlayerO) && forall j :: k <= j < w ==> !Full(b, j, PlayerX) {
          var w :| k <= w < 8 && Full(b, w, PlayerO) && forall j :: k <= j < w ==> !Full(b, j, PlayerX);
          assert w != k;
          assert forall j :: k + 1 <= j < w ==> !Full(b, j, PlayerX);
        }
      }
    }
  }

  /**
   * The evaluation is decided by the first line, in the order rows, columns,
   * diagonals, that holds three X or three O: +10 if that line is X's, -10 if
   * it is O's, and 0 exactly when no line is full of either mark.
   */
  lemma ScoreIsFirstWinningLine(b: Board)
    ensures IsScore(Score(b))
    ensures Score(b) == 10 <==>
      exists w :: 0 <= w < 8 && Full(b, w, PlayerX) && forall j :: 0 <= j < w ==> !Full(b, j, PlayerO)
    ensures Score(b) == -10 <==>
      exists w :: 0 <= w < 8 && Full(b, w, PlayerO) && forall j :: 0 <= j < w ==> !Full(b, j, PlayerX)
    ensures Score(b) == 0 <==>
      forall j :: 0 <= j < 8 ==> !Full(b, j, PlayerX) && !Full(b, j, PlayerO)
  {
    ScoreFromFirstLine(b, 0);
  }

  /**
   * On a board where O holds no line, the evaluation is +10 exactly when X
   * holds some line (and symmetrically for O).
   */
  lemma ScoreOneSided(b: Board)
    ensures (forall j :: 0 <= j < 8 ==> !Full(b, j, PlayerO)) ==>
      (Score(b) == 10 <==> exists w :: 0 <= w < 8 && Full(b, w, PlayerX))
    ensures (forall j :: 0 <= j < 8 ==> !Full(b, j, PlayerX)) ==>
      (Score(b) == -10 <==> exists w :: 0 <= w < 8 && Full(b, w, PlayerO))
  {
    ScoreFromFirstLine(b, 0);
  }

  /**
   * `evaluate`: scans the rows, then the columns, then the two diagonals, and
   * returns on the first line of three equal X or O cells.  It only reads the
   * grid.
   */
  method Evaluate(board: array2<char>) returns (r: int)
    requires IsGrid(board)
    ensures r == Score(Cells(board))
  {
    ghost var b := Cells(board);
    for row := 0 to 3
      invariant Score(b) == ScoreFrom(b, row)
    {
      if board[row, 0] == board[row, 1] && board[row, 1] == board[row, 2] {
        if board[row, 0] == PlayerX {
          return 10;
        } else if board[row, 0] == PlayerO {
          return -10;
        }
      }
    }
    for col := 0 to 3
      invariant Score(b) == ScoreFrom(b, 3 + col)
    {
      if board[0, col] == board[1, col] && board[1, col] == board[2, col] {
        if board[0, col] == PlayerX {
          return 10;
        } else if board[0, col] == PlayerO {
          return -10;
        }
      }
    }
    if board[0, 0] == board[1, 1] && board[1, 1] == board[2, 2] {
      if board[0, 0] == PlayerX {
        return 10;
      } else if board[0, 0] == PlayerO {
        return -10;
      }
    }
    if board[0, 2] == board[1, 1] && board[1, 1] == board[2, 0] {
      if board[0, 2] == PlayerX {
        return 10;
      } else if board[0, 2] == PlayerO {
        return -10;
      }
    }
    return 0;
  }

  /**
   * `isMovesLeft`: true exactly when some cell of the grid is unmarked.  It
   * only reads the grid.
   */
  method IsMovesLeft(board: array2<char>) returns (r: bool)
    requires IsGrid(board)
    ensures r <==> exists i, j :: 0 <= i < 3 && 0 <= j < 3 && board[i, j] == Empty
    ensures r == HasEmpty(Cells(board))
  {
    for i := 0 to 3
      invariant forall p, q :: 0 <= p < i && 0 <= q < 3 ==> board[p, q] != Empty
    {
      for j := 0 to 3
        invariant forall q :: 0 <= q < j ==> board[i, q] != Empty
        invariant forall p, q :: 0 <= p < i && 0 <= q < 3 ==> board[p, q] != Empty
      {
        if board[i, j] == Empty {
          HasEmptyIff(Cells(board));
          return true;
        }
      }
    }
    assert forall k :: 0 <= k < 9 ==> Cells(board)[k] == board[k / 3, k % 3];
    HasEmptyIff(Cells(board));
    return false;
  }
}
