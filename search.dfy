/**
 * The recursive minimax valuation (`minimax` in main.cpp): a pure game value
 * over board values, and the in-place search over the grid proved equal to it.
 */
module Search {
  import opened Position
  import opened Evaluation

  /** The initial running best of the maximizer, `numeric_limits<int>::min()`. */
  const IntMin: int := -0x8000_0000
  /** The initial running best of the minimizer, `numeric_limits<int>::max()`. */
  const IntMax: int := 0x7FFF_FFFF

  function Max(a: int, b: int): int
  {
    if a < b then b else a
  }

  function Min(a: int, b: int): int
  {
    if b < a then b else a
  }

  /** The mark the player to move places. */
  function Mark(maximizing: bool): char
  {
    if maximizing then PlayerX else PlayerO
  }

  /** The running best before any move is folded in. */
  function Initial(maximizing: bool): int
  {
    if maximizing then IntMin else IntMax
  }

  /** Folds one child value into the running best. */
  function Better(maximizing: bool, best: int, v: int): int
  {
    if maximizing then Max(best, v) else Min(best, v)
  }

  /**
   * The game value of a position with the maximizer (X) or the minimizer (O)
   * to move: a win already on the board decides, whoever is to move; a full
   * board is a draw; otherwise the best, for the player to move, of the values
   * of placing its mark on each unmarked cell and passing the turn.
   * The sentinels never escape: the result is always -10, 0 or +10.
   */
  function GameValue(b: Board, maximizing: bool): (r: int)
    ensures IsScore(r)
    decreases EmptyCount(b), 1
  {
    var score := Score(b);
    if score == 10 then score
    else if score == -10 then score
    else if !HasEmpty(b) then 0
    else Fold(b, maximizing, 0, Initial(maximizing))
  }

  /**
   * The fold of the search loop over cells k..8 in row-major order, starting
   * from the running best `best`.  Once an unmarked cell has been folded in,
   * the running best is a score.
   */
  function Fold(b: Board, maximizing: bool, k: nat, best: int): (r: int)
    requires k <= 9
    requires best == Initial(maximizing) || IsScore(best)
    ensures IsScore(best) || HasEmptyFrom(b, k) ==> IsScore(r)
    decreases EmptyCount(b), 0, 9 - k
  {
    if k == 9 then best
    else if b[k] == Empty then
      EmptyCountMark(b, k, Mark(maximizing));
      Fold(b, maximizing, k + 1, Better(maximizing, best, GameValue(b[k := Mark(maximizing)], !maximizing)))
    else Fold(b, maximizing, k + 1, best)
  }

  /** The value of the position after the player to move marks cell k. */
  function ChildValue(b: Board, maximizing: bool, k: nat): int
    requires k < 9
  {
    GameValue(b[k := Mark(maximizing)], !maximizing)
  }

  /**
   * The fold over cells k..8 is at least (maximizer) or at most (minimizer)
   * its starting value and every child value it folds in, and it is either
   * the starting value or one of those child values.
   */
  lemma {:induction false} FoldIsBest(b: Board, maximizing: bool, k: nat, best: int)
    requires k <= 9
    requires best == Initial(maximizing) || IsScore(best)
    ensures maximizing ==> best <= Fold(b, maximizing, k, best)
    ensures !maximizing ==> Fold(b, maximizing, k, best) <= best
    ensures forall j :: k <= j < 9 && b[j] == Empty ==>
      if maximizing then ChildValue(b, maximizing, j) <= Fold(b, maximizing, k, best)
      else Fold(b, maximizing, k, best) <= ChildValue(b, maximizing, j)
    ensures Fold(b, maximizing, k, best) == best ||
      exists j :: k <= j < 9 && b[j] == Empty && Fold(b, maximizing, k, best) == ChildValue(b, maximizing, j)
    decreases 9 - k
  {
    if k < 9 {
      if b[k] == Empty {
        var v := ChildValue(b, maximizing, k);
        FoldIsBest(b, maximizing, k + 1, Better(maximizing, best, v));
      } else {
        FoldIsBest(b, maximizing, k + 1, best);
      }
    }
  }

  /**
   * The game value is the minimax value: the evaluation when a line is won,
   * 0 on a full board, and otherwise the maximum (X to move) or minimum
   * (O to move) of the child values over the unmarked cells, attained at
   * one of them.
   */
  lemma GameValueIsMinimax(b: Board, maximizing: bool)
    ensures Score(b) != 0 ==> GameValue(b, maximizing) == Score(b)
    ensures Score(b) == 0 && !HasEmpty(b) ==> GameValue(b, maximizing) == 0
    ensures Score(b) == 0 && HasEmpty(b) ==>
      (forall j :: 0 <= j < 9 && b[j] == Empty ==>
         if maximizing then ChildValue(b, maximizing, j) <= GameValue(b, maximizing)
         else GameValue(b, maximizing) <= ChildValue(b, maximizing, j)) &&
      (exists j :: 0 <= j < 9 && b[j] == Empty && GameValue(b, maximizing) == ChildValue(b, maximizing, j))
  {
    ScoreIsFirstWinningLine(b);
    if Score(b) == 0 && HasEmpty(b) {
      FoldIsBest(b, maximizing, 0, Initial(maximizing));
    }
  }

  /**
   * `minimax`: the value of the position on the grid with the given player to
   * move.  It marks each unmarked cell in row-major order, recurses with the
   * turn passed, and unmarks the cell again, so the grid is as it was on
   * entry.  `depth` is passed down but does not affect the result.
   */
  method Minimax(board: array2<char>, depth: int, isMaximizingPlayer: bool) returns (score: int)
    requires IsGrid(board)
    modifies board
    ensures Cells(board) == old(Cells(board))
    ensures score == GameValue(old(Cells(board)), isMaximizingPlayer)
    ensures IsScore(score)
    decreases EmptyCount(Cells(board))
  {
    ghost var b := Cells(board);
    score := Evaluate(board);
    if score == 10 {
      return score;
    }
    if score == -10 {
      return score;
    }
    var movesLeft := IsMovesLeft(board);
    if movesLeft == false {
      return 0;
    }
    // main.cpp writes the maximizer's and the minimizer's loops out
    // separately; they differ only in the mark placed, the initial running
    // best and whether it folds with max or min, which is what `Mark`,
    // `Initial` and `Better` select here.
    var mark := Mark(isMaximizingPlayer);
    var best := Initial(isMaximizingPlayer);
    for i := 0 to 3
      invariant Cells(board) == b
      invariant best == Initial(isMaximizingPlayer) || IsScore(best)
      invariant Fold(b, isMaximizingPlayer, 3 * i, best) == GameValue(b, isMaximizingPlayer)
    {
      for j := 0 to 3
        invariant Cells(board) == b
        invariant best == Initial(isMaximizingPlayer) || IsScore(best)
        invariant Fold(b, isMaximizingPlayer, 3 * i + j, best) == GameValue(b, isMaximizingPlayer)
      {
        CellIndex(board, i, j);
        if board[i, j] == Empty {
          SetCell(board, i, j, mark);
          EmptyCountMark(b, 3 * i + j, mark);
          var v := Minimax(board, depth + 1, !isMaximizingPlayer);
          best := Better(isMaximizingPlayer, best, v);
          SetCell(board, i, j, Empty);
          assert b[3 * i + j := mark][3 * i + j := Empty] == b;
        }
      }
    }
    return best;
  }
}
