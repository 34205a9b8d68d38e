/**
 * Best-move selection (`findBestMove` in main.cpp): the row-major scan that
 * keeps the first cell whose X move has the greatest minimax value.
 */
module BestMove {
  import opened Position
  import opened Evaluation
  import opened Search

  /** The value of X marking cell k with O to move next: `minimax(board, 0, false)` after the mark. */
  function MoveValue(b: Board, k: nat): (r: int)
    requires k < 9
    ensures IsScore(r)
  {
    GameValue(b[k := PlayerX], false)
  }

  /**
   * The values the engine compares, cells k..8 in row-major order (element
   * j - k is the value of cell j, whether or not the cell is free).
   */
  function MoveValuesFrom(b: Board, k: nat): (vs: seq<int>)
    requires k <= 9
    ensures |vs| == 9 - k
    ensures forall j {:trigger MoveValue(b, j)} :: k <= j < 9 ==> vs[j - k] == MoveValue(b, j)
    ensures forall j :: 0 <= j < |vs| ==> IsScore(vs[j])
    decreases 9 - k
  {
    if k == 9 then [] else [MoveValue(b, k)] + MoveValuesFrom(b, k + 1)
  }

  /** Element k of the compared values is the value of marking cell k. */
  function MoveValues(b: Board): (vs: seq<int>)
    ensures |vs| == 9
    ensures forall k {:trigger MoveValue(b, k)} :: 0 <= k < 9 ==> vs[k] == MoveValue(b, k)
    ensures forall k :: 0 <= k < 9 ==> IsScore(vs[k])
  {
    MoveValuesFrom(b, 0)
  }

  /** The value the search computes for the board with X at cell k is element k of the compared values. */
  lemma MoveValuesOfChild(b: Board, k: nat, c: Board, v: int)
    requires k < 9 && c == b[k := PlayerX] && v == GameValue(c, false)
    ensures MoveValues(b)[k] == v
  {
    assert MoveValue(b, k) == v;
  }

  /**
   * The scan of cells k..8 from the running best value and move, given the
   * values vals of the cells: an unmarked cell replaces the running best only
   * when its value is strictly greater.
   */
  function BestFrom(b: Board, vals: seq<int>, k: nat, bestVal: int, best: Move): (r: Move)
    requires |vals| == 9 && k <= 9
    ensures r == best || (0 <= r.row < 3 && 0 <= r.col < 3 && k <= Index(r) && b[Index(r)] == Empty)
    decreases 9 - k
  {
    if k == 9 then best
    else if b[k] == Empty && vals[k] > bestVal then BestFrom(b, vals, k + 1, vals[k], MoveAt(k))
    else BestFrom(b, vals, k + 1, bestVal, best)
  }

  /** The move the engine selects for X on board b: (-1, -1) or an unmarked cell. */
  function BestMoveOf(b: Board): (r: Move)
    ensures r == NoMove || (0 <= r.row < 3 && 0 <= r.col < 3 && b[Index(r)] == Empty)
  {
    BestFrom(b, MoveValues(b), 0, IntMin, NoMove)
  }

  /**
   * m is an unmarked cell whose value is the greatest over all unmarked cells,
   * and every unmarked cell before it in row-major order has a smaller value.
   */
  predicate IsFirstBest(b: Board, vals: seq<int>, m: Move)
    requires |vals| == 9
  {
    && 0 <= m.row < 3 && 0 <= m.col < 3
    && b[Index(m)] == Empty
    && (forall j :: 0 <= j < 9 && b[j] == Empty ==> vals[j] <= vals[Index(m)])
    && (forall j :: 0 <= j < Index(m) && b[j] == Empty ==> vals[j] < vals[Index(m)])
  }

  /** What the scan has established after cells 0..k-1. */
  predicate Scanned(b: Board, vals: seq<int>, k: nat, bestVal: int, best: Move)
    requires |vals| == 9 && k <= 9
  {
    if best == NoMove then
      bestVal == IntMin && forall j :: 0 <= j < k ==> b[j] != Empty
    else
      && 0 <= best.row < 3 && 0 <= best.col < 3
      && Index(best) < k && b[Index(best)] == Empty
      && bestVal == vals[Index(best)]
      && (forall j :: 0 <= j < k && b[j] == Empty ==> vals[j] <= bestVal)
      && (forall j :: 0 <= j < Index(best) && b[j] == Empty ==> vals[j] < bestVal)
  }

  /** A strictly better unmarked cell k becomes the running best. */
  lemma ScannedTake(b: Board, vals: seq<int>, k: nat, bestVal: int, best: Move)
    requires |vals| == 9 && k < 9
    requires Scanned(b, vals, k, bestVal, best)
    requires b[k] == Empty && vals[k] > bestVal
    ensures Scanned(b, vals, k + 1, vals[k], MoveAt(k))
  {
  }

  /** Any other cell k leaves the running best as it is: before any unmarked cell. */
  lemma ScannedSkipNone(b: Board, vals: seq<int>, k: nat, bestVal: int)
    requires |vals| == 9 && k < 9
    requires IntMin < vals[k]
    requires Scanned(b, vals, k, bestVal, NoMove)
    requires !(b[k] == Empty && vals[k] > bestVal)
    ensures Scanned(b, vals, k + 1, bestVal, NoMove)
  {
    assert b[k] != Empty;
  }

  /** Any other cell k leaves the running best as it is: after an unmarked cell. */
  lemma ScannedSkipSome(b: Board, vals: seq<int>, k: nat, bestVal: int, best: Move)
    requires |vals| == 9 && k < 9
    requires best != NoMove
    requires Scanned(b, vals, k, bestVal, best)
    requires !(b[k] == Empty && vals[k] > bestVal)
    ensures Scanned(b, vals, k + 1, bestVal, best)
  {
    assert forall j :: 0 <= j < k + 1 && b[j] == Empty ==> vals[j] <= bestVal;
  }

  /** Scanning the remaining cells keeps what the scan has established. */
  lemma {:induction false} BestFromScans(b: Board, vals: seq<int>, k: nat, bestVal: int, best: Move)
    requires |vals| == 9 && k <= 9
    requires forall j :: 0 <= j < 9 ==> IntMin < vals[j]
    requires Scanned(b, vals, k, bestVal, best)
    ensures var m := BestFrom(b, vals, k, bestVal, best);
      Scanned(b, vals, 9, if m == NoMove then IntMin else vals[Index(m)], m)
    decreases 9 - k
  {
    if k < 9 {
      if b[k] == Empty && vals[k] > bestVal {
        ScannedTake(b, vals, k, bestVal, best);
        BestFromScans(b, vals, k + 1, vals[k], MoveAt(k));
      } else {
        if best == NoMove {
          ScannedSkipNone(b, vals, k, bestVal);
        } else {
          ScannedSkipSome(b, vals, k, bestVal, best);
        }
        BestFromScans(b, vals, k + 1, bestVal, best);
      }
    }
  }

  /**
   * With no unmarked cell the engine returns (-1, -1); otherwise it returns
   * the first unmarked cell, in row-major order, whose value is maximal.
   */
  lemma BestMoveIsFirstMaximum(b: Board)
    ensures !HasEmpty(b) ==> BestMoveOf(b) == NoMove
    ensures HasEmpty(b) ==> IsFirstBest(b, MoveValues(b), BestMoveOf(b))
  {
    forall j | 0 <= j < 9
      ensures IntMin < MoveValues(b)[j]
    {
      assert MoveValues(b)[j] == MoveValue(b, j);
    }
    HasEmptyIff(b);
    BestFromScans(b, MoveValues(b), 0, IntMin, NoMove);
  }

  /** At most one move is the first maximal one, so the selection is determined. */
  lemma FirstBestIsUnique(b: Board, vals: seq<int>, m: Move, m': Move)
    requires |vals| == 9
    requires IsFirstBest(b, vals, m) && IsFirstBest(b, vals, m')
    ensures m == m'
  {
  }

  /**
   * On a position nobody has won yet and with a free cell, the selected
   * move achieves the game value of the position with X to move.
   */
  lemma BestMoveAchievesGameValue(b: Board)
    requires Score(b) == 0 && HasEmpty(b)
    ensures var m := BestMoveOf(b); m != NoMove && MoveValue(b, Index(m)) == GameValue(b, true)
  {
    BestMoveIsFirstMaximum(b);
    GameValueIsMinimax(b, true);
    var m := BestMoveOf(b);
    var j :| 0 <= j < 9 && b[j] == Empty && GameValue(b, true) == ChildValue(b, true, j);
    assert ChildValue(b, true, j) == MoveValue(b, j) == MoveValues(b)[j];
    assert ChildValue(b, true, Index(m)) == MoveValue(b, Index(m)) == MoveValues(b)[Index(m)];
    assert MoveValues(b)[j] <= MoveValues(b)[Index(m)];
  }

  /** Marking cell k completes line w for X while O holds no line: the move is worth +10. */
  lemma CompletingMoveWins(b: Board, k: nat, w: nat)
    requires k < 9 && w < 8
    requires forall j :: 0 <= j < 8 ==> !Full(b, j, PlayerO)
    requires Full(b[k := PlayerX], w, PlayerX)
    ensures MoveValue(b, k) == 10
  {
    var c := b[k := PlayerX];
    forall j | 0 <= j < 8
      ensures !Full(c, j, PlayerO)
    {
      assert !Full(b, j, PlayerO);
    }
    ScoreOneSided(c);
    assert Score(c) == 10;
  }

  /**
   * Immediate win: if O holds no line and X can complete line w by marking
   * the free cell k, the selected move has value +10.
   */
  lemma WinningMoveIsFound(b: Board, k: nat, w: nat)
    requires k < 9 && b[k] == Empty && w < 8
    requires forall j :: 0 <= j < 8 ==> !Full(b, j, PlayerO)
    requires Full(b[k := PlayerX], w, PlayerX)
    ensures var m := BestMoveOf(b); m != NoMove && MoveValue(b, Index(m)) == 10
  {
    CompletingMoveWins(b, k, w);
    HasEmptyIff(b);
    BestMoveIsFirstMaximum(b);
    var m := BestMoveOf(b);
    assert MoveValues(b)[k] <= MoveValues(b)[Index(m)];
    assert IsScore(MoveValue(b, Index(m)));
  }

  /**
   * An X mark at cell k that completes no X line lets O complete line w at
   * the other free cell t: the move is worth -10.
   */
  lemma UnblockedLoses(b: Board, k: nat, t: nat, w: nat)
    requires k < 9 && t < 9 && k != t && b[k] == Empty && b[t] == Empty && w < 8
    requires NoLine(b[k := PlayerX], PlayerX)
    requires Full(b[t := PlayerO], w, PlayerO)
    ensures MoveValue(b, k) == -10
  {
    var c := b[k := PlayerX];
    var d := c[t := PlayerO];
    forall j | 0 <= j < 8
      ensures !Full(d, j, PlayerX)
    {
      assert !Full(c, j, PlayerX);
    }
    assert Full(d, w, PlayerO);
    ScoreOneSided(d);
    ScoreOneSided(c);
    GameValueIsMinimax(d, true);
    GameValueIsMinimax(c, false);
    if Score(c) == 0 {
      HasEmptyIff(c);
      assert ChildValue(c, false, t) == GameValue(d, true) == -10;
    }
  }

  /**
   * Forced block: O can complete line w at the free cell t, no X move wins
   * at once, and blocking at t is not lost.  Then every other move is lost
   * and the engine selects t.
   */
  lemma ForcedBlock(b: Board, t: nat, w: nat)
    requires t < 9 && b[t] == Empty && w < 8
    requires Full(b[t := PlayerO], w, PlayerO)
    requires forall k :: 0 <= k < 9 && b[k] == Empty ==> NoLine(b[k := PlayerX], PlayerX)
    requires MoveValue(b, t) > -10
    ensures BestMoveOf(b) == MoveAt(t)
  {
    forall k | 0 <= k < 9 && b[k] == Empty && k != t
      ensures MoveValue(b, k) == -10
    {
      UnblockedLoses(b, k, t, w);
    }
    OnlyLiveMoveSelected(b, t);
  }

  /** A free cell that is not lost while every other free cell is lost is the move selected. */
  lemma OnlyLiveMoveSelected(b: Board, t: nat)
    requires t < 9 && b[t] == Empty && MoveValue(b, t) > -10
    requires forall k :: 0 <= k < 9 && b[k] == Empty && k != t ==> MoveValue(b, k) == -10
    ensures BestMoveOf(b) == MoveAt(t)
  {
    HasEmptyIff(b);
    BestMoveIsFirstMaximum(b);
    var m := BestMoveOf(b);
    var vals := MoveValues(b);
    assert vals[t] == MoveValue(b, t) <= vals[Index(m)] == MoveValue(b, Index(m));
    assert Index(m) == t;
    assert m == MoveAt(t) by {
      var n := MoveAt(t);
      assert 3 * m.row + m.col == 3 * n.row + n.col;
    }
  }

  /**
   * Double threat: O can complete a line at each of two different free cells
   * and no X move wins at once.  Every move is then lost, and the
   * engine selects the first free cell in row-major order.
   */
  lemma DoubleThreatTakesFirstFree(b: Board, t1: nat, w1: nat, t2: nat, w2: nat)
    requires t1 < 9 && t2 < 9 && t1 != t2 && b[t1] == Empty && b[t2] == Empty && w1 < 8 && w2 < 8
    requires Full(b[t1 := PlayerO], w1, PlayerO) && Full(b[t2 := PlayerO], w2, PlayerO)
    requires forall k :: 0 <= k < 9 && b[k] == Empty ==> NoLine(b[k := PlayerX], PlayerX)
    ensures forall k :: 0 <= k < 9 && b[k] == Empty ==> MoveValue(b, k) == -10
    ensures var m := BestMoveOf(b);
      m != NoMove && b[Index(m)] == Empty && forall j :: 0 <= j < Index(m) ==> b[j] != Empty
  {
    forall k | 0 <= k < 9 && b[k] == Empty
      ensures MoveValue(b, k) == -10
    {
      if k == t1 {
        UnblockedLoses(b, k, t2, w2);
      } else {
        UnblockedLoses(b, k, t1, w1);
      }
    }
    HasEmptyIff(b);
    BestMoveIsFirstMaximum(b);
    var m := BestMoveOf(b);
    forall j | 0 <= j < Index(m)
      ensures b[j] != Empty
    {
      assert MoveValues(b)[j] == MoveValue(b, j);
      assert MoveValues(b)[Index(m)] == MoveValue(b, Index(m)) == -10;
    }
  }

  /** With X to move, O holding no line and an X mark at the free cell k completing line w, X wins: the position is worth +10. */
  lemma WinNextMove(d: Board, k: nat, w: nat)
    requires k < 9 && d[k] == Empty && w < 8
    requires NoLine(d, PlayerO)
    requires Full(d[k := PlayerX], w, PlayerX)
    ensures GameValue(d, true) == 10
  {
    var e := d[k := PlayerX];
    forall j | 0 <= j < 8
      ensures !Full(e, j, PlayerO)
    {
      assert !Full(d, j, PlayerO);
    }
    ScoreOneSided(e);
    assert Score(e) == 10;
    ScoreOneSided(d);
    HasEmptyIff(d);
    GameValueIsMinimax(d, true);
    assert ChildValue(d, true, k) == GameValue(e, false) == 10;
  }

  /** The position of `ForkBeforeWin`: X can win at once at (1, 0), and (0, 1) sets up two threats. */
  const ForkBoard: Board := "O   XX  O"

  /** Each reply of O to the X mark at (0, 1) on `ForkBoard` leaves X an immediate win. */
  lemma ForkRepliesLose(t: nat)
    requires t < 9 && ForkBoard[1 := PlayerX][t] == Empty
    ensures GameValue(ForkBoard[1 := PlayerX][t := PlayerO], true) == 10
  {
    var d := ForkBoard[1 := PlayerX][t := PlayerO];
    assert NoLine(d, PlayerO) by {
      forall j | 0 <= j < 8
        ensures !Full(d, j, PlayerO)
      {
        assert d[4] == PlayerX && d[1] == PlayerX && d[5] == PlayerX;
      }
    }
    if t == 3 {
      WinNextMove(d, 7, 4);
    } else {
      WinNextMove(d, 3, 1);
    }
  }

  /** The X mark at (0, 1) on `ForkBoard` threatens both (1, 0) and (2, 1): it is worth +10. */
  lemma ForkWins()
    ensures MoveValue(ForkBoard, 1) == 10
  {
    var c := ForkBoard[1 := PlayerX];
    assert NoLine(c, PlayerX) && NoLine(c, PlayerO) by {
      forall j | 0 <= j < 8
        ensures !Full(c, j, PlayerX) && !Full(c, j, PlayerO)
      {
      }
    }
    ScoreIsFirstWinningLine(c);
    HasEmptyIff(c);
    GameValueIsMinimax(c, false);
    var j :| 0 <= j < 9 && c[j] == Empty && GameValue(c, false) == ChildValue(c, false, j);
    ForkRepliesLose(j);
  }

  /** A free cell worth +10 with no free cell before it in row-major order is the move selected. */
  lemma FirstFreeWinSelected(b: Board, k: nat)
    requires k < 9 && b[k] == Empty && MoveValue(b, k) == 10
    requires forall j :: 0 <= j < k ==> b[j] != Empty
    ensures BestMoveOf(b) == MoveAt(k)
  {
    HasEmptyIff(b);
    BestMoveIsFirstMaximum(b);
    var m := BestMoveOf(b);
    var vals := MoveValues(b);
    assert vals[k] == 10;
    assert k <= Index(m);
    assert Index(m) == k;
    assert m == MoveAt(k) by {
      var n := MoveAt(k);
      assert 3 * m.row + m.col == 3 * n.row + n.col;
    }
  }

  /**
   * Without a preference for shallower wins, an immediate win is not always
   * the move selected: on `ForkBoard` X wins at once at (1, 0), but the
   * engine selects the fork at (0, 1), worth +10 as well, which comes first
   * in row-major order.
   */
  lemma ForkBeforeWin()
    ensures Full(ForkBoard[3 := PlayerX], 1, PlayerX) && MoveValue(ForkBoard, 3) == 10
    ensures MoveValue(ForkBoard, 1) == 10
    ensures BestMoveOf(ForkBoard) == Move(0, 1)
  {
    CompletingMoveWins(ForkBoard, 3, 1);
    ForkWins();
    FirstFreeWinSelected(ForkBoard, 1);
  }

  /** One step of the scan: cell k either replaces the running best or is passed over. */
  lemma BestFromStep(b: Board, vals: seq<int>, k: nat, bestVal: int, best: Move)
    requires |vals| == 9 && k < 9
    ensures b[k] == Empty && vals[k] > bestVal ==>
      BestFrom(b, vals, k, bestVal, best) == BestFrom(b, vals, k + 1, vals[k], MoveAt(k))
    ensures !(b[k] == Empty && vals[k] > bestVal) ==>
      BestFrom(b, vals, k, bestVal, best) == BestFrom(b, vals, k + 1, bestVal, best)
  {
  }

  /**
   * The make-move, evaluate, undo-move step of `findBestMove` for the unmarked
   * cell (i, j): X marks it, `minimax` values the result with O to move, and
   * the cell is unmarked again.
   */
  method TryMove(board: array2<char>, i: nat, j: nat) returns (moveVal: int)
    requires IsGrid(board) && i < 3 && j < 3 && board[i, j] == Empty
    modifies board
    ensures Cells(board) == old(Cells(board))
    ensures moveVal == MoveValues(old(Cells(board)))[3 * i + j]
  {
    ghost var b := Cells(board);
    SetCell(board, i, j, PlayerX);
    ghost var c := Cells(board);
    moveVal := Minimax(board, 0, false);
    MoveValuesOfChild(b, 3 * i + j, c, moveVal);
    SetCell(board, i, j, Empty);
    assert c[3 * i + j := Empty] == b;
  }

  /**
   * `findBestMove`: tries an X mark on each unmarked cell in row-major order,
   * values it with `minimax` (O to move), unmarks the cell, and keeps the
   * first cell of strictly greatest value; the grid is as it was on entry.
   */
  method FindBestMove(board: array2<char>) returns (bestMove: Move)
    requires IsGrid(board)
    modifies board
    ensures Cells(board) == old(Cells(board))
    ensures bestMove == BestMoveOf(old(Cells(board)))
  {
    ghost var b := Cells(board);
    ghost var vals := MoveValues(b);
    ghost var goal := BestMoveOf(b);
    var bestVal := IntMin;
    bestMove := Move(-1, -1);
    for i := 0 to 3
      invariant Cells(board) == b
      invariant BestFrom(b, vals, 3 * i, bestVal, bestMove) == goal
    {
      for j := 0 to 3
        invariant Cells(board) == b
        invariant BestFrom(b, vals, 3 * i + j, bestVal, bestMove) == goal
      {
        ghost var k := 3 * i + j;
        CellIndex(board, i, j);
        BestFromStep(b, vals, k, bestVal, bestMove);
        if board[i, j] == Empty {
          var moveVal := TryMove(board, i, j);
          if moveVal > bestVal {
            bestMove := Move(i, j);
            bestVal := moveVal;
          }
        }
      }
    }
    return bestMove;
  }
}
