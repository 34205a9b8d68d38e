/**
 * The position: a 3×3 grid of cell marks, together with the shapes the search
 * engine reads it through.
 *
 * The engine's methods work on the grid itself, an `array2<char>` of 3 rows and
 * 3 columns that they change in place.  Their specifications speak of a
 * `Board`, the same nine cells as a value, in row-major order: cell (i, j) is
 * element 3 * i + j.  Cells may hold any character; the engine only ever
 * compares them with the three marks below.
 */
module Position {

  /** The mark of the maximizing (automated) player. */
  const PlayerX: char := 'X'
  /** The mark of the minimizing player. */
  const PlayerO: char := 'O'
  /** An unmarked cell. */
  const Empty: char := ' '

  /** The nine cells of a position, row-major. */
  type Board = s: seq<char> | |s| == 9 witness "         "

  /** A coordinate pair; (-1, -1) stands for "no move found". */
  datatype Move = Move(row: int, col: int)

  const NoMove: Move := Move(-1, -1)

  /** The grid shape the engine expects: 3 rows of 3 cells. */
  predicate IsGrid(a: array2<char>)
  {
    a.Length0 == 3 && a.Length1 == 3
  }

  /** The current contents of the grid as a board value. */
  function Cells(a: array2<char>): (b: Board)
    requires IsGrid(a)
    reads a
    ensures forall i, j :: 0 <= i < 3 && 0 <= j < 3 ==> b[3 * i + j] == a[i, j]
  {
    [a[0, 0], a[0, 1], a[0, 2],
     a[1, 0], a[1, 1], a[1, 2],
     a[2, 0], a[2, 1], a[2, 2]]
  }

  /**
   * Writes mark c into cell (i, j): the make-move and undo-move step of the
   * search.  Only that cell of the board value changes.
   */
  method SetCell(a: array2<char>, i: nat, j: nat, c: char)
    requires IsGrid(a) && i < 3 && j < 3
    modifies a
    ensures Cells(a) == old(Cells(a))[3 * i + j := c]
  {
    a[i, j] := c;
  }

  /** The coordinates of the cell at row-major index k. */
  function MoveAt(k: nat): (m: Move)
    requires k < 9
    ensures 0 <= m.row < 3 && 0 <= m.col < 3 && 3 * m.row + m.col == k
  {
    if k < 3 then Move(0, k) else if k < 6 then Move(1, k - 3) else Move(2, k - 6)
  }

  /** Cell (i, j) of the grid is element 3 * i + j of the board, at the coordinates `MoveAt` gives. */
  lemma CellIndex(a: array2<char>, i: nat, j: nat)
    requires IsGrid(a) && i < 3 && j < 3
    ensures Cells(a)[3 * i + j] == a[i, j]
    ensures MoveAt(3 * i + j) == Move(i, j)
  {
  }

  /** The row-major index of a move's cell. */
  function Index(m: Move): int
  {
    3 * m.row + m.col
  }

  /** Some cell among k..8 is unmarked. */
  predicate HasEmptyFrom(b: Board, k: nat)
    decreases 9 - k
  {
    k < 9 && (b[k] == Empty || HasEmptyFrom(b, k + 1))
  }

  /** There is at least one unmarked cell. */
  predicate HasEmpty(b: Board)
  {
    HasEmptyFrom(b, 0)
  }

  lemma {:induction false} HasEmptyFromIff(b: Board, k: nat)
    ensures HasEmptyFrom(b, k) <==> exists j :: k <= j < 9 && b[j] == Empty
    decreases 9 - k
  {
    if k < 9 {
      HasEmptyFromIff(b, k + 1);
      if HasEmptyFrom(b, k + 1) {
        var j :| k + 1 <= j < 9 && b[j] == Empty;
      }
    }
  }

  /** `HasEmpty` holds exactly when some cell is unmarked. */
  lemma HasEmptyIff(b: Board)
    ensures HasEmpty(b) <==> exists j :: 0 <= j < 9 && b[j] == Empty
  {
    HasEmptyFromIff(b, 0);
  }

  /** The number of unmarked cells; the measure the search decreases. */
  function EmptyCount(s: seq<char>): nat
  {
    if s == [] then 0
    else (if s[0] == Empty then 1 else 0) + EmptyCount(s[1..])
  }

  /** Marking an unmarked cell leaves exactly one fewer unmarked cell. */
  lemma {:induction false} EmptyCountMark(s: seq<char>, k: nat, c: char)
    requires k < |s| && s[k] == Empty && c != Empty
    ensures EmptyCount(s[k := c]) == EmptyCount(s) - 1
  {
    if k == 0 {
      assert s[k := c][1..] == s[1..];
    } else {
      assert s[k := c][1..] == s[1..][k - 1 := c];
      EmptyCountMark(s[1..], k - 1, c);
    }
  }

  /**
   * The 8 lines the evaluation scans, in the order the source scans them:
   * rows 0..2, then columns 0..2, then the main diagonal and the anti-diagonal.
   */
  function Line(k: nat): (l: (nat, nat, nat))
    requires k < 8
    ensures l.0 < 9 && l.1 < 9 && l.2 < 9
  {
    if k < 3 then (3 * k, 3 * k + 1, 3 * k + 2)
    else if k < 6 then (k - 3, k, k + 3)
    else if k == 6 then (0, 4, 8)
    else (2, 4, 6)
  }

  /** Line k holds three marks p. */
  predicate Full(b: Board, k: nat, p: char)
    requires k < 8
  {
    var l := Line(k);
    b[l.0] == p && b[l.1] == p && b[l.2] == p
  }

  /** No line holds three marks p. */
  predicate NoLine(b: Board, p: char)
  {
    forall j :: 0 <= j < 8 ==> !Full(b, j, p)
  }
}
