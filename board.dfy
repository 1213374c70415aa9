/**
 * The board of the game and the rules evaluator: the nine cells, the eight
 * fixed winning lines and the scan that finds the first complete line.
 */
module Board {
  import opened Wrappers

  /** A player's mark, the strings "X" and "O" of the program. */
  datatype Player = X | O

  /** One cell of the board; `Empty` is the program's empty string "". */
  datatype Cell = Empty | Mark(player: Player)

  /** The player whose turn follows `p`'s. */
  function Other(p: Player): (r: Player)
    ensures r != p
  {
    if p == X then O else X
  }

  /** A cell index, 0 to 8, row-major over the 3x3 grid. */
  type Index = i: nat | i < 9

  /** The board: exactly nine cells. */
  type Board = b: seq<Cell> | |b| == 9
    witness [Empty, Empty, Empty, Empty, Empty, Empty, Empty, Empty, Empty]

  const EmptyBoard: Board := [Empty, Empty, Empty, Empty, Empty, Empty, Empty, Empty, Empty]

  /** The winning lines in the program's order: rows, then columns, then diagonals. */
  const WinningLines: seq<(Index, Index, Index)> := [
    (0, 1, 2), (3, 4, 5), (6, 7, 8),
    (0, 3, 6), (1, 4, 7), (2, 5, 8),
    (0, 4, 8), (2, 4, 6)
  ]

  /**
   * The result scan's test of line `k`: its first cell is not empty and
   * the other two cells equal it.
   */
  predicate LineComplete(b: Board, k: nat)
    requires k < |WinningLines|
  {
    var line := WinningLines[k];
    b[line.0] != Empty && b[line.0] == b[line.1] && b[line.0] == b[line.2]
  }

  /** The opponent's test of line `k`: all three cells hold `p`. */
  predicate LineOwnedBy(b: Board, k: nat, p: Player)
    requires k < |WinningLines|
  {
    var line := WinningLines[k];
    b[line.0] == Mark(p) && b[line.1] == Mark(p) && b[line.2] == Mark(p)
  }

  /** Some winning line is entirely `p`'s. */
  predicate HasLine(b: Board, p: Player)
  {
    exists k :: 0 <= k < |WinningLines| && LineOwnedBy(b, k, p)
  }

  /** `HasLine` with its eight lines written out, for concrete boards. */
  lemma HasLineCases(b: Board, p: Player)
    ensures HasLine(b, p) <==>
      (b[0] == Mark(p) && b[1] == Mark(p) && b[2] == Mark(p)) ||
      (b[3] == Mark(p) && b[4] == Mark(p) && b[5] == Mark(p)) ||
      (b[6] == Mark(p) && b[7] == Mark(p) && b[8] == Mark(p)) ||
      (b[0] == Mark(p) && b[3] == Mark(p) && b[6] == Mark(p)) ||
      (b[1] == Mark(p) && b[4] == Mark(p) && b[7] == Mark(p)) ||
      (b[2] == Mark(p) && b[5] == Mark(p) && b[8] == Mark(p)) ||
      (b[0] == Mark(p) && b[4] == Mark(p) && b[8] == Mark(p)) ||
      (b[2] == Mark(p) && b[4] == Mark(p) && b[6] == Mark(p))
  {
    if HasLine(b, p) {
      var k :| 0 <= k < |WinningLines| && LineOwnedBy(b, k, p);
      assert k == 0 || k == 1 || k == 2 || k == 3 || k == 4 || k == 5 || k == 6 || k == 7;
    } else {
      assert !LineOwnedBy(b, 0, p) && !LineOwnedBy(b, 1, p) && !LineOwnedBy(b, 2, p);
      assert !LineOwnedBy(b, 3, p) && !LineOwnedBy(b, 4, p) && !LineOwnedBy(b, 5, p);
      assert !LineOwnedBy(b, 6, p) && !LineOwnedBy(b, 7, p);
    }
  }

  /** A complete line is owned by the mark in its first cell. */
  lemma CompleteLineOwned(b: Board, k: nat)
    requires k < |WinningLines| && LineComplete(b, k)
    ensures LineOwnedBy(b, k, b[WinningLines[k].0].player)
  {
  }

  /**
   * The index of the first complete line at position `k` or later in
   * `WinningLines`, or None when none of them is complete.
   */
  function FirstCompleteLineFrom(b: Board, k: nat): (r: Option<nat>)
    requires k <= |WinningLines|
    decreases |WinningLines| - k
    ensures r.Some? ==> k <= r.value < |WinningLines| && LineComplete(b, r.value)
    ensures r.Some? ==> forall j :: k <= j < r.value ==> !LineComplete(b, j)
    ensures r.None? <==> forall j :: k <= j < |WinningLines| ==> !LineComplete(b, j)
  {
    if k == |WinningLines| then None
    else if LineComplete(b, k) then Some(k)
    else FirstCompleteLineFrom(b, k + 1)
  }

  /** The first complete line in `WinningLines` order, if any. */
  function FirstCompleteLine(b: Board): Option<nat>
  {
    FirstCompleteLineFrom(b, 0)
  }

  /** The winner the result check reports: the mark on the first complete line. */
  function WinnerOf(b: Board): Option<Player>
  {
    match FirstCompleteLine(b)
    case Some(k) => Some(b[WinningLines[k].0].player)
    case None => None
  }

  /**
   * A reported winner has a line; no winner means neither player has one;
   * a player who alone has a line is the one reported.
   */
  lemma WinnerOfReports(b: Board)
    ensures WinnerOf(b).Some? ==> HasLine(b, WinnerOf(b).value)
    ensures WinnerOf(b).None? <==> !HasLine(b, X) && !HasLine(b, O)
    ensures forall p :: HasLine(b, p) && !HasLine(b, Other(p)) ==> WinnerOf(b) == Some(p)
  {
    match FirstCompleteLine(b)
    case Some(k) =>
      var p := b[WinningLines[k].0].player;
      CompleteLineOwned(b, k);
      assert HasLine(b, p) && (p == X || p == O);
    case None =>
  }
}
