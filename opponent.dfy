/**
 * The computer opponent's choice of cell: the list of empty cells, and the
 * priority of its move (win, then block, then any empty cell) as a
 * specification that the imperative `Game.ComputerMove` is proved against.
 */
module Opponent {
  import opened Wrappers
  import opened Board

  /** The indices `k` and above whose cell is empty, in ascending order. */
  function EmptyCellsFrom(b: Board, k: nat): (r: seq<Index>)
    requires k <= 9
    decreases 9 - k
    ensures forall i :: i in r <==> k <= i < 9 && b[i] == Empty
    ensures forall m, n :: 0 <= m < n < |r| ==> r[m] < r[n]
  {
    if k == 9 then []
    else if b[k] == Empty then
      var rest := EmptyCellsFrom(b, k + 1);
      assert forall n :: 0 <= n < |rest| ==> rest[n] in rest;
      [k as Index] + rest
    else EmptyCellsFrom(b, k + 1)
  }

  /** The indices of the empty cells, in ascending order. */
  function EmptyCells(b: Board): (r: seq<Index>)
    ensures forall i :: i in r <==> 0 <= i < 9 && b[i] == Empty
    ensures forall m, n :: 0 <= m < n < |r| ==> r[m] < r[n]
  {
    EmptyCellsFrom(b, 0)
  }

  /** Writing `p` into cell `i` leaves some line entirely `p`'s. */
  predicate Completes(b: Board, i: Index, p: Player)
  {
    HasLine(b[i := Mark(p)], p)
  }

  /** The first of `cells`, in list order, where `p` would complete a line. */
  function FirstCompleting(b: Board, cells: seq<Index>, p: Player): (r: Option<Index>)
    ensures r.Some? ==> r.value in cells && Completes(b, r.value, p)
    ensures r.None? <==> forall c :: c in cells ==> !Completes(b, c, p)
  {
    if cells == [] then None
    else if Completes(b, cells[0], p) then Some(cells[0])
    else FirstCompleting(b, cells[1..], p)
  }

  /** A candidate at position `k` that completes a line, after none that did, is the first. */
  lemma {:induction false} FirstCompletingAt(b: Board, cells: seq<Index>, p: Player, k: nat)
    requires k < |cells| && Completes(b, cells[k], p)
    requires forall j :: 0 <= j < k ==> !Completes(b, cells[j], p)
    ensures FirstCompleting(b, cells, p) == Some(cells[k])
  {
    if k > 0 {
      assert !Completes(b, cells[0], p);
      FirstCompletingAt(b, cells[1..], p, k - 1);
    }
  }

  /**
   * When no candidate completes a line, there is no first one: the None case
   * of `FirstCompleting`'s contract in the index form that the loop of
   * `Game.TrialScan` keeps as its invariant.
   */
  lemma {:induction false} FirstCompletingNone(b: Board, cells: seq<Index>, p: Player)
    requires forall j :: 0 <= j < |cells| ==> !Completes(b, cells[j], p)
    ensures FirstCompleting(b, cells, p) == None
  {
    if cells != [] {
      assert !Completes(b, cells[0], p);
      FirstCompletingNone(b, cells[1..], p);
    }
  }

  /** Over an ascending list, the first completing candidate is also the smallest. */
  lemma {:induction false} FirstCompletingIsLowest(b: Board, cells: seq<Index>, p: Player)
    requires forall m, n :: 0 <= m < n < |cells| ==> cells[m] < cells[n]
    ensures FirstCompleting(b, cells, p).Some? ==>
      forall c :: c in cells && c < FirstCompleting(b, cells, p).value ==> !Completes(b, c, p)
  {
    if cells != [] && !Completes(b, cells[0], p) {
      FirstCompletingIsLowest(b, cells[1..], p);
      forall c | c in cells && c != cells[0]
        ensures c in cells[1..]
      {
      }
    }
  }

  /** Cell `i` is the lowest-indexed empty cell where `p` completes a line. */
  ghost predicate LeastCompleting(b: Board, i: Index, p: Player)
  {
    b[i] == Empty && Completes(b, i, p) &&
    forall j: Index :: j < i && b[j] == Empty ==> !Completes(b, j, p)
  }

  /** Some empty cell completes a line for `p`. */
  ghost predicate CanComplete(b: Board, p: Player)
  {
    exists j: Index :: b[j] == Empty && Completes(b, j, p)
  }

  /**
   * The cells the computer, playing O, may choose: the first empty cell that
   * wins for O; failing that, the first empty cell where X would win; failing
   * that, any empty cell (the random pick).
   */
  ghost predicate ComputerMay(b: Board, i: Index)
  {
    match FirstCompleting(b, EmptyCells(b), O)
    case Some(w) => i == w
    case None =>
      match FirstCompleting(b, EmptyCells(b), X)
      case Some(k) => i == k
      case None => i in EmptyCells(b)
  }

  /**
   * The computer's choice read off its two scans over the empty cells: a
   * winning cell if the first scan found one, else a blocking cell if the
   * second did, else any empty cell.
   */
  lemma ScansChoose(b: Board, win: Option<Index>, block: Option<Index>, i: Index)
    requires win == FirstCompleting(b, EmptyCells(b), O)
    requires block == FirstCompleting(b, EmptyCells(b), X)
    requires win == Some(i) || (win.None? && block == Some(i)) || (win.None? && block.None? && b[i] == Empty)
    ensures ComputerMay(b, i)
  {
    if win.None? && block.None? {
      assert i in EmptyCells(b);
    }
  }

  /** The scan over the empty cells finds exactly the least completing cell. */
  lemma FirstEmptyCompleting(b: Board, p: Player)
    ensures FirstCompleting(b, EmptyCells(b), p).None? <==> !CanComplete(b, p)
    ensures forall i: Index :: FirstCompleting(b, EmptyCells(b), p) == Some(i) <==> LeastCompleting(b, i, p)
  {
    var cells := EmptyCells(b);
    var r := FirstCompleting(b, cells, p);
    if r.None? {
      forall j: Index | b[j] == Empty
        ensures !Completes(b, j, p)
      {
        assert j in cells;
      }
      assert !CanComplete(b, p);
      forall i: Index
        ensures !LeastCompleting(b, i, p)
      {
      }
    } else {
      var w := r.value;
      FirstCompletingIsLowest(b, cells, p);
      forall j: Index | j < w && b[j] == Empty
        ensures !Completes(b, j, p)
      {
        assert j in cells;
      }
      assert LeastCompleting(b, w, p);
      forall i: Index | LeastCompleting(b, i, p)
        ensures i == w
      {
        LeastCompletingUnique(b, p, i, w);
      }
    }
  }

  /** At most one cell is the least completing one (a step of `FirstEmptyCompleting`). */
  lemma LeastCompletingUnique(b: Board, p: Player, i: Index, w: Index)
    requires LeastCompleting(b, i, p) && LeastCompleting(b, w, p)
    ensures i == w
  {
  }

  /** The computer only ever plays an empty cell. */
  lemma ComputerPlaysEmpty(b: Board, i: Index)
    requires ComputerMay(b, i)
    ensures b[i] == Empty
  {
    FirstEmptyCompleting(b, O);
    FirstEmptyCompleting(b, X);
  }

  /** When O can win at once, the computer plays the lowest cell that wins. */
  lemma ComputerTakesWin(b: Board, i: Index)
    requires CanComplete(b, O)
    ensures ComputerMay(b, i) <==> LeastCompleting(b, i, O)
  {
    FirstEmptyCompleting(b, O);
  }

  /** When O cannot win but X could, the computer blocks X's lowest winning cell. */
  lemma ComputerBlocks(b: Board, i: Index)
    requires !CanComplete(b, O) && CanComplete(b, X)
    ensures ComputerMay(b, i) <==> LeastCompleting(b, i, X)
  {
    FirstEmptyCompleting(b, O);
    FirstEmptyCompleting(b, X);
  }

  /** With nothing to win or block, every empty cell, and only those, may be picked. */
  lemma ComputerPicksAnyEmpty(b: Board, i: Index)
    requires !CanComplete(b, O) && !CanComplete(b, X)
    ensures ComputerMay(b, i) <==> b[i] == Empty
  {
    FirstEmptyCompleting(b, O);
    FirstEmptyCompleting(b, X);
  }

  /** X threatens the top row and O has nothing: the computer blocks at cell 2. */
  lemma BlockScenario(i: Index)
    ensures ComputerMay([Mark(X), Mark(X), Empty, Empty, Empty, Empty, Empty, Empty, Empty], i) <==> i == 2
  {
    var b: Board := [Mark(X), Mark(X), Empty, Empty, Empty, Empty, Empty, Empty, Empty];
    forall j: Index ensures !Completes(b, j, O) {
      HasLineCases(b[j := Mark(O)], O);
    }
    HasLineCases(b[2 := Mark(X)], X);
    assert b[2] == Empty && Completes(b, 2, X);
    forall j: Index | j < 2 ensures b[j] != Empty {
    }
    ComputerBlocks(b, i);
  }

  /** O can win at cell 2 and X could too on its own row: winning comes first. */
  lemma WinOverBlockScenario(i: Index)
    ensures ComputerMay([Mark(O), Mark(O), Empty, Mark(X), Mark(X), Empty, Empty, Empty, Empty], i) <==> i == 2
  {
    var b: Board := [Mark(O), Mark(O), Empty, Mark(X), Mark(X), Empty, Empty, Empty, Empty];
    HasLineCases(b[2 := Mark(O)], O);
    assert b[2] == Empty && Completes(b, 2, O);
    forall j: Index | j < 2 ensures b[j] != Empty {
    }
    ComputerTakesWin(b, i);
  }
}
