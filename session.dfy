/**
 * The game state as a value and each state-changing operation as a
 * function from the old state to the new one. The class `Engine.Game`
 * performs these operations in place and is proved to agree with them;
 * the lemmas here state what the operations promise.
 */
module Session {
  import opened Wrappers
  import opened Board
  import opened Opponent

  /** The two modes: against the computer ("single") and two players ("two"). */
  datatype Mode = Single | Two

  /** The keys of the score tally: a win for either player, or a tie. */
  datatype ScoreKey = Won(winner: Player) | Tie

  /** The whole game state; `mode` is None until a mode is selected. */
  datatype GameState = GameState(
    board: Board,
    current: Player,
    active: bool,
    mode: Option<Mode>,
    scores: map<ScoreKey, nat>)

  /** The tally has a counter for every key: X, O and TIE. */
  ghost predicate HasAllScores(scores: map<ScoreKey, nat>)
  {
    forall key: ScoreKey :: key in scores
  }

  const ZeroScores: map<ScoreKey, nat> := map[Won(X) := 0, Won(O) := 0, Tie := 0]

  /** The fresh tally has all three counters. */
  lemma ZeroScoresComplete()
    ensures HasAllScores(ZeroScores) && Total(ZeroScores) == 0
  {
    forall key: ScoreKey
      ensures key in ZeroScores
    {
      match key
      case Won(p) =>
        if p == X {
          assert key == Won(X);
        } else {
          assert key == Won(O);
        }
      case Tie =>
    }
  }

  /** The state when the program loads: empty board, X to move, no mode yet. */
  const Initial: GameState := GameState(EmptyBoard, X, true, None, ZeroScores)

  /** The sum of the three counters. */
  function Total(scores: map<ScoreKey, nat>): nat
    requires HasAllScores(scores)
  {
    scores[Won(X)] + scores[Won(O)] + scores[Tie]
  }

  /** A round is over when some line is complete or no cell is empty. */
  ghost predicate RoundOver(b: Board)
  {
    (exists k :: 0 <= k < |WinningLines| && LineComplete(b, k)) || Empty !in b
  }

  /** The hand-over of the turn: the current player flips between X and O. */
  function Flip(s: GameState): GameState
  {
    s.(current := Other(s.current))
  }

  /**
   * The result check: a win for the mark on the first complete line, else a
   * tie on a full board, else the turn passes to the other player.
   */
  function Resolve(s: GameState): (r: GameState)
    requires HasAllScores(s.scores)
    ensures HasAllScores(r.scores) && r.board == s.board && r.mode == s.mode
  {
    match WinnerOf(s.board)
    case Some(p) => s.(active := false, scores := s.scores[Won(p) := s.scores[Won(p)] + 1])
    case None =>
      if Empty !in s.board then s.(active := false, scores := s.scores[Tie := s.scores[Tie] + 1])
      else Flip(s)
  }

  /** A move: `p` is written into cell `i`, then the result is checked. */
  function Place(s: GameState, i: Index, p: Player): (r: GameState)
    requires HasAllScores(s.scores)
    ensures HasAllScores(r.scores)
  {
    Resolve(s.(board := s.board[i := Mark(p)]))
  }

  /** A click on cell `i` is taken: the game is on, the cell is empty, and it is not the computer's turn. */
  predicate Accepts(s: GameState, i: Index)
  {
    s.active && s.board[i] == Empty && !(s.mode == Some(Single) && s.current == O)
  }

  /** A click on cell `i`: a move for the current player when accepted, otherwise nothing. */
  function Click(s: GameState, i: Index): (r: GameState)
    requires HasAllScores(s.scores)
    ensures HasAllScores(r.scores)
  {
    if !s.active then s
    else if s.board[i] != Empty || (s.mode == Some(Single) && s.current == O) then s
    else Place(s, i, s.current)
  }

  /** After a hand-over, the computer is due to move: single mode, O to play, game on. */
  predicate ComputerDue(s: GameState)
  {
    s.mode == Some(Single) && s.current == O && s.active
  }

  /** A new round: empty board, X to move, game on; mode and scores kept. */
  function NewRound(s: GameState): GameState
  {
    s.(board := EmptyBoard, current := X, active := true)
  }

  /** The score reset: every counter back to 0, then a new round. */
  function ClearScores(s: GameState): GameState
  {
    NewRound(s.(scores := ZeroScores))
  }

  /** The mode selection: the mode is stored, then the scores are reset. */
  function EnterMode(s: GameState, m: Mode): GameState
  {
    ClearScores(s.(mode := Some(m)))
  }

  /**
   * A win on line `k`, the first complete line: the round ends and only the
   * counter of the mark on that line goes up, by exactly one. No condition on
   * empty cells is needed, so a full board with a line counts as a win.
   */
  lemma ResolveOnWin(s: GameState, k: nat)
    requires HasAllScores(s.scores)
    requires k < |WinningLines| && LineComplete(s.board, k)
    requires forall j :: 0 <= j < k ==> !LineComplete(s.board, j)
    ensures var p := s.board[WinningLines[k].0].player;
      var r := Resolve(s);
      && !r.active && r.current == s.current
      && r.scores[Won(p)] == s.scores[Won(p)] + 1
      && r.scores[Won(Other(p))] == s.scores[Won(Other(p))]
      && r.scores[Tie] == s.scores[Tie]
  {
    assert FirstCompleteLine(s.board) == Some(k);
  }

  /** A tie: no line is complete and no cell is empty; only TIE goes up, by one. */
  lemma ResolveOnTie(s: GameState)
    requires HasAllScores(s.scores)
    requires forall k :: 0 <= k < |WinningLines| ==> !LineComplete(s.board, k)
    requires forall i: Index :: s.board[i] != Empty
    ensures var r := Resolve(s);
      && !r.active && r.current == s.current
      && r.scores[Tie] == s.scores[Tie] + 1
      && r.scores[Won(X)] == s.scores[Won(X)]
      && r.scores[Won(O)] == s.scores[Won(O)]
  {
    assert FirstCompleteLine(s.board) == None;
  }

  /** Neither win nor tie: the turn passes to the other player; nothing else changes. */
  lemma ResolveContinues(s: GameState)
    requires HasAllScores(s.scores)
    requires forall k :: 0 <= k < |WinningLines| ==> !LineComplete(s.board, k)
    requires exists i: Index :: s.board[i] == Empty
    ensures var r := Resolve(s);
      && r.current == Other(s.current)
      && r.active == s.active
      && r.scores == s.scores
  {
    assert FirstCompleteLine(s.board) == None;
    var i: Index :| s.board[i] == Empty;
    assert Empty in s.board;
  }

  /**
   * Over all states: the tally grows by one exactly when the round is over,
   * and the game stays on exactly when it was on and the round is not over.
   */
  lemma ResolveTally(s: GameState)
    requires HasAllScores(s.scores)
    ensures Total(Resolve(s).scores) == Total(s.scores) + (if RoundOver(s.board) then 1 else 0)
    ensures Resolve(s).active <==> s.active && !RoundOver(s.board)
  {
    match FirstCompleteLine(s.board)
    case Some(k) =>
      var p := s.board[WinningLines[k].0].player;
      assert p == X || p == O;
    case None =>
  }

  /** A click that is not accepted changes nothing, whatever the cell. */
  lemma ClickIgnored(s: GameState, i: Index)
    requires HasAllScores(s.scores)
    requires !s.active || s.board[i] != Empty || (s.mode == Some(Single) && s.current == O)
    ensures Click(s, i) == s
  {
  }

  /**
   * An accepted click writes the current player's mark into the clicked cell
   * and leaves every other cell as it was; a click changes the board exactly
   * when it is accepted.
   */
  lemma ClickPlaces(s: GameState, i: Index)
    requires HasAllScores(s.scores)
    ensures Accepts(s, i) ==> Click(s, i).board[i] == Mark(s.current)
    ensures Accepts(s, i) ==> forall j: Index :: j != i ==> Click(s, i).board[j] == s.board[j]
    ensures Click(s, i).board != s.board <==> Accepts(s, i)
  {
    if Accepts(s, i) {
      assert Click(s, i).board[i] != s.board[i];
    }
  }

  /**
   * Against the computer, a human move that does not end the round hands the
   * turn to the computer: it is then due to move, and clicks are ignored.
   */
  lemma ClickHandsOverToComputer(s: GameState, i: Index, j: Index)
    requires HasAllScores(s.scores)
    requires s.mode == Some(Single) && Accepts(s, i)
    requires !RoundOver(s.board[i := Mark(s.current)])
    ensures ComputerDue(Click(s, i))
    ensures Click(Click(s, i), j) == Click(s, i)
  {
    var b := s.board[i := Mark(s.current)];
    assert forall k :: 0 <= k < |WinningLines| ==> !LineComplete(b, k);
    assert Empty in b;
    assert FirstCompleteLine(b) == None;
  }

  /**
   * A computer move writes O into a cell that was empty and leaves every
   * other cell as it was.
   */
  lemma ComputerWritesOneEmptyCell(s: GameState, i: Index)
    requires HasAllScores(s.scores) && ComputerMay(s.board, i)
    ensures s.board[i] == Empty
    ensures Place(s, i, O).board[i] == Mark(O)
    ensures forall j: Index :: j != i ==> Place(s, i, O).board[j] == s.board[j]
  {
    ComputerPlaysEmpty(s.board, i);
  }

  /** A new round starts on an empty board with no winner, X to move, tally and mode kept. */
  lemma NewRoundIsFresh(s: GameState)
    ensures var r := NewRound(s);
      && (forall i: Index :: r.board[i] == Empty)
      && WinnerOf(r.board) == None
      && r.current == X && r.active && !ComputerDue(r)
      && r.scores == s.scores && r.mode == s.mode
  {
    HasLineCases(EmptyBoard, X);
    HasLineCases(EmptyBoard, O);
    WinnerOfReports(EmptyBoard);
  }

  /** The score reset and the mode selection zero every counter before the new round. */
  lemma ResetStartsOver(s: GameState, m: Mode)
    ensures var r := ClearScores(s);
      && HasAllScores(r.scores) && Total(r.scores) == 0
      && r.board == EmptyBoard && r.current == X && r.active && r.mode == s.mode
    ensures var r := EnterMode(s, m);
      && HasAllScores(r.scores) && Total(r.scores) == 0
      && r.board == EmptyBoard && r.current == X && r.active && r.mode == Some(m)
  {
    ZeroScoresComplete();
  }

  /** A full board with no three equal marks on a line is a tie. */
  lemma TieScenario(s: GameState)
    requires HasAllScores(s.scores)
    requires s.board == [Mark(X), Mark(O), Mark(X), Mark(X), Mark(O), Mark(X), Mark(O), Mark(X), Mark(O)]
    ensures !Resolve(s).active && Resolve(s).scores == s.scores[Tie := s.scores[Tie] + 1]
  {
    HasLineCases(s.board, X);
    HasLineCases(s.board, O);
    WinnerOfReports(s.board);
  }

  /** A full board with a line for X is a win for X, not a tie. */
  lemma FullBoardWinScenario(s: GameState)
    requires HasAllScores(s.scores)
    requires s.board == [Mark(X), Mark(O), Mark(X), Mark(O), Mark(X), Mark(O), Mark(O), Mark(X), Mark(X)]
    ensures !Resolve(s).active && Resolve(s).scores == s.scores[Won(X) := s.scores[Won(X)] + 1]
  {
    assert !LineComplete(s.board, 0) && !LineComplete(s.board, 1) && !LineComplete(s.board, 2);
    assert !LineComplete(s.board, 3) && !LineComplete(s.board, 4) && !LineComplete(s.board, 5);
    ResolveOnWin(s, 6);
  }
}
