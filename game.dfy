/**
 * The program's global game state as one object whose methods update it in
 * place: the board array, the player to move, whether the game is on, the
 * mode and the score tally. Each method is proved to produce the state the
 * matching function of `Session` describes.
 */
module Engine {
  import opened Wrappers
  import opened Board
  import opened Opponent
  import opened Session

  class Game {
    var board: array<Cell>
    var currentPlayer: Player
    var gameActive: bool
    var mode: Option<Mode>
    var scores: map<ScoreKey, nat>

    /** Nine cells and the three score counters. */
    ghost predicate Valid()
      reads this
    {
      board.Length == 9 && HasAllScores(scores)
    }

    /** The state as a value. */
    ghost function State(): GameState
      reads this, board
      requires Valid()
    {
      GameState(board[..], currentPlayer, gameActive, mode, scores)
    }

    /** The state when the program loads. */
    constructor ()
      ensures Valid() && fresh(board) && State() == Initial
    {
      board := new Cell[9](_ => Empty);
      currentPlayer := X;
      gameActive := true;
      mode := None;
      scores := ZeroScores;
      ZeroScoresComplete();
      new;
      assert board[..] == EmptyBoard;
    }

    /** The hand-over of the turn to the other player. */
    method NextTurn()
      requires Valid()
      modifies this
      ensures Valid() && board == old(board)
      ensures State() == Flip(old(State()))
    {
      currentPlayer := if currentPlayer == X then O else X;
    }

    /** The result check after every move. */
    method CheckResult()
      requires Valid()
      modifies this
      ensures Valid() && board == old(board)
      ensures State() == Resolve(old(State()))
    {
      ghost var s := State();
      var winner := WinnerOf(board[..]);
      match winner
      case Some(p) =>
        gameActive := false;
        scores := scores[Won(p) := scores[Won(p)] + 1];
        assert State() == s.(active := false, scores := s.scores[Won(p) := s.scores[Won(p)] + 1]);
      case None =>
        if Empty !in board[..] {
          gameActive := false;
          scores := scores[Tie := scores[Tie] + 1];
          assert State() == s.(active := false, scores := s.scores[Tie := s.scores[Tie] + 1]);
        } else {
          NextTurn();
        }
    }

    /** A click on cell `index`. */
    method HandleCellClick(index: Index)
      requires Valid()
      modifies this, board
      ensures Valid() && board == old(board)
      ensures State() == Click(old(State()), index)
    {
      if !gameActive {
        return;
      }
      if board[index] != Empty || (mode == Some(Single) && currentPlayer == O) {
        return;
      }
      board[index] := Mark(currentPlayer);
      CheckResult();
    }

    /** A move by `player` on cell `index`, followed by the result check. */
    method MakeMove(index: Index, player: Player)
      requires Valid()
      modifies this, board
      ensures Valid() && board == old(board)
      ensures State() == Place(old(State()), index, player)
    {
      board[index] := Mark(player);
      CheckResult();
    }

    /**
     * One trial loop of the computer's move: for each empty cell in ascending
     * order, write `p` there and stop if that gives `p` a complete line (the
     * trial mark stays), otherwise take the mark back.
     */
    method TrialScan(ghost start: Board, emptyCells: seq<Index>, p: Player) returns (found: Option<Index>)
      requires board.Length == 9 && board[..] == start
      requires forall j :: 0 <= j < |emptyCells| ==> start[emptyCells[j]] == Empty
      modifies board
      ensures found == FirstCompleting(start, emptyCells, p)
      ensures found.None? ==> board[..] == start
      ensures found.Some? ==> board[..] == start[found.value := Mark(p)]
    {
      var k := 0;
      while k < |emptyCells|
        invariant 0 <= k <= |emptyCells|
        invariant board[..] == start
        invariant forall j :: 0 <= j < k ==> !Completes(start, emptyCells[j], p)
      {
        var i := emptyCells[k];
        board[i] := Mark(p);
        assert board[..] == start[i := Mark(p)];
        if HasLine(board[..], p) {
          FirstCompletingAt(start, emptyCells, p, k);
          return Some(i);
        }
        board[i] := Empty;
        assert board[..] == start;
        k := k + 1;
      }
      FirstCompletingNone(start, emptyCells, p);
      return None;
    }

    /**
     * The decision part of the computer's move: the first empty cell where O
     * completes a line, whose trial O stays on the board; failing that, the
     * choice of `BlockOrAny`.
     */
    method PickCell(emptyCells: seq<Index>) returns (move: Index)
      requires board.Length == 9 && emptyCells == EmptyCells(board[..]) && emptyCells != []
      modifies board
      ensures ComputerMay(old(board[..]), move)
      ensures board[..][move := Mark(O)] == old(board[..])[move := Mark(O)]
    {
      ghost var start: Board := board[..];
      forall j | 0 <= j < |emptyCells| ensures start[emptyCells[j]] == Empty {
        assert emptyCells[j] in emptyCells;
      }
      var win := TrialScan(start, emptyCells, O);
      if win.Some? {
        move := win.value;
        ScansChoose(start, win, FirstCompleting(start, emptyCells, X), move);
        assert board[..][move := Mark(O)] == start[move := Mark(O)];
      } else {
        move := BlockOrAny(start, emptyCells);
      }
    }

    /**
     * The rest of the computer's decision, once no cell wins for O: the first
     * empty cell where X would complete a line (its trial X is taken back);
     * else an empty cell picked by the program's random choice, modelled as
     * an arbitrary one. The board ends as it started.
     */
    method BlockOrAny(ghost start: Board, emptyCells: seq<Index>) returns (move: Index)
      requires board.Length == 9 && board[..] == start
      requires emptyCells == EmptyCells(start) && emptyCells != []
      requires forall j :: 0 <= j < |emptyCells| ==> start[emptyCells[j]] == Empty
      requires FirstCompleting(start, emptyCells, O).None?
      modifies board
      ensures ComputerMay(start, move)
      ensures board[..] == start
    {
      var block := TrialScan(start, emptyCells, X);
      if block.Some? {
        move := block.value;
        board[move] := Empty;
        assert board[..] == start;
      } else {
        move :| move in emptyCells;
      }
      ScansChoose(start, None, block, move);
    }

    /**
     * The computer's move as O: the cell `PickCell` chooses, then the result
     * check. Apart from that cell, the move is made on the starting board.
     * `played` names the cell played, None when the board is full (then
     * nothing changes).
     */
    method ComputerMove() returns (ghost played: Option<Index>)
      requires Valid()
      modifies this, board
      ensures Valid() && board == old(board)
      ensures played.None? <==> EmptyCells(old(board[..])) == []
      ensures played.None? ==> State() == old(State())
      ensures played.Some? ==> ComputerMay(old(board[..]), played.value)
      ensures played.Some? ==> State() == Place(old(State()), played.value, O)
    {
      var emptyCells := EmptyCells(board[..]);
      if emptyCells == [] {
        return None;
      }
      var move := PickCell(emptyCells);
      MakeMove(move, O);
      played := Some(move);
    }

    /** A new round: fresh empty board, X to move, game on; mode and scores kept. */
    method StartNewGame()
      requires Valid()
      modifies this
      ensures Valid() && fresh(board)
      ensures State() == NewRound(old(State()))
    {
      board := new Cell[9](_ => Empty);
      currentPlayer := X;
      gameActive := true;
      assert board[..] == EmptyBoard;
    }

    /** All counters back to 0, then a new round. */
    method ResetAllScores()
      requires Valid()
      modifies this
      ensures Valid() && fresh(board)
      ensures State() == ClearScores(old(State()))
    {
      scores := ZeroScores;
      ZeroScoresComplete();
      StartNewGame();
    }

    /** The mode is stored, then the scores are reset (which starts a new round). */
    method SelectMode(selected: Mode)
      requires Valid()
      modifies this
      ensures Valid() && fresh(board)
      ensures State() == EnterMode(old(State()), selected)
    {
      mode := Some(selected);
      ResetAllScores();
    }
  }
}
