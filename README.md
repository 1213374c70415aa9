# Tic-tac-toe game-state engine

This project models the game logic of the browser tic-tac-toe in `Tic-Tac-Toe-PY/main.py`. The game state is:

- a 9-cell board of empty, X and O;
- the player to move;
- whether the game is on;
- the mode: `single` (against the computer), `two`, or not chosen yet;
- a score tally with three counters: X, O and TIE.

The model covers these operations:

- the result check, `check_result` with `next_turn`: a win on the first complete line, a tie on a full board, or the turn passes to the other player;
- move acceptance: `handle_cell_click` and `make_move`;
- the computer opponent, `computer_move` with `get_empty_cells`: win if it can, else block X, else play a random empty cell;
- the round and score lifecycle: `start_new_game`, `reset_all_scores` and `select_mode`.

Layout:

- `wrappers.dfy`: `Option`.
- `board.dfy` (module `Board`): cells, players, the eight `WinningLines` in the program's order, and the scan for the first complete line (`WinnerOf`).
- `opponent.dfy` (module `Opponent`): `EmptyCells`, and `ComputerMay`. `ComputerMay` is the set of cells the computer may play, following its priority. The lemmas here pin down that priority.
- `session.dfy` (module `Session`): the game state as a value `GameState`, with one function per operation. These are `Resolve`, `Place`, `Click`, `NewRound`, `ClearScores` and `EnterMode`. The lemmas here state what each operation promises.
- `game.dfy` (module `Engine`): class `Game`. Its fields are the program's module globals: `board` is an `array<Cell>`, and `scores` is a `map` that the methods reassign. Its methods do what the program's functions do, in place. The computer's trial writes to the board are made and undone in a `while` loop. The `ensures` of each method that changes the game's state ties the new state to the matching `Session` function of the old state. The computer's helper methods `TrialScan`, `PickCell` and `BlockOrAny` are tied instead to `Opponent`'s scans (`FirstCompleting`, `ComputerMay`) and to the starting board.

`computer_move` has no centre or corner preference: when it has nothing to win or block, it goes straight to a random empty cell (`main.py:211-213`).

## Model

| member | source | states |
|---|---|---|
| `Board.HasLineCases` | Tic-Tac-Toe-PY/main.py:34-38 | A player holds a line exactly when one of the eight listed triples (three rows, three columns, two diagonals) is all theirs |
| `Board.Other` | Tic-Tac-Toe-PY/main.py:137 | The player who moves next is never the one who just moved: with two players, X and O swap |
| `Board.LineComplete` | Tic-Tac-Toe-PY/main.py:105-106 | Defines the result check's test of one line: its first cell is not empty and the other two cells equal it. `Board.CompleteLineOwned` proves that such a line is all the mark in its first cell |
| `Board.HasLine` | Tic-Tac-Toe-PY/main.py:191-193 | Defines the computer's test that some line of `WINNING_CONDITIONS` holds three of one mark. `Board.HasLineCases` writes out its eight lines |
| `Board.CompleteLineOwned` | Tic-Tac-Toe-PY/main.py:106-108 | A complete line (first cell non-empty and equal to the other two) belongs to the mark in its first cell, which is the reported winner |
| `Board.FirstCompleteLineFrom` | Tic-Tac-Toe-PY/main.py:104-106 | The scan returns a complete line with no complete line before it in `WINNING_CONDITIONS` order, and returns None exactly when no line is complete |
| `Board.WinnerOf` | Tic-Tac-Toe-PY/main.py:104-108 | Defines the winner `check_result` reports: the mark on the first complete line in list order, or none. `Board.WinnerOfReports` proves it against `HasLine` |
| `Board.WinnerOfReports` | Tic-Tac-Toe-PY/main.py:104-108 | A reported winner holds a line. No winner is reported exactly when neither player holds one. A player who alone holds a line is the one reported |
| `Opponent.EmptyCellsFrom` | Tic-Tac-Toe-PY/main.py:172 | The indices from `k` up whose cell is empty, each exactly once, in ascending order |
| `Opponent.EmptyCells` | Tic-Tac-Toe-PY/main.py:170-172 | `get_empty_cells` holds exactly the indices whose cell is empty, in strictly ascending order |
| `Opponent.Completes` | Tic-Tac-Toe-PY/main.py:190-193 | Defines one trial, used by both loops (also lines 201-204): writing the mark into the cell gives that player a complete line. `Game.TrialScan` performs it in place and `Opponent.FirstCompleting` scans with it |
| `Opponent.FirstCompleting` | Tic-Tac-Toe-PY/main.py:189-197 | A trial scan's result is a candidate where the trial mark gives that player a line. It is None exactly when no candidate does |
| `Opponent.FirstCompletingAt` | Tic-Tac-Toe-PY/main.py:189-196 | The scan stops at the first candidate, in list order, whose trial mark completes a line |
| `Opponent.FirstCompletingNone` | Tic-Tac-Toe-PY/main.py:197-200 | When no trial completes a line, the scan finds nothing and the computer moves on to the next step |
| `Opponent.FirstCompletingIsLowest` | Tic-Tac-Toe-PY/main.py:189-209 | Over the ascending empty-cell list, the cell found is the smallest index that completes a line |
| `Opponent.FirstEmptyCompleting` | Tic-Tac-Toe-PY/main.py:181-209 | Scanning the empty cells finds nothing exactly when no empty cell completes a line. Otherwise it finds the lowest-indexed such cell, and only that cell |
| `Opponent.ComputerMay` | Tic-Tac-Toe-PY/main.py:188-213 | Defines the cells `computer_move` may play: the winning cell found by the first loop, else the blocking cell found by the second, else any cell of the empty list. `Opponent.ComputerTakesWin`, `ComputerBlocks` and `ComputerPicksAnyEmpty` pin it down both ways |
| `Opponent.ComputerPlaysEmpty` | Tic-Tac-Toe-PY/main.py:181-213 | Every cell the computer may choose was empty |
| `Opponent.ComputerTakesWin` | Tic-Tac-Toe-PY/main.py:188-196 | If some empty cell wins for O, the computer plays the lowest-indexed such cell, and no other cell |
| `Opponent.ComputerBlocks` | Tic-Tac-Toe-PY/main.py:199-208 | If O cannot win but X could, the computer plays the lowest-indexed cell where X would win, and no other cell |
| `Opponent.ComputerPicksAnyEmpty` | Tic-Tac-Toe-PY/main.py:211-213 | With nothing to win or block, the computer may pick any empty cell, and only an empty cell |
| `Opponent.ScansChoose` | Tic-Tac-Toe-PY/main.py:188-213 | A cell taken from the win scan, else from the block scan, else any empty cell when both scans find nothing, is one `ComputerMay` allows |
| `Opponent.BlockScenario` | Tic-Tac-Toe-PY/main.py:199-208 | On `X X _ / _ _ _ / _ _ _` the computer plays cell 2 |
| `Opponent.WinOverBlockScenario` | Tic-Tac-Toe-PY/main.py:188-208 | On `O O _ / X X _ / _ _ _` the computer plays cell 2: winning comes before blocking |
| `Session.ZeroScoresComplete` | Tic-Tac-Toe-PY/main.py:262 | The reset tally has all three counters, and they sum to 0 |
| `Session.Flip` | Tic-Tac-Toe-PY/main.py:135-137 | Defines `next_turn`'s state change: only the player to move changes, to `Other` of it. `Session.ResolveContinues` states it as part of the result check, and `Game.NextTurn` performs it |
| `Session.Accepts` | Tic-Tac-Toe-PY/main.py:148-155 | Defines when a click is taken: the game is on, the cell is empty, and it is not O's turn in single mode. `Session.ClickIgnored` and `Session.ClickPlaces` state both sides |
| `Session.ComputerDue` | Tic-Tac-Toe-PY/main.py:139-141 | Defines when `next_turn` schedules the computer: single mode, O to move, game on. `Session.ClickHandsOverToComputer` and `Session.NewRoundIsFresh` state when it holds |
| `Session.NewRound` | Tic-Tac-Toe-PY/main.py:249-251 | Defines `start_new_game`'s state change: a new empty board, X to move, game on, tally and mode kept. `Session.NewRoundIsFresh` states its properties |
| `Session.ClearScores` | Tic-Tac-Toe-PY/main.py:262-264 | Defines `reset_all_scores`: all three counters to 0, then a new round. `Session.ResetStartsOver` states its properties |
| `Session.EnterMode` | Tic-Tac-Toe-PY/main.py:269-286 | Defines `select_mode`'s state change: the mode is stored (line 269), and, after the label and screen updates (left out as presentation), the scores are reset. `Session.ResetStartsOver` states its properties |
| `Session.Resolve` | Tic-Tac-Toe-PY/main.py:99-131 | The result check never writes the board or the mode, and keeps all three counters |
| `Session.Place` | Tic-Tac-Toe-PY/main.py:216-230 | A move keeps all three counters |
| `Session.Click` | Tic-Tac-Toe-PY/main.py:144-165 | A click keeps all three counters |
| `Session.ResolveOnWin` | Tic-Tac-Toe-PY/main.py:104-120 | On the first complete line, the game ends. The winner's counter goes up by exactly 1, the other two counters and the player to move are unchanged, and cells need not be empty, so a full board with a line is a win |
| `Session.ResolveOnTie` | Tic-Tac-Toe-PY/main.py:122-128 | With no complete line and no empty cell, the game ends, TIE goes up by 1, and X and O are unchanged |
| `Session.ResolveContinues` | Tic-Tac-Toe-PY/main.py:130-137 | With no complete line and an empty cell, the player to move flips X/O, and whether the game is on and the tally are unchanged |
| `Session.ResolveTally` | Tic-Tac-Toe-PY/main.py:99-131 | On every state, the tally grows by 1 exactly when the round is over (a line or a full board). The game stays on exactly when it was on and the round is not over |
| `Session.ClickIgnored` | Tic-Tac-Toe-PY/main.py:148-156 | A click changes nothing if the game is off, the cell is occupied, or it is O's turn in single mode |
| `Session.ClickPlaces` | Tic-Tac-Toe-PY/main.py:155-159 | An accepted click writes the current player's mark into the clicked cell and changes no other cell. A click changes the board exactly when it is accepted |
| `Session.ClickHandsOverToComputer` | Tic-Tac-Toe-PY/main.py:137-142 | In single mode, a human move that does not end the round makes the computer due to move, and further clicks are then ignored |
| `Session.ComputerWritesOneEmptyCell` | Tic-Tac-Toe-PY/main.py:189-221 | A computer move writes O into a cell that was empty and changes no other cell |
| `Session.NewRoundIsFresh` | Tic-Tac-Toe-PY/main.py:249-257 | A new round has all cells empty, no winner, X to move, the game on, no computer move due, and the tally and mode unchanged |
| `Session.ResetStartsOver` | Tic-Tac-Toe-PY/main.py:259-286 | A score reset, and a mode selection through it, sets all counters to 0 and then starts a new round. Mode selection also stores the mode |
| `Session.TieScenario` | Tic-Tac-Toe-PY/main.py:122-128 | `X O X / X O X / O X O` is a tie: TIE goes up by 1 and the game ends |
| `Session.FullBoardWinScenario` | Tic-Tac-Toe-PY/main.py:103-125 | `X O X / O X O / O X X` is a win for X, not a tie |
| `Engine.Game.constructor` | Tic-Tac-Toe-PY/main.py:10-16 | The initial state: empty board, X to move, game on, no mode, all counters 0 |
| `Engine.Game.NextTurn` | Tic-Tac-Toe-PY/main.py:133-137 | Only the player to move changes, to the other player |
| `Engine.Game.CheckResult` | Tic-Tac-Toe-PY/main.py:99-131 | The new state is `Resolve` of the old one, with the same board array |
| `Engine.Game.HandleCellClick` | Tic-Tac-Toe-PY/main.py:144-165 | The new state is `Click` of the old one |
| `Engine.Game.MakeMove` | Tic-Tac-Toe-PY/main.py:216-230 | The new state is `Place` of the old one: the mark is written, then the result is checked |
| `Engine.Game.TrialScan` | Tic-Tac-Toe-PY/main.py:189-209 | One trial loop returns the first empty cell, in list order, where the trial mark completes a line. Every trial that fails is undone, so the board is unchanged except for the trial mark left on the cell found |
| `Engine.Game.PickCell` | Tic-Tac-Toe-PY/main.py:188-213 | The chosen cell is one `ComputerMay` allows. Writing O there gives the same board as writing O into the starting board: at most a trial O was left on that cell |
| `Engine.Game.BlockOrAny` | Tic-Tac-Toe-PY/main.py:199-213 | When no empty cell wins for O, the chosen cell is one `ComputerMay` allows, and every trial X has been taken back, so the board is as it started |
| `Engine.Game.ComputerMove` | Tic-Tac-Toe-PY/main.py:174-213 | With no empty cell, nothing changes. Otherwise the cell played is one `ComputerMay` allows, and the new state is `Place(old state, cell, O)` |
| `Engine.Game.StartNewGame` | Tic-Tac-Toe-PY/main.py:242-257 | The new state is `NewRound` of the old one, on a freshly allocated board |
| `Engine.Game.ResetAllScores` | Tic-Tac-Toe-PY/main.py:259-264 | The new state is `ClearScores` of the old one |
| `Engine.Game.SelectMode` | Tic-Tac-Toe-PY/main.py:266-286 | The new state is `EnterMode` of the old one |

## Left out

- Presentation: `update_scores`, `set_turn_display`, `show_thinking`, `show_celebration`, `hide_celebration`, `reset_board_ui` and `setup_event_listeners`, and every write to `textContent`, `className`, `disabled` and the labels (`main.py:18-31`, `42-94`, `160-162`, `224-227`, `234-240`, `272-283`, `291-313`). These only display the state.
- Timer scheduling with `js.setTimeout` and `create_proxy` (`main.py:119`, `127`, `142`, `257`). The computer's delayed move becomes `Game.ComputerMove`, which the caller invokes. The predicate `Session.ComputerDue` says when `next_turn` would schedule it. A timer that is still pending when a new round starts is outside the model.
- `random.choice` (`main.py:212`): the random pick is an arbitrary member of the empty-cell list (`:|`). Its distribution is not modelled.
- The back button's page reload (`main.py:299`): browser I/O.
- The click event's `data-index` attribute: `HandleCellClick` takes the index as a parameter of type `Index` (0 to 8).
- `start_new_game`'s branch that schedules a computer move when O is to move (`main.py:256-257`) can never run, because `current_player` was just set to X. `Session.NewRoundIsFresh` proves that no computer move is due after a new round.
- The computer's move, like the program's, does not check whether the game is on or whose turn it is: the requires of `Game.ComputerMove` do not need the game to be on or O to be due. Its ensures give the whole new state, `Place(old state, cell, O)`, whatever that state was.
- `computer_move` is split into `ComputerMove`, `PickCell`, `BlockOrAny` and `TrialScan`. Together they hold its decision and its two trial loops. The writes to the board are the same as the program's, in the same order: a winning trial O is left in place and written again by the move, and a blocking trial X is undone before O is played.
