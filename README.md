# Tic-tac-toe engine, modelled in Dafny

This project models the game logic of a 3×3 tic-tac-toe program that exists in
two forms. It proves what each operation promises.

- **The application engine** (`TicTacToeApp` in `test_game.py`). Its fields are
  the board, the player on move, the live flag, the two score counters, the tie
  counter and the game mode. Its handlers are:
  - the click handler, which places a mark and then checks the result;
  - the result check, which ends the game on a win or a full board and
    otherwise passes the turn;
  - the score update and the reset;
  - a greedy opponent that plays O. It takes its own winning cell, else the
    cell that blocks X, else the centre, else a random free corner, else a
    random free cell.
- **The GUI-free engine** (`integrasion_test.py`). It has three parts:
  - `GameBoard`: bounds-checked placement, a winner scan, a full check and a
    reset;
  - `SimpleAI`: a fixed-order opponent that takes the centre, then the
    corners 0, 2, 6, 8, then the lowest free cell;
  - `GameController`: alternates turns and records `game_over`, `winner` and
    `move_count`. In `'ai'` mode it answers each of X's moves that does not
    end the game with the opponent's move before returning.

Layout:

- `grid.dfy` (module `Grid`) holds what both engines share:
  - marks, cells and the nine-cell board;
  - the eight lines in scan order, and the winner scan;
  - cell counting and the free-cell lists;
  - `Consistent`, the invariant of every position that alternating play
    reaches from the empty board. On such a position:
    - the game is live exactly when nobody has a line and a cell is free;
    - the player not on move never holds a line;
    - X has one mark more than O exactly when the player on move is the one
      X's last move handed over to (O while the game is live, X once it is
      over).
- `game.dfy` (module `Game`) models the application engine:
  - value-level specifications: `Move`, `Settle`, `Credit`, `ResetState`,
    `WinningMove`, `TakeCenter`, `TakeCorner`, `AiChoice` and `AiReply`;
  - the class `App`, which has the source's fields. Each of its methods is
    proved to produce exactly the state the matching specification function
    gives.
- `integration.dfy` (module `Integration`) models the GUI-free engine:
  - the classes `GameBoard` and `GameController`;
  - the opponent `GetMove`;
  - value-level specifications `Step`, `Play` and `AiPlay`. `Play` and
    `AiPlay` are mutually recursive, as the controller's `make_move` and
    `make_ai_move` are; `Step` is the board's part of one move.

Randomness is modelled by parameters. Where the source calls `random.choice`,
the model takes a caller-supplied index `pick` and chooses
`candidates[pick % |candidates|]`. Every property is proved for every pick.
`TakeCornerReachesEveryFreeCorner` shows that every candidate corner is some
pick's result, and `AiChoiceReachesEveryFreeCell` shows the same for the last
fallback, the random free cell.

## Model

| member | source | states |
|---|---|---|
| Grid.Winner | test_game.py:279-289 | A mark is reported only if that player holds a complete line. Nothing is reported exactly when neither player holds one. |
| Grid.WinnerIsTheOnlyLineHolder | test_game.py:279-289 | When exactly one player holds a line, the scan reports that player. |
| Grid.CheckWinner | test_game.py:279-289 | The loop over the eight lines, returning at the first uniform one, computes `Winner`. |
| Grid.FreeFrom | integrasion_test.py:36 | The comprehension over the board holds exactly the empty cells, and its head is the lowest empty cell. |
| Grid.FreeFromAscending | integrasion_test.py:36 | The comprehension lists the empty cells in strictly ascending order, so none appears twice. |
| Grid.FreeCells | test_game.py:256 | The comprehension holds exactly the candidates whose cell is empty. Its head is the first free candidate in candidate order. |
| Grid.FreeCellsKeepsOrder | test_game.py:256 | Ascending candidates, such as the corners 0, 2, 6, 8, give a strictly ascending list without repeats. |
| Grid.BlankConsistent | test_game.py:34-45 | The start position (empty board, X on move, live) satisfies the reachable-position invariant. |
| Grid.PlaceOnlyHelpsMover | test_game.py:202-207 | Writing one player's mark never completes a line for the other player. |
| Grid.PlaceKeepsConsistent | test_game.py:259-273 | A legal move on a live consistent position gives a consistent position. It stays live exactly when nobody won and a cell is free, and the other player is never the winner. |
| Game.Credit | test_game.py:363-368 | A win adds exactly one to the tally, on the winner's counter only. Ties are unchanged. |
| Game.Settle | test_game.py:259-273 | The result check has three outcomes. A win ends the game, credits the winner and keeps the turn. A full board without a win ends it with one more tie. Otherwise the turn passes and the tally is unchanged. The board is never touched. |
| Game.Move | test_game.py:202-207 | A move is ignored once the game is over or when the cell is taken. Otherwise the mover's mark goes into exactly that cell and the other eight are unchanged. |
| Game.MoveKeepsConsistent | test_game.py:259-273 | Every move keeps the reachable-position invariant. The tally grows by one exactly when the move ends the game. |
| Game.MoveOutcome | test_game.py:259-273 | On a live position, a move ends the game exactly when the mover completes a line (credited to the mover) or fills the board (a tie). Otherwise the turn passes. |
| Game.WinningMoveFromFinds | test_game.py:241-249 | The trial scan from cell k reports the first cell from k on where the player would win. It reports nothing exactly when there is no such cell. |
| Game.WinningMove | test_game.py:241-249 | A reported cell is empty, and marking it for the player makes the scan report that player. |
| Game.WinningMoveIsFirstWin | test_game.py:241-249 | `find_winning_move` returns the smallest empty cell that makes the scan report the player. It returns None exactly when no such cell exists. |
| Game.TakeCenter | test_game.py:251-252 | Returns 4 exactly when the centre is empty, otherwise None. |
| Game.TakeCorner | test_game.py:254-257 | Returns None exactly when all four corners are taken. Otherwise it returns an empty corner. |
| Game.TakeCornerReachesEveryFreeCorner | test_game.py:254-257 | Every empty corner is the outcome of some random pick. |
| Game.AiChoiceReachesEveryFreeCell | test_game.py:223-233 | When nobody can win at once and the centre and corners are taken, every empty cell is the outcome of some random pick. |
| Game.AiChoice | test_game.py:223-233 | The opponent chooses by strict priority: O's winning cell, then X's winning cell, then the centre, then a corner. It never chooses a taken cell, and chooses nothing exactly on a full board. |
| Game.AiReply | test_game.py:219-233 | A reply is produced exactly when the game is live, the mode is `'ai'`, O is on move and a cell is free. The reply is an empty cell. |
| Game.AiReplyIsAccepted | test_game.py:219-239 | On a consistent position, the opponent always has a reply on its turn, and the reply is a move the game accepts. |
| Game.App.constructor | test_game.py:34-45 | A new application has an empty board, X on move, a live game, zero scores and friend mode, and satisfies the invariant. |
| Game.App.MakeMove | test_game.py:202-207 | The handler leaves exactly the state `Move` gives, the result check included, and keeps the invariant. |
| Game.App.MakeAiMove | test_game.py:219-235 | Computes `AiReply` and leaves every field as it found it. The scheduled call is returned instead. |
| Game.App.ExecuteAiMove | test_game.py:237-239 | Re-checks liveness and the cell, then acts as `Move`, and keeps the invariant. |
| Game.App.FindWinningMove | test_game.py:241-249 | The trial loop returns `WinningMove`, and every field is unchanged afterwards. |
| Game.App.CheckGameResult | test_game.py:259-273 | Leaves exactly the state `Settle` gives. |
| Game.App.UpdateScore | test_game.py:363-368 | Leaves exactly the tally `Credit` gives. Nothing else changes. |
| Game.App.ResetGame | test_game.py:374-377 | Leaves exactly the state `ResetState` gives: empty board, X on move, live, tally kept. The invariant holds afterwards. |
| Game.ResetState | test_game.py:374-377 | After a reset every cell is empty, X is on move, the game is live, the tally is unchanged, and the position is consistent. |
| Integration.GameBoard.constructor | integrasion_test.py:8-9 | A new board has nine empty cells. |
| Integration.GameBoard.MakeMove | integrasion_test.py:11-15 | Accepted exactly when the index is on the board and the cell is empty. Acceptance writes that cell only; refusal changes nothing. |
| Integration.GameBoard.CheckWinner | integrasion_test.py:17-26 | The same scan as the application's: computes `Winner`. |
| Integration.GameBoard.IsFull | integrasion_test.py:28-29 | Full exactly when the count of empty cells is zero. |
| Integration.GameBoard.Reset | integrasion_test.py:31-32 | Every cell is empty again. |
| Integration.SimpleChoice | integrasion_test.py:35-49 | The opponent makes no move exactly on a full board. Otherwise it picks an empty cell. |
| Integration.SimpleChoiceCorner | integrasion_test.py:43-47 | With the centre taken and a corner free, the first free corner in the order 0, 2, 6, 8 is chosen. |
| Integration.SimpleChoiceLowest | integrasion_test.py:49 | With the centre and all corners taken, the lowest free cell is chosen. |
| Integration.SimpleChoiceRule | integrasion_test.py:35-49 | None exactly on a full board. Otherwise an empty cell: the centre if free, else the first free corner, else the lowest free cell. |
| Integration.GetMove | integrasion_test.py:35-49 | The opponent object's loop computes `SimpleChoice`. |
| Integration.Step | integrasion_test.py:61-82 | The board's part of a move is accepted exactly when the game is not over and the index names an empty cell. A refusal changes nothing and says why. An acceptance counts one move. |
| Integration.Play | integrasion_test.py:61-88 | A move is reported accepted exactly when the board accepts it: the opponent's answer never turns it into a refusal. A refused move changes nothing. |
| Integration.AiPlay | integrasion_test.py:90-94 | The computer's turn succeeds exactly when the game is not over and a cell is free. A failed turn changes nothing. |
| Integration.StepFillsOneCell | integrasion_test.py:61-68 | An accepted move fills exactly one more cell; a refused one fills none. |
| Integration.StepAccepted | integrasion_test.py:68-82 | For a legal move on a live game: the mark is written, the move is counted and the scan's winner recorded. The game ends on a winner or when no empty cell is left; otherwise the turn passes. |
| Integration.StartInv | integrasion_test.py:52-59 | A new controller keeps its invariant: a consistent position, `winner` equal to the scan, and `move_count` equal to the number of filled cells. |
| Integration.StepKeepsInv | integrasion_test.py:61-82 | One move, without the opponent's answer, keeps the controller invariant. |
| Integration.PlayKeepsInv | integrasion_test.py:61-94 | Every move, the opponent's answer included, keeps the controller invariant. |
| Integration.AiPlayKeepsInv | integrasion_test.py:90-94 | The computer's turn, called on its own, keeps the controller invariant, so `move_count` still equals the number of filled cells. |
| Integration.PlayRefuses | integrasion_test.py:62-66 | A move after the game is over, or one the board refuses, changes nothing and reports why. |
| Integration.FriendMoveAlternates | integrasion_test.py:68-82 | Between friends, an accepted move fills exactly its cell and counts once. The game ends exactly on a line or a full board, and a line is the mover's and is recorded as the winner. The turn passes exactly when the game goes on. |
| Integration.AiAnswersAtOnce | integrasion_test.py:85-94 | In `'ai'` mode, X's legal move is accepted. If it does not end the game, O's answer is accepted too, lands on the opponent's cell and counts as a second move. Either way X is on move again or the game is over, so the recursion is one level deep. |
| Integration.GameController.constructor | integrasion_test.py:52-59 | A new controller is at the start state, with the given mode (friend mode by default) and its own board. |
| Integration.GameController.MakeMove | integrasion_test.py:61-88 | The method's new state and reply are exactly those `Play` gives, the opponent's answer included. |
| Integration.GameController.MakeAiMove | integrasion_test.py:90-94 | The method's new state and reply are exactly those `AiPlay` gives. |
| Integration.GameController.Reset | integrasion_test.py:96-101 | Empty board, X on move, not over, no winner, zero moves. |

## Left out

- The Kivy presentation is not modelled. This covers screens, buttons and
  their text and colours, animations, popups, the status and score labels, and
  the animation in `highlight_winning_line`. It is display code and has no
  state the engine reads.
- `Clock.schedule_once` delays are not modelled. The scheduled call is a
  separate method that the caller invokes:
  - `Game.App.MakeAiMove` returns the cell it would schedule, and
    `Game.App.ExecuteAiMove` is the delayed call;
  - the automatic opponent turn after a result check, and the one after a
    reset, are left to the caller in the same way.
- The branch of `reset_game` that schedules an opponent move when O is on
  move is not modelled separately. Reset always puts X on move, so that
  branch is never taken.
- `random.choice` is modelled by the pick parameters (`pick`, `cornerPick`,
  `cellPick`). The real distribution is not modelled.
- Cells hold only `''`, `'X'` or `'O'`, as a datatype. Other player strings
  are not modelled. The reply messages of `GameController` are modelled by the
  datatype `Note`, not by their text.
- Game.App.MakeMove and Game.App.ExecuteAiMove take a position of type `Pos`
  (0 to 8). The source indexes the board without a bound check. Its only
  callers pass a button's index or an opponent choice, which are always 0
  to 8.
- The menu's mode selection (`start_game`) is not modelled. It is screen
  navigation. `gameMode` is a field that no modelled handler changes.
- The unit-test drivers and the printed reports are not modelled, because
  they are test harness code.
