/** The game engine inside the tic-tac-toe application: the board, turn and
    score fields, moves, the result check, the greedy opponent and reset.
    The widgets, popups, animations and timers around it are not modelled. */
module Game {
  import opened Grid

  /** The running tally kept across games. */
  datatype Score = Score(x: nat, o: nat, ties: nat)

  /** The application's game fields at one moment. */
  datatype AppState = AppState(board: Board, current: Player, active: bool, score: Score)

  function Total(sc: Score): nat
  {
    sc.x + sc.o + sc.ties
  }

  /** Crediting a win: the tally grows by exactly one, on the winner's counter. */
  function Credit(sc: Score, winner: Player): (r: Score)
    ensures Total(r) == Total(sc) + 1 && r.ties == sc.ties
    ensures winner == X ==> r.o == sc.o
    ensures winner == O ==> r.x == sc.x
  {
    if winner == X then sc.(x := sc.x + 1) else sc.(o := sc.o + 1)
  }

  /** The result check after a move: a win ends the game and credits the
      winner without passing the turn; a full board without a win ends it as
      a tie; otherwise the turn passes and the game goes on. */
  function Settle(s: AppState): (r: AppState)
    ensures r.board == s.board
    ensures Winner(s.board).Some? ==>
              && !r.active && r.current == s.current
              && r.score == Credit(s.score, Winner(s.board).value)
    ensures Winner(s.board).None? && Full(s.board) ==>
              && !r.active && r.current == s.current
              && r.score == s.score.(ties := s.score.ties + 1)
    ensures Winner(s.board).None? && !Full(s.board) ==>
              && r.active == s.active && r.current == Other(s.current)
              && r.score == s.score
  {
    var winner := Winner(s.board);
    if winner.Some? then
      s.(active := false, score := Credit(s.score, winner.value))
    else if Full(s.board) then
      s.(active := false, score := s.score.(ties := s.score.ties + 1))
    else
      s.(current := Other(s.current))
  }

  /** A move at `pos`: ignored once the game is over or when the cell is
      taken; otherwise the player on move takes exactly that cell, the other
      eight are untouched, and the result is checked. */
  function Move(s: AppState, pos: Pos): (r: AppState)
    ensures !s.active || s.board[pos] != Empty ==> r == s
    ensures s.active && s.board[pos] == Empty ==>
              && r.board[pos] == Taken(s.current)
              && forall i: Pos | i != pos :: r.board[i] == s.board[i]
  {
    if !s.active || s.board[pos] != Empty then s
    else Settle(s.(board := s.board[pos := Taken(s.current)]))
  }

  /** A new game: empty board, X to move, live; the tally is kept. */
  function ResetState(s: AppState): (r: AppState)
    ensures r.score == s.score
    ensures r.current == X && r.active && forall i: Pos :: r.board[i] == Empty
    ensures Consistent(r.board, r.current, r.active)
  {
    BlankConsistent();
    AppState(Blank, X, true, s.score)
  }

  /** Every move keeps a position consistent, and the tally grows by one
      exactly when the move ends the game. */
  lemma MoveKeepsConsistent(s: AppState, pos: Pos)
    requires Consistent(s.board, s.current, s.active)
    ensures var r := Move(s, pos);
            && Consistent(r.board, r.current, r.active)
            && Total(r.score) == Total(s.score) + (if s.active && !r.active then 1 else 0)
  {
    if s.active && s.board[pos] == Empty {
      var b' := s.board[pos := Taken(s.current)];
      PlaceKeepsConsistent(s.board, pos, s.current);
      var r := Move(s, pos);
      assert r == Settle(s.(board := b'));
      if Winner(b').Some? {
        assert r.board == b' && !r.active && r.current == s.current;
      } else if Full(b') {
        assert r.board == b' && !r.active && r.current == s.current;
      } else {
        assert r.board == b' && r.active && r.current == Other(s.current);
      }
    }
  }

  /** On a live position, a move into an empty cell ends the game exactly
      when the mover completes a line or fills the board: a completed line is
      always the mover's and is credited to the mover, a full board without a
      line is a tie, and otherwise the turn passes with the tally unchanged. */
  lemma MoveOutcome(s: AppState, pos: Pos)
    requires Consistent(s.board, s.current, s.active)
    requires s.active && s.board[pos] == Empty
    ensures var b' := s.board[pos := Taken(s.current)];
            var r := Move(s, pos);
            && (HasLine(b', s.current) ==>
                  !r.active && r.current == s.current && r.score == Credit(s.score, s.current))
            && (!HasLine(b', s.current) && Full(b') ==>
                  !r.active && r.current == s.current && r.score.ties == s.score.ties + 1)
            && (!HasLine(b', s.current) && !Full(b') ==>
                  r.active && r.current == Other(s.current) && r.score == s.score)
  {
    var b' := s.board[pos := Taken(s.current)];
    var r := Move(s, pos);
    assert r == Settle(s.(board := b'));
    PlaceOnlyHelpsMover(s.board, pos, s.current, Other(s.current));
    if HasLine(b', s.current) {
      WinnerIsTheOnlyLineHolder(b', s.current);
    } else {
      assert Winner(b') == None;
    }
  }

  /** Putting `p` at `i` is legal and makes the winner scan report `p`. */
  predicate WinsAt(b: Board, i: Pos, p: Player)
  {
    b[i] == Empty && Winner(b[i := Taken(p)]) == Some(p)
  }

  /** The trial placements from cell `k` on (see WinningMoveFromFinds). */
  function WinningMoveFrom(b: Board, p: Player, k: nat): Option<Pos>
    requires k <= 9
    decreases 9 - k
  {
    if k == 9 then None
    else if WinsAt(b, k, p) then Some(k as Pos)
    else WinningMoveFrom(b, p, k + 1)
  }

  /** The scan from cell `k` reports the first cell from `k` on where `p`
      would win, and nothing exactly when there is none. */
  lemma {:induction false} WinningMoveFromFinds(b: Board, p: Player, k: nat)
    requires k <= 9
    ensures var r := WinningMoveFrom(b, p, k);
            && (r.Some? ==> k <= r.value && WinsAt(b, r.value, p))
            && (r.Some? ==> forall j: Pos | k <= j < r.value :: !WinsAt(b, j, p))
            && (r.None? <==> forall j: Pos | k <= j :: !WinsAt(b, j, p))
    decreases 9 - k
  {
    if k < 9 && !WinsAt(b, k, p) {
      WinningMoveFromFinds(b, p, k + 1);
      var r := WinningMoveFrom(b, p, k + 1);
      assert WinningMoveFrom(b, p, k) == r;
      forall j: Pos | k <= j && (r.None? || j < r.value)
        ensures !WinsAt(b, j, p)
      {
        if j != k {
          assert k + 1 <= j;
        }
      }
    }
  }

  /** The smallest cell where `p` would win at once, if there is one
      (see WinningMoveIsFirstWin): a reported cell is empty and completes a
      line for `p`. */
  function WinningMove(b: Board, p: Player): (r: Option<Pos>)
    ensures r.Some? ==> b[r.value] == Empty && Winner(b[r.value := Taken(p)]) == Some(p)
  {
    WinningMoveFromFinds(b, p, 0);
    WinningMoveFrom(b, p, 0)
  }

  /** The trial scan finds a winning cell for `p` exactly when one exists,
      and then the smallest. */
  lemma WinningMoveIsFirstWin(b: Board, p: Player)
    ensures var r := WinningMove(b, p);
            && (r.Some? ==> WinsAt(b, r.value, p) && forall j: Pos | j < r.value :: !WinsAt(b, j, p))
            && (r.None? <==> forall j: Pos :: !WinsAt(b, j, p))
  {
    WinningMoveFromFinds(b, p, 0);
  }

  /** The centre, when it is free. */
  function TakeCenter(b: Board): (r: Option<Pos>)
    ensures r.Some? <==> b[4] == Empty
    ensures r.Some? ==> r.value == 4
  {
    if b[4] == Empty then Some(4) else None
  }

  /** A free corner picked by `pick` (the source picks at random); none
      exactly when all four corners are taken. */
  function TakeCorner(b: Board, pick: nat): (r: Option<Pos>)
    ensures r.None? <==> forall k | 0 <= k < |Corners| :: b[Corners[k]] != Empty
    ensures r.Some? ==> r.value in Corners && b[r.value] == Empty
  {
    var free := FreeCells(b, Corners);
    if free == [] then None
    else
      var c := free[pick % |free|];
      assert c in free;
      Some(c)
  }

  /** A pick that makes `random.choice` over `cands` return `c`. */
  lemma PickOf(cands: seq<Pos>, c: Pos) returns (pick: nat)
    requires c in cands
    ensures cands[pick % |cands|] == c
  {
    pick :| pick < |cands| && cands[pick] == c;
    assert pick % |cands| == pick;
  }

  /** Every free corner is the result of some pick, so the properties proved
      for all picks cover every outcome of the random choice. */
  lemma TakeCornerReachesEveryFreeCorner(b: Board, c: Pos)
    requires c in Corners && b[c] == Empty
    ensures exists pick: nat :: TakeCorner(b, pick) == Some(c)
  {
    var free := FreeCells(b, Corners);
    assert c in free;
    var i := PickOf(free, c);
    assert TakeCorner(b, i) == Some(c);
  }

  /** The opponent's choice on a board: its own winning cell, else the cell
      that blocks X, else the centre, else a free corner, else any free cell;
      the two random choices are made by `cornerPick` and `cellPick`. */
  function AiChoice(b: Board, cornerPick: nat, cellPick: nat): (r: Option<Pos>)
    ensures r.None? <==> Full(b)
    ensures r.Some? ==> b[r.value] == Empty
    ensures (exists i: Pos :: WinsAt(b, i, O)) ==> r == WinningMove(b, O)
    ensures (forall i: Pos :: !WinsAt(b, i, O)) && (exists i: Pos :: WinsAt(b, i, X)) ==>
              r == WinningMove(b, X)
    ensures (forall i: Pos :: !WinsAt(b, i, O) && !WinsAt(b, i, X)) && b[4] == Empty ==>
              r == Some(4)
    ensures (forall i: Pos :: !WinsAt(b, i, O) && !WinsAt(b, i, X)) && b[4] != Empty ==>
              (exists k | 0 <= k < |Corners| :: b[Corners[k]] == Empty) ==>
              r.Some? && r.value in Corners
  {
    WinningMoveIsFirstWin(b, O);
    WinningMoveIsFirstWin(b, X);
    var available := FreeFrom(b, 0);
    if available == [] then None
    else if WinningMove(b, O).Some? then WinningMove(b, O)
    else if WinningMove(b, X).Some? then WinningMove(b, X)
    else if TakeCenter(b).Some? then TakeCenter(b)
    else if TakeCorner(b, cornerPick).Some? then TakeCorner(b, cornerPick)
    else Some(available[cellPick % |available|])
  }

  /** When no line is at stake and the centre and every corner are taken,
      every free cell is the result of some pick, so the properties proved
      for all picks cover every outcome of the last random choice. */
  lemma AiChoiceReachesEveryFreeCell(b: Board, cornerPick: nat, c: Pos)
    requires forall i: Pos :: !WinsAt(b, i, O) && !WinsAt(b, i, X)
    requires b[4] != Empty && forall k | 0 <= k < |Corners| :: b[Corners[k]] != Empty
    requires b[c] == Empty
    ensures exists cellPick: nat :: AiChoice(b, cornerPick, cellPick) == Some(c)
  {
    WinningMoveIsFirstWin(b, O);
    WinningMoveIsFirstWin(b, X);
    assert WinningMove(b, O).None? && WinningMove(b, X).None?;
    assert TakeCenter(b).None? && TakeCorner(b, cornerPick).None?;
    var available := FreeFrom(b, 0);
    assert c in available;
    var i := PickOf(available, c);
    assert AiChoice(b, cornerPick, i) == Some(c);
  }

  /** The opponent's reply: only while the game is live, in computer mode,
      on O's turn, and when a cell is free. */
  function AiReply(s: AppState, mode: Mode, cornerPick: nat, cellPick: nat): (r: Option<Pos>)
    ensures r.Some? <==> s.active && mode == Ai && s.current == O && !Full(s.board)
    ensures r.Some? ==> s.board[r.value] == Empty
  {
    if !s.active || mode != Ai || s.current != O then None
    else AiChoice(s.board, cornerPick, cellPick)
  }

  /** On a consistent position the opponent always has a reply on its turn,
      and the reply is a move the game accepts. */
  lemma AiReplyIsAccepted(s: AppState, mode: Mode, cornerPick: nat, cellPick: nat)
    requires Consistent(s.board, s.current, s.active)
    ensures var r := AiReply(s, mode, cornerPick, cellPick);
            && (r.Some? <==> s.active && mode == Ai && s.current == O)
            && (r.Some? ==> Move(s, r.value).board == s.board[r.value := Taken(O)])
  {
  }

  /** The application object: the game fields that the handlers update in place. */
  class App {
    var board: Board
    var currentPlayer: Player
    var gameActive: bool
    var playerXScore: nat
    var playerOScore: nat
    var ties: nat
    var gameMode: Mode

    function State(): AppState
      reads this
    {
      AppState(board, currentPlayer, gameActive, Score(playerXScore, playerOScore, ties))
    }

    /** The position is one that alternating play from the empty board reaches. */
    ghost predicate Valid()
      reads this
    {
      Consistent(board, currentPlayer, gameActive)
    }

    constructor()
      ensures State() == AppState(Blank, X, true, Score(0, 0, 0)) && gameMode == Friend
      ensures Valid()
    {
      board := Blank;
      currentPlayer := X;
      gameActive := true;
      playerXScore, playerOScore, ties := 0, 0, 0;
      gameMode := Friend;
      BlankConsistent();
    }

    /** The click handler on cell `position` (the button's text and colour are not modelled). */
    method MakeMove(position: Pos)
      modifies this
      ensures State() == Move(old(State()), position) && gameMode == old(gameMode)
      ensures old(Valid()) ==> Valid()
    {
      ghost var before := State();
      if Valid() {
        MoveKeepsConsistent(before, position);
      }
      if !gameActive || board[position] != Empty {
        return;
      }
      board := board[position := Taken(currentPlayer)];
      CheckGameResult();
    }

    /** The opponent's turn handler: chooses the cell that the timer then
        hands to ExecuteAiMove, leaving every field as it found it. */
    method MakeAiMove(cornerPick: nat, cellPick: nat) returns (move: Option<Pos>)
      modifies this
      ensures unchanged(this)
      ensures move == AiReply(State(), gameMode, cornerPick, cellPick)
    {
      if !gameActive || gameMode != Ai || currentPlayer != O {
        return None;
      }
      var available := FreeFrom(board, 0);
      if available == [] {
        return None;
      }
      move := FindWinningMove(O);
      if move.None? {
        move := FindWinningMove(X);
      }
      if move.None? {
        move := TakeCenter(board);
      }
      if move.None? {
        move := TakeCorner(board, cornerPick);
      }
      if move.None? {
        move := Some(available[cellPick % |available|]);
      }
    }

    /** The delayed opponent move: re-checks that the game is live and the
        cell free, then plays it like a click. */
    method ExecuteAiMove(position: Pos)
      modifies this
      ensures State() == Move(old(State()), position) && gameMode == old(gameMode)
      ensures old(Valid()) ==> Valid()
    {
      if gameActive && board[position] == Empty {
        MakeMove(position);
      }
    }

    /** Tries `player` in each empty cell in ascending order, undoing every
        trial, and reports the first cell where the scan then finds `player`. */
    method FindWinningMove(player: Player) returns (r: Option<Pos>)
      modifies this
      ensures unchanged(this)
      ensures r == WinningMove(board, player)
    {
      ghost var original := board;
      for i := 0 to 9
        invariant unchanged(this)
        invariant WinningMoveFrom(original, player, i) == WinningMove(original, player)
      {
        if board[i] == Empty {
          board := board[i := Taken(player)];
          var w := CheckWinner(board);
          assert w == Some(player) <==> WinsAt(original, i, player);
          if w == Some(player) {
            board := board[i := Empty];
            assert board == original;
            return Some(i);
          }
          board := board[i := Empty];
          assert board == original;
        }
      }
      return None;
    }

    /** The result check that follows every accepted move. */
    method CheckGameResult()
      modifies this
      ensures State() == Settle(old(State())) && gameMode == old(gameMode)
    {
      var winner := CheckWinner(board);
      if winner.Some? {
        gameActive := false;
        UpdateScore(winner.value);
      } else if Full(board) {
        gameActive := false;
        ties := ties + 1;
      } else {
        currentPlayer := Other(currentPlayer);
      }
    }

    /** Adds the win to the winner's counter (the label refresh is not modelled). */
    method UpdateScore(winner: Player)
      modifies this
      ensures State() == old(State()).(score := Credit(old(State()).score, winner))
      ensures gameMode == old(gameMode)
    {
      if winner == X {
        playerXScore := playerXScore + 1;
      } else {
        playerOScore := playerOScore + 1;
      }
    }

    /** Starts a new game on the same screen; the tally survives. */
    method ResetGame()
      modifies this
      ensures State() == ResetState(old(State())) && gameMode == old(gameMode)
      ensures Valid()
    {
      board := Blank;
      gameActive := true;
      currentPlayer := X;
      BlankConsistent();
    }
  }
}
