/** The GUI-free engine of the integration tests: a board object with
    bounds-checked moves, a fixed-order opponent, and a controller that
    alternates turns, records the outcome and, in computer mode, answers each
    of X's moves that does not end the game at once. */
module Integration {
  import opened Grid

  /** The board object: nine cells updated in place. */
  class GameBoard {
    var cells: Board

    constructor()
      ensures cells == Blank
    {
      cells := Blank;
    }

    /** Accepted exactly when the index is on the board and its cell is empty;
        an accepted move writes `player` there and nowhere else, a refused one
        changes nothing. */
    method MakeMove(position: int, player: Player) returns (ok: bool)
      modifies this
      ensures ok <==> 0 <= position < 9 && old(cells)[position] == Empty
      ensures ok ==> cells == old(cells)[position := Taken(player)]
      ensures !ok ==> cells == old(cells)
    {
      if 0 <= position < 9 && cells[position] == Empty {
        cells := cells[position := Taken(player)];
        return true;
      }
      return false;
    }

    /** The same line scan as the application's. */
    method CheckWinner() returns (w: Option<Player>)
      ensures w == Winner(cells)
    {
      w := Grid.CheckWinner(cells);
    }

    /** Full exactly when no cell is left to count as empty. */
    function IsFull(): (full: bool)
      reads this
      ensures full <==> CountOf(cells, Empty) == 0
    {
      NoEmptyIffCountZero(cells);
      Full(cells)
    }

    method Reset()
      modifies this
      ensures cells == Blank
    {
      cells := Blank;
    }
  }

  /** The opponent's rule (see SimpleChoiceRule): no move exactly on a full
      board, otherwise an empty cell. */
  function SimpleChoice(b: Board): (r: Option<Pos>)
    ensures r.None? <==> Full(b)
    ensures r.Some? ==> b[r.value] == Empty
  {
    var available := FreeFrom(b, 0);
    if available == [] then None
    else if 4 in available then Some(4)
    else
      var corners := FreeCells(b, Corners);
      assert available[0] in available;
      if corners != [] then assert corners[0] in corners; Some(corners[0])
      else Some(available[0])
  }

  /** With the centre taken and a corner free, the opponent takes the first
      free corner in the order 0, 2, 6, 8. */
  lemma SimpleChoiceCorner(b: Board)
    requires b[4] != Empty && exists k | 0 <= k < |Corners| :: b[Corners[k]] == Empty
    ensures exists k | 0 <= k < |Corners| ::
              SimpleChoice(b) == Some(Corners[k]) && forall m | 0 <= m < k :: b[Corners[m]] != Empty
  {
    var available := FreeFrom(b, 0);
    var corners := FreeCells(b, Corners);
    var j :| 0 <= j < |Corners| && b[Corners[j]] == Empty;
    assert Corners[j] in available;
    assert 4 !in available;
    var c := corners[0];
    assert c in corners;
    assert SimpleChoice(b) == Some(c);
    if b[0] == Empty {
      assert c == Corners[0];
    } else if b[2] == Empty {
      assert c == Corners[1];
    } else if b[6] == Empty {
      assert c == Corners[2];
    } else {
      assert c == Corners[3];
    }
  }

  /** With the centre and every corner taken, the opponent takes the lowest
      free cell. */
  lemma SimpleChoiceLowest(b: Board)
    requires b[4] != Empty && forall k | 0 <= k < |Corners| :: b[Corners[k]] != Empty
    ensures SimpleChoice(b).Some? ==> forall i: Pos | i < SimpleChoice(b).value :: b[i] != Empty
  {
    var available := FreeFrom(b, 0);
    if available != [] {
      assert 4 !in available;
      assert FreeCells(b, Corners) == [] by {
        if FreeCells(b, Corners) != [] {
          assert FreeCells(b, Corners)[0] in FreeCells(b, Corners);
        }
      }
    }
  }

  /** The opponent makes no move exactly on a full board; otherwise it picks
      an empty cell: the centre if free, else the first free corner in the
      order 0, 2, 6, 8, else the lowest free cell. */
  lemma SimpleChoiceRule(b: Board)
    ensures var r := SimpleChoice(b);
            && (r.None? <==> Full(b))
            && (r.Some? ==> b[r.value] == Empty)
            && (b[4] == Empty ==> r == Some(4))
            && (b[4] != Empty && (exists k | 0 <= k < |Corners| :: b[Corners[k]] == Empty) ==>
                  exists k | 0 <= k < |Corners| ::
                    r == Some(Corners[k]) && forall m | 0 <= m < k :: b[Corners[m]] != Empty)
            && (b[4] != Empty && (forall k | 0 <= k < |Corners| :: b[Corners[k]] != Empty) ==>
                  r.Some? ==> forall i: Pos | i < r.value :: b[i] != Empty)
  {
    var available := FreeFrom(b, 0);
    if available == [] {
      assert Full(b);
    } else {
      assert b[available[0]] == Empty by { assert available[0] in available; }
      if b[4] == Empty {
        assert 4 in available;
      } else {
        var corners := FreeCells(b, Corners);
        if corners != [] {
          assert corners[0] in corners;
        }
        if exists k | 0 <= k < |Corners| :: b[Corners[k]] == Empty {
          SimpleChoiceCorner(b);
        } else {
          SimpleChoiceLowest(b);
        }
      }
    }
  }

  /** The opponent object's move: the free cells, then the centre, then the
      corners in order, then the first free cell. */
  method GetMove(board: GameBoard) returns (move: Option<Pos>)
    ensures move == SimpleChoice(board.cells)
  {
    var available := FreeFrom(board.cells, 0);
    if available == [] {
      return None;
    }
    if 4 in available {
      return Some(4);
    }
    for k := 0 to |Corners|
      invariant forall m | 0 <= m < k :: Corners[m] !in available
    {
      if Corners[k] in available {
        return Some(Corners[k]);
      }
    }
    return Some(available[0]);
  }

  /** What a move reports besides success: the text of the source's replies. */
  datatype Note = GameOver | InvalidMove | WonBy(p: Player) | Draw | Accepted | AiStuck

  datatype Reply = Reply(ok: bool, note: Note)

  /** The controller's fields and its board's cells at one moment. */
  datatype Snapshot = Snapshot(
    cells: Board, current: Player, over: bool, winner: Option<Player>, moveCount: nat)

  /** A new controller, and the state a reset returns to. */
  const Start: Snapshot := Snapshot(Blank, X, false, None, 0)

  /** One move as the board sees it: refused once the game is over or when
      the board refuses it; otherwise counted, then a win or a full board
      ends the game, else the turn passes. */
  function Step(s: Snapshot, pos: int): (r: (Snapshot, Reply))
    ensures r.1.ok <==> !s.over && 0 <= pos < 9 && s.cells[pos] == Empty
    ensures !r.1.ok ==> r.0 == s && r.1.note == (if s.over then GameOver else InvalidMove)
    ensures r.1.ok ==> r.0.moveCount == s.moveCount + 1
  {
    if s.over then (s, Reply(false, GameOver))
    else if !(0 <= pos < 9 && s.cells[pos] == Empty) then (s, Reply(false, InvalidMove))
    else
      var cells := s.cells[pos := Taken(s.current)];
      var s1 := s.(cells := cells, moveCount := s.moveCount + 1, winner := Winner(cells));
      if s1.winner.Some? then (s1.(over := true), Reply(true, WonBy(s1.winner.value)))
      else if Full(cells) then (s1.(over := true), Reply(true, Draw))
      else (s1.(current := Other(s.current)), Reply(true, Accepted))
  }

  /** An accepted step fills one more cell. */
  lemma StepFillsOneCell(s: Snapshot, pos: int)
    ensures var (t, reply) := Step(s, pos);
            CountOf(t.cells, Empty) == CountOf(s.cells, Empty) - (if reply.ok then 1 else 0)
  {
    if Step(s, pos).1.ok {
      CountAfterWrite(s.cells, pos, Taken(s.current), Empty);
    }
  }

  /** An accepted step, with the board's fullness read as its count of empty
      cells: the mark is written, the move counted, the scan's winner
      recorded, and the game ends on a winner or when no cell is left empty,
      the turn passing otherwise. */
  lemma StepAccepted(s: Snapshot, pos: int)
    requires !s.over && 0 <= pos < 9 && s.cells[pos] == Empty
    ensures var cells := s.cells[pos := Taken(s.current)];
            var w := Winner(cells);
            var over := w.Some? || CountOf(cells, Empty) == 0;
            var (t, reply) := Step(s, pos);
            && t.cells == cells && t.moveCount == s.moveCount + 1 && t.winner == w && t.over == over
            && t.current == (if over then s.current else Other(s.current))
            && reply == Reply(true, if w.Some? then WonBy(w.value) else if over then Draw else Accepted)
  {
    NoEmptyIffCountZero(s.cells[pos := Taken(s.current)]);
  }

  /** A move at `pos`: the step, and then, in computer mode, when the step
      handed the turn to O, O's answer before returning. */
  function Play(s: Snapshot, mode: Mode, pos: int): (r: (Snapshot, Reply))
    ensures r.1.ok <==> !s.over && 0 <= pos < 9 && s.cells[pos] == Empty
    ensures !r.1.ok ==> r.0 == s
    decreases CountOf(s.cells, Empty), 0
  {
    var (t, reply) := Step(s, pos);
    if reply.ok && mode == Ai && t.current == O && !t.over then
      StepFillsOneCell(s, pos);
      AiPlay(t, mode)
    else (t, reply)
  }

  /** When the step does not hand the turn to the computer, the move is the step. */
  lemma PlayIsStep(s: Snapshot, mode: Mode, pos: int)
    requires var (t, reply) := Step(s, pos); !(reply.ok && mode == Ai && t.current == O && !t.over)
    ensures Play(s, mode, pos) == Step(s, pos)
  {
  }

  /** When it does, the move is the step followed by the computer's turn. */
  lemma PlayIsStepThenAnswer(s: Snapshot, mode: Mode, pos: int)
    requires var (t, reply) := Step(s, pos); reply.ok && mode == Ai && t.current == O && !t.over
    ensures Play(s, mode, pos) == AiPlay(Step(s, pos).0, mode)
  {
  }

  /** The computer's turn: the opponent's cell played as a move, or a refusal
      when it has none. */
  function AiPlay(s: Snapshot, mode: Mode): (r: (Snapshot, Reply))
    ensures r.1.ok <==> !s.over && !Full(s.cells)
    ensures !r.1.ok ==> r.0 == s
    decreases CountOf(s.cells, Empty), 1
  {
    match SimpleChoice(s.cells)
    case None => (s, Reply(false, AiStuck))
    case Some(p) => Play(s, mode, p)
  }

  /** The controller keeps its position reachable by alternating play, its
      recorded winner equal to the board's, and its move counter equal to the
      number of filled cells. */
  predicate Inv(s: Snapshot)
  {
    && Consistent(s.cells, s.current, !s.over)
    && s.winner == Winner(s.cells)
    && s.moveCount + CountOf(s.cells, Empty) == 9
  }

  /** A new or reset controller satisfies the invariant. */
  lemma StartInv()
    ensures Inv(Start)
  {
    BlankConsistent();
    BlankCounts();
  }

  /** A step keeps the invariant. */
  lemma StepKeepsInv(s: Snapshot, pos: int)
    requires Inv(s)
    ensures Inv(Step(s, pos).0)
  {
    if !s.over && 0 <= pos < 9 && s.cells[pos] == Empty {
      PlaceKeepsConsistent(s.cells, pos, s.current);
      CountAfterWrite(s.cells, pos, Taken(s.current), Empty);
    }
  }

  /** Every move, including the computer's answer, keeps the invariant. */
  lemma {:induction false} PlayKeepsInv(s: Snapshot, mode: Mode, pos: int)
    requires Inv(s)
    ensures Inv(Play(s, mode, pos).0)
    decreases CountOf(s.cells, Empty)
  {
    StepKeepsInv(s, pos);
    StepFillsOneCell(s, pos);
    var (t, reply) := Step(s, pos);
    if reply.ok && mode == Ai && t.current == O && !t.over {
      SimpleChoiceRule(t.cells);
      NoEmptyIffCountZero(t.cells);
      var a := SimpleChoice(t.cells);
      assert AiPlay(t, mode) == Play(t, mode, a.value);
      PlayKeepsInv(t, mode, a.value);
    }
  }

  /** The computer's turn, called on its own, keeps the invariant too. */
  lemma AiPlayKeepsInv(s: Snapshot, mode: Mode)
    requires Inv(s)
    ensures Inv(AiPlay(s, mode).0)
  {
    match SimpleChoice(s.cells)
    case None =>
    case Some(p) => PlayKeepsInv(s, mode, p);
  }

  /** A refused move changes nothing: after the game is over, or when the
      index is off the board or its cell is taken. */
  lemma PlayRefuses(s: Snapshot, mode: Mode, pos: int)
    requires s.over || !(0 <= pos < 9 && s.cells[pos] == Empty)
    ensures Play(s, mode, pos).0 == s
    ensures Play(s, mode, pos).1 == Reply(false, if s.over then GameOver else InvalidMove)
  {
  }

  /** Between friends, an accepted move fills exactly its cell, counts once,
      ends the game exactly on a line or a full board (recording the mover as
      winner on a line), and passes the turn exactly when the game goes on. */
  lemma FriendMoveAlternates(s: Snapshot, pos: int)
    requires Inv(s) && !s.over && 0 <= pos < 9 && s.cells[pos] == Empty
    ensures var (t, reply) := Play(s, Friend, pos);
            && reply.ok
            && t.cells == s.cells[pos := Taken(s.current)]
            && t.moveCount == s.moveCount + 1
            && (t.over <==> HasLine(t.cells, s.current) || Full(t.cells))
            && (t.winner.Some? <==> HasLine(t.cells, s.current))
            && (t.winner.Some? ==> t.winner == Some(s.current))
            && t.current == (if t.over then s.current else Other(s.current))
  {
    var cells := s.cells[pos := Taken(s.current)];
    PlaceKeepsConsistent(s.cells, pos, s.current);
    PlaceOnlyHelpsMover(s.cells, pos, s.current, Other(s.current));
    if HasLine(cells, s.current) {
      WinnerIsTheOnlyLineHolder(cells, s.current);
    }
  }

  /** In computer mode, X's accepted move is answered before the call
      returns: when X's move does not end the game, O's answer is accepted
      too, lands on the opponent's cell, and counts as a second move; either
      way X is on move again or the game is over, so the answer never
      recurses further. */
  lemma AiAnswersAtOnce(s: Snapshot, pos: int)
    requires !s.over && s.current == X && 0 <= pos < 9 && s.cells[pos] == Empty
    ensures var b1 := s.cells[pos := Taken(X)];
            var (t, reply) := Play(s, Ai, pos);
            && reply.ok
            && (t.over || t.current == X)
            && (Winner(b1).Some? || Full(b1) ==> t.cells == b1 && t.moveCount == s.moveCount + 1)
            && (Winner(b1).None? && !Full(b1) ==>
                  && SimpleChoice(b1).Some?
                  && t.cells == b1[SimpleChoice(b1).value := Taken(O)]
                  && t.moveCount == s.moveCount + 2)
  {
    var b1 := s.cells[pos := Taken(X)];
    StepAccepted(s, pos);
    NoEmptyIffCountZero(b1);
    var t := Step(s, pos).0;
    if t.over {
      PlayIsStep(s, Ai, pos);
    } else {
      PlayIsStepThenAnswer(s, Ai, pos);
      SimpleChoiceRule(b1);
      var a := SimpleChoice(b1).value;
      assert AiPlay(t, Ai) == Play(t, Ai, a);
      StepAccepted(t, a);
      PlayIsStep(t, Ai, a);
    }
  }

  /** The controller object: its own board and opponent, the mode, and the
      turn and outcome fields it updates in place. */
  class GameController {
    const board: GameBoard
    const mode: Mode
    var currentPlayer: Player
    var gameOver: bool
    var winner: Option<Player>
    var moveCount: nat

    function Snap(): Snapshot
      reads this, board
    {
      Snapshot(board.cells, currentPlayer, gameOver, winner, moveCount)
    }

    constructor(mode: Mode := Friend)
      ensures Snap() == Start && this.mode == mode && fresh(board)
    {
      board := new GameBoard();
      this.mode := mode;
      currentPlayer := X;
      gameOver := false;
      winner := None;
      moveCount := 0;
    }

    method MakeMove(position: int) returns (ok: bool, note: Note)
      modifies this, board
      ensures (Snap(), Reply(ok, note)) == Play(old(Snap()), mode, position)
      decreases CountOf(board.cells, Empty), 0
    {
      ghost var s0 := Snap();
      if gameOver {
        PlayIsStep(s0, mode, position);
        return false, GameOver;
      }
      var placed := board.MakeMove(position, currentPlayer);
      if !placed {
        PlayIsStep(s0, mode, position);
        return false, InvalidMove;
      }
      StepAccepted(s0, position);
      ghost var t := Step(s0, position).0;
      moveCount := moveCount + 1;
      winner := board.CheckWinner();
      assert board.cells == t.cells && moveCount == t.moveCount && winner == t.winner;
      if winner.Some? {
        gameOver := true;
        PlayIsStep(s0, mode, position);
        return true, WonBy(winner.value);
      }
      var full := board.IsFull();
      if full {
        gameOver := true;
        PlayIsStep(s0, mode, position);
        return true, Draw;
      }
      currentPlayer := Other(currentPlayer);
      if mode == Ai && currentPlayer == O && !gameOver {
        CountAfterWrite(s0.cells, position, Taken(s0.current), Empty);
        PlayIsStepThenAnswer(s0, mode, position);
        ok, note := MakeAiMove();
        return;
      }
      PlayIsStep(s0, mode, position);
      return true, Accepted;
    }

    method MakeAiMove() returns (ok: bool, note: Note)
      modifies this, board
      ensures (Snap(), Reply(ok, note)) == AiPlay(old(Snap()), mode)
      decreases CountOf(board.cells, Empty), 1
    {
      var aiPosition := GetMove(board);
      if aiPosition.Some? {
        ok, note := MakeMove(aiPosition.value);
        return;
      }
      return false, AiStuck;
    }

    method Reset()
      modifies this, board
      ensures Snap() == Start
    {
      board.Reset();
      currentPlayer := X;
      gameOver := false;
      winner := None;
      moveCount := 0;
    }
  }
}
