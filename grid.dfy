/** The 3×3 board that both game engines share: marks, the eight winning
    lines, the winner scan, cell counting, and the invariant that every
    position reached by alternating moves from the empty board keeps. */
module Grid {

  datatype Option<T> = None | Some(value: T)

  /** How a game is played: against a friend, or against the computer, which plays O. */
  datatype Mode = Friend | Ai

  /** A player's mark. */
  datatype Player = X | O

  /** A cell holds nothing (the empty string) or a player's mark. */
  datatype Cell = Empty | Taken(mark: Player)

  /** A cell index, 0..8 in row-major order. */
  type Pos = i: int | 0 <= i < 9

  /** A board is always exactly nine cells long. */
  type Board = b: seq<Cell> | |b| == 9
    witness [Empty, Empty, Empty, Empty, Empty, Empty, Empty, Empty, Empty]

  const Blank: Board := [Empty, Empty, Empty, Empty, Empty, Empty, Empty, Empty, Empty]

  /** The four corner cells, in the order the engines try them. */
  const Corners: seq<Pos> := [0, 2, 6, 8]

  /** The player who moves after `p`. */
  function Other(p: Player): Player
  {
    if p == X then O else X
  }

  /** A winning line: three cell indices. */
  datatype Line = Line(a: Pos, b: Pos, c: Pos)

  /** Rows, columns, then the two diagonals, in the order the scan visits them. */
  const Lines: seq<Line> := [
    Line(0, 1, 2), Line(3, 4, 5), Line(6, 7, 8),
    Line(0, 3, 6), Line(1, 4, 7), Line(2, 5, 8),
    Line(0, 4, 8), Line(2, 4, 6)
  ]

  /** The scan's test: the three cells are equal and not empty. */
  predicate Uniform(b: Board, l: Line)
  {
    b[l.a] == b[l.b] && b[l.b] == b[l.c] && b[l.c] != Empty
  }

  /** `p` holds all three cells of `l`. */
  predicate Completes(b: Board, l: Line, p: Player)
  {
    b[l.a] == Taken(p) && b[l.b] == Taken(p) && b[l.c] == Taken(p)
  }

  /** `p` holds some complete line. */
  predicate HasLine(b: Board, p: Player)
  {
    exists k | 0 <= k < |Lines| :: Completes(b, Lines[k], p)
  }

  /** No cell is empty. */
  predicate Full(b: Board)
  {
    forall i | 0 <= i < 9 :: b[i] != Empty
  }

  /** The scan from line `k` on: the mark of the first uniform line. */
  function WinnerFrom(b: Board, k: nat): (w: Option<Player>)
    requires k <= |Lines|
    ensures w.Some? ==> exists j | k <= j < |Lines| :: Completes(b, Lines[j], w.value)
    ensures w.None? <==> forall j | k <= j < |Lines| :: !Uniform(b, Lines[j])
    decreases |Lines| - k
  {
    if k == |Lines| then None
    else if Uniform(b, Lines[k]) then Some(b[Lines[k].a].mark)
    else WinnerFrom(b, k + 1)
  }

  /** The winner of a board: a mark is reported only if it completes a line,
      and nothing is reported exactly when neither player has a line. */
  function Winner(b: Board): (w: Option<Player>)
    ensures w.Some? ==> HasLine(b, w.value)
    ensures w.None? <==> !HasLine(b, X) && !HasLine(b, O)
  {
    var w := WinnerFrom(b, 0);
    assert w.None? ==> !HasLine(b, X) && !HasLine(b, O) by {
      if w.None? {
        assert forall k, p | 0 <= k < |Lines| :: Completes(b, Lines[k], p) ==> Uniform(b, Lines[k]);
      }
    }
    assert w.Some? ==> HasLine(b, X) || HasLine(b, O) by {
      if w.Some? {
        if w.value == X { assert HasLine(b, X); } else { assert HasLine(b, O); }
      }
    }
    w
  }

  /** When only one player has a line, that player is the winner, whatever
      the other cells hold. */
  lemma WinnerIsTheOnlyLineHolder(b: Board, p: Player)
    requires HasLine(b, p) && !HasLine(b, Other(p))
    ensures Winner(b) == Some(p)
  {
  }

  /** The scan itself: the lines in order, returning at the first uniform one. */
  method CheckWinner(b: Board) returns (w: Option<Player>)
    ensures w == Winner(b)
  {
    for k := 0 to |Lines|
      invariant WinnerFrom(b, k) == Winner(b)
    {
      var line := Lines[k];
      if b[line.a] == b[line.b] && b[line.b] == b[line.c] && b[line.c] != Empty {
        return Some(b[line.a].mark);
      }
    }
    return None;
  }

  /** The number of cells equal to `c`. */
  function CountOf(s: seq<Cell>, c: Cell): nat
  {
    if s == [] then 0 else (if s[0] == c then 1 else 0) + CountOf(s[1..], c)
  }

  /** Writing `v` at `i` moves one cell from the count of `s[i]` to that of `v`. */
  lemma {:induction false} CountAfterWrite(s: seq<Cell>, i: nat, v: Cell, c: Cell)
    requires i < |s|
    ensures CountOf(s[i := v], c)
         == CountOf(s, c) - (if s[i] == c then 1 else 0) + (if v == c then 1 else 0)
  {
    if i == 0 {
      assert s[i := v][1..] == s[1..];
    } else {
      assert s[i := v][1..] == s[1..][i - 1 := v];
      CountAfterWrite(s[1..], i - 1, v, c);
    }
  }

  /** A sequence has no empty cell exactly when its count of empty cells is zero. */
  lemma {:induction false} NoEmptyIffCountZero(s: seq<Cell>)
    ensures CountOf(s, Empty) == 0 <==> forall i | 0 <= i < |s| :: s[i] != Empty
  {
    if s != [] {
      NoEmptyIffCountZero(s[1..]);
      assert forall i | 1 <= i < |s| :: s[i] == s[1..][i - 1];
    }
  }

  /** The empty board has nine empty cells and no marks. */
  lemma BlankCounts()
    ensures CountOf(Blank, Empty) == 9
    ensures CountOf(Blank, Taken(X)) == 0 && CountOf(Blank, Taken(O)) == 0
  {
  }

  /** The candidates, in their order, whose cell is empty (a list comprehension;
      see FreeCellsKeepsOrder). */
  function FreeCells(b: Board, cands: seq<Pos>): (r: seq<Pos>)
    ensures forall i :: i in r <==> i in cands && b[i] == Empty
    ensures forall j | 0 <= j < |cands| && b[cands[j]] == Empty ::
              r != [] && (r[0] == cands[j] || exists m | 0 <= m < j :: cands[m] == r[0])
  {
    if cands == [] then []
    else if b[cands[0]] == Empty then [cands[0]] + FreeCells(b, cands[1..])
    else FreeCells(b, cands[1..])
  }

  /** The empty cells with index `k` or more, in ascending order
      (the comprehension over `enumerate(board)`). */
  function FreeFrom(b: Board, k: nat): (r: seq<Pos>)
    requires k <= 9
    ensures forall i: Pos :: i in r <==> k <= i && b[i] == Empty
    ensures r != [] ==> forall i: Pos | k <= i < r[0] :: b[i] != Empty
    decreases 9 - k
  {
    if k == 9 then []
    else if b[k] == Empty then [k as Pos] + FreeFrom(b, k + 1)
    else FreeFrom(b, k + 1)
  }

  /** Strictly ascending, so no cell appears twice. */
  predicate Ascending(s: seq<Pos>)
  {
    forall i, j | 0 <= i < j < |s| :: s[i] < s[j]
  }

  /** The free cells from `k` on come in strictly ascending order, so each
      appears once. */
  lemma {:induction false} FreeFromAscending(b: Board, k: nat)
    requires k <= 9
    ensures Ascending(FreeFrom(b, k))
    decreases 9 - k
  {
    if k < 9 {
      FreeFromAscending(b, k + 1);
      var rest := FreeFrom(b, k + 1);
      if b[k] == Empty {
        ConsAscending(k as Pos, rest);
        assert FreeFrom(b, k) == [k as Pos] + rest;
      } else {
        assert FreeFrom(b, k) == rest;
      }
    }
  }

  /** Putting a smaller element in front keeps a list ascending. */
  lemma ConsAscending(x: Pos, rest: seq<Pos>)
    requires Ascending(rest) && forall y | y in rest :: x < y
    ensures Ascending([x] + rest)
  {
    var r := [x] + rest;
    forall i, j | 0 <= i < j < |r| ensures r[i] < r[j] {
      assert r[j] == rest[j - 1] && rest[j - 1] in rest;
      if i > 0 {
        assert r[i] == rest[i - 1];
      }
    }
  }

  /** In an ascending list every later element exceeds the first. */
  lemma AscendingHead(s: seq<Pos>)
    requires Ascending(s) && s != []
    ensures forall x | x in s[1..] :: s[0] < x
  {
    forall x | x in s[1..] ensures s[0] < x {
      var m :| 0 <= m < |s[1..]| && s[1..][m] == x;
      assert s[m + 1] == x;
    }
  }

  /** Strictly ascending candidates give a strictly ascending list: the
      comprehension keeps the candidates' order and drops only taken cells. */
  lemma {:induction false} FreeCellsKeepsOrder(b: Board, cands: seq<Pos>)
    requires Ascending(cands)
    ensures Ascending(FreeCells(b, cands))
  {
    if cands != [] {
      var tail := cands[1..];
      AscendingHead(cands);
      assert Ascending(tail) by {
        forall i, j | 0 <= i < j < |tail| ensures tail[i] < tail[j] {
          assert tail[i] == cands[i + 1] && tail[j] == cands[j + 1];
        }
      }
      FreeCellsKeepsOrder(b, tail);
      var rest := FreeCells(b, tail);
      if b[cands[0]] == Empty {
        ConsAscending(cands[0], rest);
        assert FreeCells(b, cands) == [cands[0]] + rest;
      } else {
        assert FreeCells(b, cands) == rest;
      }
    }
  }

  /** A position reachable by alternating moves from the empty board, X first:
      the game is live exactly when nobody has a line and a cell is free; the
      player not on move never holds a line (only a move can make a line, and
      a winning move is not followed by a turn change); and X has one mark
      more than O exactly when the player on move is the one X's last move
      handed over to (O while live, X once over). */
  predicate Consistent(b: Board, current: Player, live: bool)
  {
    && (live <==> !HasLine(b, X) && !HasLine(b, O) && !Full(b))
    && !HasLine(b, Other(current))
    && CountOf(b, Taken(X))
       == CountOf(b, Taken(O)) + (if current == (if live then O else X) then 1 else 0)
  }

  /** The start of every game is consistent. */
  lemma BlankConsistent()
    ensures Consistent(Blank, X, true)
  {
    BlankCounts();
    assert !Full(Blank) by { assert Blank[0] == Empty; }
  }

  /** Placing a mark never completes a line for the other player. */
  lemma PlaceOnlyHelpsMover(b: Board, pos: Pos, p: Player, q: Player)
    requires q != p && !HasLine(b, q)
    ensures !HasLine(b[pos := Taken(p)], q)
  {
    var b' := b[pos := Taken(p)];
    forall k | 0 <= k < |Lines|
      ensures !Completes(b', Lines[k], q)
    {
      assert Completes(b', Lines[k], q) ==> Completes(b, Lines[k], q);
    }
  }

  /** A move by the player on move into an empty cell of a live consistent
      position gives a consistent position: the game stays live (with the turn
      passed on) exactly when nobody has won and a cell is still free, and the
      other player can never be the winner. */
  lemma PlaceKeepsConsistent(b: Board, pos: Pos, p: Player)
    requires Consistent(b, p, true) && b[pos] == Empty
    ensures var b' := b[pos := Taken(p)];
            var live := Winner(b').None? && !Full(b');
            && Consistent(b', if live then Other(p) else p, live)
            && Winner(b') != Some(Other(p))
  {
    var b' := b[pos := Taken(p)];
    CountAfterWrite(b, pos, Taken(p), Taken(X));
    CountAfterWrite(b, pos, Taken(p), Taken(O));
    PlaceOnlyHelpsMover(b, pos, p, Other(p));
  }
}
