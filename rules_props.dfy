/**
 * Properties of the rule engine over whole games: the invariant every state
 * reachable from getInitialState keeps, the mark counts behind strict turn
 * alternation, that an unfinished game always has a legal move, and that a
 * game lasts at most 81 moves.
 */
module RuleProperties {
  import opened Wrappers
  import opened GameTypes
  import opened Rules

  /** The status a board's cells call for: a line wins it, a full grid draws it. */
  function DerivedStatus(cells: seq<seq<CellValue>>): BoardStatus
    requires IsGrid(cells)
  {
    SettledStatus(cells, Active)
  }

  /** The counting indicator. */
  function Ind(b: bool): nat
  {
    if b then 1 else 0
  }

  function CountRow(r: seq<CellValue>, v: CellValue): nat
    requires |r| == 3
  {
    Ind(r[0] == v) + Ind(r[1] == v) + Ind(r[2] == v)
  }

  function CountGrid(g: seq<seq<CellValue>>, v: CellValue): nat
    requires IsGrid(g)
  {
    CountRow(g[0], v) + CountRow(g[1], v) + CountRow(g[2], v)
  }

  function CountBoardRow(bs: seq<SmallBoard>, v: CellValue): nat
    requires |bs| == 3 && forall j :: 0 <= j < 3 ==> IsGrid(bs[j].cells)
  {
    CountGrid(bs[0].cells, v) + CountGrid(bs[1].cells, v) + CountGrid(bs[2].cells, v)
  }

  /** Every board of a 3x3 board grid is itself a 3x3 grid. */
  predicate BoardsShaped(boards: seq<seq<SmallBoard>>)
  {
    IsGrid(boards) && forall i, j :: 0 <= i < 3 && 0 <= j < 3 ==> IsGrid(boards[i][j].cells)
  }

  function CountBoards(boards: seq<seq<SmallBoard>>, v: CellValue): nat
    requires BoardsShaped(boards)
  {
    CountBoardRow(boards[0], v) + CountBoardRow(boards[1], v) + CountBoardRow(boards[2], v)
  }

  /** How many of the 81 cells hold v. */
  function Count(s: GameState, v: CellValue): nat
    requires WellFormed(s)
  {
    CountBoards(s.boards, v)
  }

  /** How many marks have been placed. */
  function Filled(s: GameState): nat
    requires WellFormed(s)
  {
    Count(s, Mark(X)) + Count(s, Mark(O))
  }

  /**
   * The invariant of every state the engine produces: the shape, each board's
   * own position, each board's status derived from its cells, the winner
   * derived from the boards, a required board only while the game goes on and
   * only an ACTIVE one, and X having placed as many marks as O when X is to
   * move and one more when O is to move.
   */
  predicate Consistent(s: GameState)
  {
    && WellFormed(s)
    && (forall i, j :: 0 <= i < 3 && 0 <= j < 3 ==>
         s.boards[i][j].row == i && s.boards[i][j].col == j &&
         s.boards[i][j].status == DerivedStatus(s.boards[i][j].cells))
    && s.winner == GlobalOutcome(s.boards)
    && (s.activeBoard.Some? ==>
         s.winner == Undecided && InRange(s.activeBoard.value.row) && InRange(s.activeBoard.value.col) &&
         s.boards[s.activeBoard.value.row][s.activeBoard.value.col].status == Active)
    && (if s.activePlayer == X then Count(s, Mark(X)) == Count(s, Mark(O))
        else Count(s, Mark(X)) == Count(s, Mark(O)) + 1)
  }

  /** g and h agree everywhere except possibly at (a, b). */
  predicate AgreeExcept(g: seq<seq<CellValue>>, h: seq<seq<CellValue>>, a: int, b: int)
    requires IsGrid(g) && IsGrid(h)
  {
    forall i, j :: 0 <= i < 3 && 0 <= j < 3 && !(i == a && j == b) ==> g[i][j] == h[i][j]
  }

  /** Changing one cell to something other than q's mark cannot give q a new line. */
  lemma LineSurvivesChange(g: seq<seq<CellValue>>, h: seq<seq<CellValue>>, a: int, b: int, q: Player)
    requires IsGrid(g) && IsGrid(h) && InRange(a) && InRange(b)
    requires AgreeExcept(g, h, a, b) && h[a][b] != Mark(q)
    requires HasLine(h, q)
    ensures HasLine(g, q)
  {
    var k :| 0 <= k < 8 && Lines(h)[k] == (Mark(q), Mark(q), Mark(q));
    assert Lines(g)[k] == Lines(h)[k];
  }

  lemma {:induction false} EmptyGridHasNoLine()
    ensures FirstLine(EmptyGrid()) == Empty
    ensures DerivedStatus(EmptyGrid()) == Active
  {
    var g := EmptyGrid();
    assert !IsGridFull(g) by { assert g[0][0] == Empty; }
    assert FirstFrom(Lines(g), 8) == Empty;
  }

  lemma CountEmptyGrid(v: CellValue)
    ensures CountGrid(EmptyGrid(), v) == (if v == Empty then 9 else 0)
  {
  }

  /** getInitialState satisfies the invariant and no mark has been placed yet. */
  lemma InitialConsistent()
    ensures Consistent(InitialState())
    ensures Filled(InitialState()) == 0
  {
    var s := InitialState();
    EmptyGridHasNoLine();
    CountEmptyGrid(Mark(X));
    CountEmptyGrid(Mark(O));
    var sg := StatusGrid(s.boards);
    assert sg == EmptyGrid();
    assert !AllSettled(s.boards) by { assert s.boards[0][0].status == Active; }
  }

  lemma CountRowUpdate(r: seq<CellValue>, k: int, w: CellValue, v: CellValue)
    requires |r| == 3 && InRange(k)
    ensures CountRow(r[k := w], v) == CountRow(r, v) - Ind(r[k] == v) + Ind(w == v)
  {
  }

  lemma CountGridUpdate(g: seq<seq<CellValue>>, k: int, l: int, w: CellValue, v: CellValue)
    requires IsGrid(g) && InRange(k) && InRange(l)
    ensures IsGrid(g[k := g[k][l := w]])
    ensures CountGrid(g[k := g[k][l := w]], v) == CountGrid(g, v) - Ind(g[k][l] == v) + Ind(w == v)
  {
    CountRowUpdate(g[k], l, w, v);
    var h := g[k := g[k][l := w]];
    assert forall i :: 0 <= i < 3 && i != k ==> h[i] == g[i];
  }

  lemma CountBoardRowUpdate(bs: seq<SmallBoard>, j: int, nb: SmallBoard, v: CellValue)
    requires |bs| == 3 && (forall i :: 0 <= i < 3 ==> IsGrid(bs[i].cells)) && InRange(j)
    requires IsGrid(nb.cells)
    ensures CountBoardRow(bs[j := nb], v) == CountBoardRow(bs, v) - CountGrid(bs[j].cells, v) + CountGrid(nb.cells, v)
  {
  }

  lemma CountBoardsUpdate(boards: seq<seq<SmallBoard>>, i: int, j: int, nb: SmallBoard, v: CellValue)
    requires BoardsShaped(boards) && InRange(i) && InRange(j) && IsGrid(nb.cells)
    ensures BoardsShaped(boards[i := boards[i][j := nb]])
    ensures CountBoards(boards[i := boards[i][j := nb]], v) ==
      CountBoards(boards, v) - CountGrid(boards[i][j].cells, v) + CountGrid(nb.cells, v)
  {
    var row := boards[i][j := nb];
    assert forall k :: 0 <= k < 3 ==> IsGrid(row[k].cells);
    CountBoardRowUpdate(boards[i], j, nb, v);
    var t := boards[i := row];
    if i == 0 {
      assert t == [row, boards[1], boards[2]];
    } else if i == 1 {
      assert t == [boards[0], row, boards[2]];
    } else {
      assert t == [boards[0], boards[1], row];
    }
  }

  lemma PlaceMarkCounts(boards: seq<seq<SmallBoard>>, mainRow: int, mainCol: int, subRow: int, subCol: int,
                        p: Player, v: CellValue)
    requires BoardsShaped(boards) && InRange(mainRow) && InRange(mainCol) && InRange(subRow) && InRange(subCol)
    ensures BoardsShaped(PlaceMark(boards, mainRow, mainCol, subRow, subCol, p))
    ensures CountBoards(PlaceMark(boards, mainRow, mainCol, subRow, subCol, p), v) ==
      CountBoards(boards, v) - Ind(boards[mainRow][mainCol].cells[subRow][subCol] == v) + Ind(Mark(p) == v)
  {
    var b := boards[mainRow][mainCol];
    var cells := b.cells[subRow := b.cells[subRow][subCol := Mark(p)]];
    var nb := b.(cells := cells, status := SettledStatus(cells, b.status));
    CountGridUpdate(b.cells, subRow, subCol, Mark(p), v);
    CountBoardsUpdate(boards, mainRow, mainCol, nb, v);
  }

  /** A valid move adds one mark of the mover and removes one empty cell. */
  lemma MoveCounts(s: GameState, mainRow: int, mainCol: int, subRow: int, subCol: int, v: CellValue)
    requires WellFormed(s) && IsValidMove(s, mainRow, mainCol, subRow, subCol)
    ensures var t := MakeMove(s, mainRow, mainCol, subRow, subCol).value;
      Count(t, v) == Count(s, v) - Ind(v == Empty) + Ind(v == Mark(s.activePlayer))
  {
    PlaceMarkCounts(s.boards, mainRow, mainCol, subRow, subCol, s.activePlayer, v);
  }

  /** Each cell of a grid is empty, an X or an O, so the three counts of a grid add up to 9. */
  lemma CellKinds(g: seq<seq<CellValue>>)
    requires IsGrid(g)
    ensures CountGrid(g, Mark(X)) + CountGrid(g, Mark(O)) + CountGrid(g, Empty) == 9
  {
    forall k, l | 0 <= k < 3 && 0 <= l < 3
      ensures Ind(g[k][l] == Mark(X)) + Ind(g[k][l] == Mark(O)) + Ind(g[k][l] == Empty) == 1
    {
      match g[k][l]
      case Empty =>
      case Mark(p) => assert p == X || p == O;
    }
  }

  /** isGridFull agrees with counting: a grid is full exactly when none of its nine cells is empty. */
  lemma FullGridCount(g: seq<seq<CellValue>>)
    requires IsGrid(g)
    ensures IsGridFull(g) <==> CountGrid(g, Empty) == 0
    ensures IsGridFull(g) ==> CountGrid(g, Mark(X)) + CountGrid(g, Mark(O)) == 9
  {
    if CountGrid(g, Empty) == 0 {
      forall i, j | 0 <= i < 3 && 0 <= j < 3 ensures g[i][j] != Empty {
        assert CountRow(g[i], Empty) == 0;
      }
    }
    CellKinds(g);
  }

  lemma CountTotal(s: GameState)
    requires WellFormed(s)
    ensures Count(s, Mark(X)) + Count(s, Mark(O)) + Count(s, Empty) == 81
  {
    forall i, j | 0 <= i < 3 && 0 <= j < 3
      ensures CountGrid(s.boards[i][j].cells, Mark(X)) + CountGrid(s.boards[i][j].cells, Mark(O)) +
              CountGrid(s.boards[i][j].cells, Empty) == 9
    {
      CellKinds(s.boards[i][j].cells);
    }
  }

  /** A mark placed into a grid without a line can give a line to the one who placed it and nobody else. */
  lemma MarkGivesOnlyMoverALine(g: seq<seq<CellValue>>, h: seq<seq<CellValue>>, a: int, b: int, p: Player)
    requires IsGrid(g) && IsGrid(h) && InRange(a) && InRange(b)
    requires AgreeExcept(g, h, a, b) && h[a][b] != Mark(Other(p))
    requires FirstLine(g) == Empty
    ensures !HasLine(h, Other(p))
    ensures FirstLine(h) == Empty || FirstLine(h) == Mark(p)
    ensures FirstLine(h) == Mark(p) <==> HasLine(h, p)
  {
    FirstLineCorrect(g);
    FirstLineCorrect(h);
    if HasLine(h, Other(p)) {
      LineSurvivesChange(g, h, a, b, Other(p));
    }
    if FirstLine(h).Mark? {
      assert FirstLine(h).player == p || FirstLine(h).player == Other(p);
    }
  }

  /** The four ways a board touched only by p can end up, read off its cells. */
  lemma SettledStatusCases(cells: seq<seq<CellValue>>, p: Player)
    requires IsGrid(cells)
    requires FirstLine(cells) == Empty || FirstLine(cells) == Mark(p)
    requires FirstLine(cells) == Mark(p) <==> HasLine(cells, p)
    ensures var st := SettledStatus(cells, Active);
      && (st == WonStatus(p) <==> HasLine(cells, p))
      && st != WonStatus(Other(p))
      && (st == Draw <==> !HasLine(cells, p) && IsGridFull(cells))
      && (st == Active <==> !HasLine(cells, p) && !IsGridFull(cells))
  {
  }

  /**
   * Only the played board's status can change: it is WON by the mover exactly
   * when its cells now hold a line of the mover's mark, never won by the
   * opponent, otherwise DRAW when full and ACTIVE when not.
   */
  lemma PlayedBoardStatus(s: GameState, mainRow: int, mainCol: int, subRow: int, subCol: int)
    requires Consistent(s) && IsValidMove(s, mainRow, mainCol, subRow, subCol)
    ensures var b := MakeMove(s, mainRow, mainCol, subRow, subCol).value.boards[mainRow][mainCol];
      && (b.status == WonStatus(s.activePlayer) <==> HasLine(b.cells, s.activePlayer))
      && b.status != WonStatus(Other(s.activePlayer))
      && (b.status == Draw <==> !HasLine(b.cells, s.activePlayer) && IsGridFull(b.cells))
      && (b.status == Active <==> !HasLine(b.cells, s.activePlayer) && !IsGridFull(b.cells))
  {
    var p := s.activePlayer;
    var t := MakeMove(s, mainRow, mainCol, subRow, subCol).value;
    MakeMoveEffects(s, mainRow, mainCol, subRow, subCol);
    var before := s.boards[mainRow][mainCol].cells;
    var after := t.boards[mainRow][mainCol].cells;
    assert FirstLine(before) == Empty by {
      assert s.boards[mainRow][mainCol].status == SettledStatus(before, Active);
    }
    assert AgreeExcept(before, after, subRow, subCol);
    assert after[subRow][subCol] == Mark(p);
    MarkGivesOnlyMoverALine(before, after, subRow, subCol, p);
    SettledStatusCases(after, p);
  }

  /**
   * When one board of a grid without a line of wins changes to anything but a
   * win of p's opponent, the global result can only be p's win, a draw or
   * undecided, as the new status grid says.
   */
  lemma OutcomeAfterMark(bs: seq<seq<SmallBoard>>, bt: seq<seq<SmallBoard>>, a: int, b: int, p: Player)
    requires IsGrid(bs) && IsGrid(bt) && InRange(a) && InRange(b)
    requires forall i, j :: 0 <= i < 3 && 0 <= j < 3 && !(i == a && j == b) ==> bt[i][j] == bs[i][j]
    requires FirstLine(StatusGrid(bs)) == Empty && bt[a][b].status != WonStatus(Other(p))
    ensures var w := GlobalOutcome(bt);
      && (w.Won? ==> w.player == p)
      && (w == Won(p) <==> HasLine(StatusGrid(bt), p))
      && (w == Drawn <==> !HasLine(StatusGrid(bt), p) && AllSettled(bt))
  {
    var g := StatusGrid(bs);
    var h := StatusGrid(bt);
    assert AgreeExcept(g, h, a, b);
    MarkGivesOnlyMoverALine(g, h, a, b, p);
  }

  /**
   * The global winner after a move: only the mover can win; they win exactly
   * when the status grid has a line of their wins, and the game is drawn
   * exactly when it has none and every board is settled.
   */
  lemma MoveOutcome(s: GameState, mainRow: int, mainCol: int, subRow: int, subCol: int)
    requires Consistent(s) && IsValidMove(s, mainRow, mainCol, subRow, subCol)
    ensures var t := MakeMove(s, mainRow, mainCol, subRow, subCol).value;
      && (t.winner.Won? ==> t.winner.player == s.activePlayer)
      && (t.winner == Won(s.activePlayer) <==> HasLine(StatusGrid(t.boards), s.activePlayer))
      && (t.winner == Drawn <==> !HasLine(StatusGrid(t.boards), s.activePlayer) && AllSettled(t.boards))
  {
    var t := MakeMove(s, mainRow, mainCol, subRow, subCol).value;
    MakeMoveEffects(s, mainRow, mainCol, subRow, subCol);
    PlayedBoardStatus(s, mainRow, mainCol, subRow, subCol);
    assert FirstLine(StatusGrid(s.boards)) == Empty;
    OutcomeAfterMark(s.boards, t.boards, mainRow, mainCol, s.activePlayer);
  }

  lemma MovePreservesConsistency(s: GameState, mainRow: int, mainCol: int, subRow: int, subCol: int)
    requires Consistent(s) && IsValidMove(s, mainRow, mainCol, subRow, subCol)
    ensures var t := MakeMove(s, mainRow, mainCol, subRow, subCol).value;
      Consistent(t) && Filled(t) == Filled(s) + 1
  {
    var t := MakeMove(s, mainRow, mainCol, subRow, subCol).value;
    MakeMoveEffects(s, mainRow, mainCol, subRow, subCol);
    MoveCounts(s, mainRow, mainCol, subRow, subCol, Mark(X));
    MoveCounts(s, mainRow, mainCol, subRow, subCol, Mark(O));
    forall i, j | 0 <= i < 3 && 0 <= j < 3
      ensures t.boards[i][j].status == DerivedStatus(t.boards[i][j].cells)
    {
      if i != mainRow || j != mainCol {
        assert t.boards[i][j] == s.boards[i][j];
      }
    }
  }

  /** An ACTIVE board in a consistent state has an empty cell. */
  lemma ActiveBoardHasEmptyCell(s: GameState, i: int, j: int) returns (k: int, l: int)
    requires Consistent(s) && InRange(i) && InRange(j) && s.boards[i][j].status == Active
    ensures InRange(k) && InRange(l) && s.boards[i][j].cells[k][l] == Empty
  {
    assert !IsGridFull(s.boards[i][j].cells);
    k, l :| 0 <= k < 3 && 0 <= l < 3 && s.boards[i][j].cells[k][l] == Empty;
  }

  /** A consistent game that nobody has won or drawn always offers its mover a legal move. */
  lemma UnfinishedGameHasMove(s: GameState) returns (mainRow: int, mainCol: int, subRow: int, subCol: int)
    requires Consistent(s) && s.winner == Undecided
    ensures IsValidMove(s, mainRow, mainCol, subRow, subCol)
  {
    if s.activeBoard.Some? {
      mainRow, mainCol := s.activeBoard.value.row, s.activeBoard.value.col;
    } else {
      assert !AllSettled(s.boards);
      mainRow, mainCol :| 0 <= mainRow < 3 && 0 <= mainCol < 3 && s.boards[mainRow][mainCol].status == Active;
    }
    subRow, subCol := ActiveBoardHasEmptyCell(s, mainRow, mainCol);
  }

  /** One move request: the board, then the cell inside it. */
  datatype Move = Move(mainRow: int, mainCol: int, subRow: int, subCol: int)

  /** Apply moves in order; None as soon as one is rejected. */
  function Play(s: GameState, moves: seq<Move>): (r: Option<GameState>)
    requires WellFormed(s)
    ensures r.Some? ==> WellFormed(r.value)
    decreases |moves|
  {
    if moves == [] then Some(s)
    else
      var m := moves[0];
      match MakeMove(s, m.mainRow, m.mainCol, m.subRow, m.subCol)
      case None => None
      case Some(t) => Play(t, moves[1..])
  }

  /** The player to move after n more moves, starting from p. */
  function Turn(p: Player, n: nat): Player
    decreases n
  {
    if n == 0 then p else Turn(Other(p), n - 1)
  }

  lemma {:induction false} TurnParity(p: Player, n: nat)
    ensures Turn(p, n) == if n % 2 == 0 then p else Other(p)
    decreases n
  {
    if n > 0 {
      TurnParity(Other(p), n - 1);
      assert Other(Other(p)) == p;
    }
  }

  /**
   * Over whole games: after an accepted sequence of n moves the invariant still
   * holds and exactly n more marks are on the board.
   */
  lemma {:induction false} PlayKeepsInvariant(s: GameState, moves: seq<Move>)
    requires Consistent(s) && Play(s, moves).Some?
    ensures var t := Play(s, moves).value;
      Consistent(t) && Filled(t) == Filled(s) + |moves|
    decreases |moves|
  {
    if moves != [] {
      var t := PlayStep(s, moves);
      MovePreservesConsistency(s, moves[0].mainRow, moves[0].mainCol, moves[0].subRow, moves[0].subCol);
      PlayKeepsInvariant(t, moves[1..]);
    }
  }

  /** Turn alternation over whole games: after an accepted sequence of n moves the turn has passed n times. */
  lemma {:induction false} PlayTurns(s: GameState, moves: seq<Move>)
    requires WellFormed(s) && Play(s, moves).Some?
    ensures Play(s, moves).value.activePlayer == Turn(s.activePlayer, |moves|)
    decreases |moves|
  {
    if moves != [] {
      var t := PlayStep(s, moves);
      PlayTurns(t, moves[1..]);
    }
  }

  /** One step of an accepted sequence: its first move is valid and hands the turn over. */
  lemma PlayStep(s: GameState, moves: seq<Move>) returns (t: GameState)
    requires WellFormed(s) && moves != [] && Play(s, moves).Some?
    ensures IsValidMove(s, moves[0].mainRow, moves[0].mainCol, moves[0].subRow, moves[0].subCol)
    ensures MakeMove(s, moves[0].mainRow, moves[0].mainCol, moves[0].subRow, moves[0].subCol) == Some(t)
    ensures WellFormed(t) && t.activePlayer == Other(s.activePlayer)
    ensures Play(t, moves[1..]) == Play(s, moves)
    ensures Turn(t.activePlayer, |moves[1..]|) == Turn(s.activePlayer, |moves|)
  {
    var m := moves[0];
    t := MakeMove(s, m.mainRow, m.mainCol, m.subRow, m.subCol).value;
  }

  /** Strict alternation from the first move: X moves after an even number of moves, O after an odd one. */
  lemma PlayAlternates(moves: seq<Move>)
    requires Play(InitialState(), moves).Some?
    ensures Play(InitialState(), moves).value.activePlayer == if |moves| % 2 == 0 then X else O
  {
    PlayTurns(InitialState(), moves);
    TurnParity(X, |moves|);
  }

  /** No game accepts more than 81 moves. */
  lemma GameLength(moves: seq<Move>)
    requires Play(InitialState(), moves).Some?
    ensures |moves| <= 81
  {
    InitialConsistent();
    PlayKeepsInvariant(InitialState(), moves);
    CountTotal(Play(InitialState(), moves).value);
  }

  /** Once the game has a winner or is drawn, every further move is rejected. */
  lemma NoMoveAfterGameOver(s: GameState, moves: seq<Move>, m: Move)
    requires WellFormed(s) && Play(s, moves).Some? && Play(s, moves).value.winner != Undecided
    ensures MakeMove(Play(s, moves).value, m.mainRow, m.mainCol, m.subRow, m.subCol) == None
  {
  }
}
