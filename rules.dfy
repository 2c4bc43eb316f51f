/**
 * The rule engine of the game (supersquare-frontend/src/engine/rules.ts): the
 * initial state, line detection, move validation and the move transition.
 * The source deep-copies the boards and mutates the copy; since the caller's
 * state is never touched, the transition is a pure function here.
 */
module Rules {
  import opened Wrappers
  import opened GameTypes

  /** Three cells of a row, a column or a diagonal. */
  type Line = (CellValue, CellValue, CellValue)

  /** A 3x3 grid with every cell empty. */
  function EmptyGrid(): (g: seq<seq<CellValue>>)
    ensures IsGrid(g)
    ensures forall i, j :: 0 <= i < 3 && 0 <= j < 3 ==> g[i][j] == Empty
  {
    [[Empty, Empty, Empty], [Empty, Empty, Empty], [Empty, Empty, Empty]]
  }

  function InitialRow(r: int): seq<SmallBoard>
  {
    [SmallBoard(r, 0, EmptyGrid(), Active),
     SmallBoard(r, 1, EmptyGrid(), Active),
     SmallBoard(r, 2, EmptyGrid(), Active)]
  }

  /** getInitialState: nine empty ACTIVE boards, X to move anywhere, nobody has won. */
  function InitialState(): (s: GameState)
    ensures WellFormed(s)
    ensures forall i, j :: 0 <= i < 3 && 0 <= j < 3 ==>
      s.boards[i][j].row == i && s.boards[i][j].col == j && s.boards[i][j].status == Active
    ensures forall i, j, k, l :: 0 <= i < 3 && 0 <= j < 3 && 0 <= k < 3 && 0 <= l < 3 ==>
      s.boards[i][j].cells[k][l] == Empty
    ensures s.activePlayer == InitialPlayer && s.activeBoard == None
    ensures s.winner == Undecided && s.history == []
  {
    GameState([InitialRow(0), InitialRow(1), InitialRow(2)], InitialPlayer, None, Undecided, [])
  }

  /** checkLine: the common mark of three equal non-empty cells, otherwise Empty. */
  function CheckLine(a: CellValue, b: CellValue, c: CellValue): (r: CellValue)
    ensures r.Mark? <==> a.Mark? && a == b && a == c
    ensures r.Mark? ==> r == a
  {
    if a.Mark? && a == b && a == c then a else Empty
  }

  function LineWinner(l: Line): CellValue
  {
    CheckLine(l.0, l.1, l.2)
  }

  /** The eight lines of a grid, in the order check3x3Win visits them. */
  function Lines(g: seq<seq<CellValue>>): (ls: seq<Line>)
    requires IsGrid(g)
    ensures |ls| == 8
  {
    [(g[0][0], g[0][1], g[0][2]),
     (g[1][0], g[1][1], g[1][2]),
     (g[2][0], g[2][1], g[2][2]),
     (g[0][0], g[1][0], g[2][0]),
     (g[0][1], g[1][1], g[2][1]),
     (g[0][2], g[1][2], g[2][2]),
     (g[0][0], g[1][1], g[2][2]),
     (g[0][2], g[1][1], g[2][0])]
  }

  /** The winner of the first line at index k or later that has one. */
  function FirstFrom(ls: seq<Line>, k: nat): CellValue
    decreases |ls| - k
  {
    if k >= |ls| then Empty
    else if LineWinner(ls[k]).Mark? then LineWinner(ls[k])
    else FirstFrom(ls, k + 1)
  }

  /** What check3x3Win returns: the mark of the first complete line, or Empty. */
  function FirstLine(g: seq<seq<CellValue>>): CellValue
    requires IsGrid(g)
  {
    FirstFrom(Lines(g), 0)
  }

  /** Player p owns a full row, column or diagonal of g. */
  predicate HasLine(g: seq<seq<CellValue>>, p: Player)
    requires IsGrid(g)
  {
    exists k :: 0 <= k < 8 && Lines(g)[k] == (Mark(p), Mark(p), Mark(p))
  }

  lemma {:induction false} FirstFromSound(ls: seq<Line>, k: nat)
    ensures FirstFrom(ls, k).Mark? ==>
      exists j :: k <= j < |ls| && LineWinner(ls[j]) == FirstFrom(ls, k)
    ensures FirstFrom(ls, k) == Empty ==>
      forall j :: k <= j < |ls| ==> LineWinner(ls[j]) == Empty
    decreases |ls| - k
  {
    if k < |ls| && !LineWinner(ls[k]).Mark? {
      FirstFromSound(ls, k + 1);
    }
  }

  /** check3x3Win finds a line exactly when some player has one, and only a player who has one. */
  lemma FirstLineCorrect(g: seq<seq<CellValue>>)
    requires IsGrid(g)
    ensures FirstLine(g).Mark? ==> HasLine(g, FirstLine(g).player)
    ensures FirstLine(g) == Empty <==> !HasLine(g, X) && !HasLine(g, O)
  {
    var ls := Lines(g);
    FirstFromSound(ls, 0);
    if FirstLine(g).Mark? {
      var j :| 0 <= j < |ls| && LineWinner(ls[j]) == FirstLine(g);
      assert ls[j] == (FirstLine(g), FirstLine(g), FirstLine(g));
    }
    forall p | HasLine(g, p) ensures FirstLine(g).Mark? {
      var k :| 0 <= k < 8 && ls[k] == (Mark(p), Mark(p), Mark(p));
      assert LineWinner(ls[k]) == Mark(p);
    }
    if FirstLine(g) != Empty {
      assert HasLine(g, FirstLine(g).player);
      assert FirstLine(g).player == X || FirstLine(g).player == O;
    }
  }

  /** check3x3Win, with its loops over rows and columns and its early returns. */
  method Check3x3Win(cells: seq<seq<CellValue>>) returns (winner: CellValue)
    requires IsGrid(cells)
    ensures winner == FirstLine(cells)
  {
    for i := 0 to 3
      invariant FirstLine(cells) == FirstFrom(Lines(cells), i)
    {
      assert Lines(cells)[i] == (cells[i][0], cells[i][1], cells[i][2]);
      var w := CheckLine(cells[i][0], cells[i][1], cells[i][2]);
      if w.Mark? {
        return w;
      }
    }
    for i := 0 to 3
      invariant FirstLine(cells) == FirstFrom(Lines(cells), 3 + i)
    {
      assert Lines(cells)[3 + i] == (cells[0][i], cells[1][i], cells[2][i]);
      var w := CheckLine(cells[0][i], cells[1][i], cells[2][i]);
      if w.Mark? {
        return w;
      }
    }
    assert Lines(cells)[6] == (cells[0][0], cells[1][1], cells[2][2]);
    winner := CheckLine(cells[0][0], cells[1][1], cells[2][2]);
    if winner.Mark? {
      return;
    }
    assert Lines(cells)[7] == (cells[0][2], cells[1][1], cells[2][0]);
    winner := CheckLine(cells[0][2], cells[1][1], cells[2][0]);
    if winner.Mark? {
      return;
    }
    assert FirstFrom(Lines(cells), 8) == Empty;
    return Empty;
  }

  /** isGridFull: no cell is empty. */
  predicate IsGridFull(g: seq<seq<CellValue>>)
    requires IsGrid(g)
  {
    forall i, j :: 0 <= i < 3 && 0 <= j < 3 ==> g[i][j] != Empty
  }

  /**
   * isValidMove: no winner yet, all four coordinates in 0..2, the target board
   * ACTIVE, the target cell empty, and the target board the required one if any.
   */
  function IsValidMove(s: GameState, mainRow: int, mainCol: int, subRow: int, subCol: int): (ok: bool)
    requires WellFormed(s)
    ensures s.winner != Undecided ==> !ok
    ensures !(InRange(mainRow) && InRange(mainCol) && InRange(subRow) && InRange(subCol)) ==> !ok
    ensures ok ==> s.boards[mainRow][mainCol].status == Active
    ensures ok ==> s.boards[mainRow][mainCol].cells[subRow][subCol] == Empty
    ensures ok ==> s.activeBoard == None || s.activeBoard == Some(Coord(mainRow, mainCol))
    ensures ok <== s.winner == Undecided &&
      InRange(mainRow) && InRange(mainCol) && InRange(subRow) && InRange(subCol) &&
      s.boards[mainRow][mainCol].status == Active &&
      s.boards[mainRow][mainCol].cells[subRow][subCol] == Empty &&
      (s.activeBoard == None || s.activeBoard == Some(Coord(mainRow, mainCol)))
  {
    if s.winner != Undecided then false
    else if mainRow < 0 || mainRow > 2 || mainCol < 0 || mainCol > 2 then false
    else if subRow < 0 || subRow > 2 || subCol < 0 || subCol > 2 then false
    else if s.boards[mainRow][mainCol].status != Active then false
    else if s.boards[mainRow][mainCol].cells[subRow][subCol] != Empty then false
    else if s.activeBoard.Some? &&
      (s.activeBoard.value.row != mainRow || s.activeBoard.value.col != mainCol) then false
    else true
  }

  /**
   * The status a board gets after a mark lands in it: won by the line's owner,
   * otherwise DRAW when full, otherwise what it was.
   */
  function SettledStatus(cells: seq<seq<CellValue>>, before: BoardStatus): (st: BoardStatus)
    requires IsGrid(cells)
    ensures HasLine(cells, X) || HasLine(cells, O) ==> st == WonX || st == WonO
    ensures st == WonX && before != WonX ==> HasLine(cells, X)
    ensures st == WonO && before != WonO ==> HasLine(cells, O)
    ensures !HasLine(cells, X) && !HasLine(cells, O) ==> st == if IsGridFull(cells) then Draw else before
  {
    FirstLineCorrect(cells);
    var w := FirstLine(cells);
    if w.Mark? then WonStatus(w.player)
    else if IsGridFull(cells) then Draw
    else before
  }

  /** The global grid's view of a board: X or O when won, otherwise empty. */
  function StatusMark(st: BoardStatus): CellValue
  {
    match st
    case WonX => Mark(X)
    case WonO => Mark(O)
    case _ => Empty
  }

  function StatusGrid(boards: seq<seq<SmallBoard>>): (g: seq<seq<CellValue>>)
    requires IsGrid(boards)
    ensures IsGrid(g)
    ensures forall i, j :: 0 <= i < 3 && 0 <= j < 3 ==> g[i][j] == StatusMark(boards[i][j].status)
  {
    [[StatusMark(boards[0][0].status), StatusMark(boards[0][1].status), StatusMark(boards[0][2].status)],
     [StatusMark(boards[1][0].status), StatusMark(boards[1][1].status), StatusMark(boards[1][2].status)],
     [StatusMark(boards[2][0].status), StatusMark(boards[2][1].status), StatusMark(boards[2][2].status)]]
  }

  /** Every board is won or drawn. */
  predicate AllSettled(boards: seq<seq<SmallBoard>>)
    requires IsGrid(boards)
  {
    forall i, j :: 0 <= i < 3 && 0 <= j < 3 ==> boards[i][j].status != Active
  }

  /** The global result makeMove computes from the boards' statuses. */
  function GlobalOutcome(boards: seq<seq<SmallBoard>>): (o: Outcome)
    requires IsGrid(boards)
    ensures o.Won? ==> HasLine(StatusGrid(boards), o.player)
    ensures HasLine(StatusGrid(boards), X) || HasLine(StatusGrid(boards), O) ==> o.Won?
    ensures o == Drawn <==>
      !HasLine(StatusGrid(boards), X) && !HasLine(StatusGrid(boards), O) && AllSettled(boards)
  {
    FirstLineCorrect(StatusGrid(boards));
    var w := FirstLine(StatusGrid(boards));
    if w.Mark? then Won(w.player)
    else if AllSettled(boards) then Drawn
    else Undecided
  }

  /** The boards after p's mark lands at [mainRow][mainCol][subRow][subCol] and that board is re-scored. */
  function PlaceMark(boards: seq<seq<SmallBoard>>, mainRow: int, mainCol: int, subRow: int, subCol: int, p: Player)
    : seq<seq<SmallBoard>>
    requires IsGrid(boards) && InRange(mainRow) && InRange(mainCol) && InRange(subRow) && InRange(subCol)
    requires IsGrid(boards[mainRow][mainCol].cells)
  {
    var b := boards[mainRow][mainCol];
    var cells := b.cells[subRow := b.cells[subRow][subCol := Mark(p)]];
    boards[mainRow := boards[mainRow][mainCol := b.(cells := cells, status := SettledStatus(cells, b.status))]]
  }

  /**
   * makeMove: None for an invalid move (the source throws "Invalid move").
   * Otherwise exactly one cell changes, to the mover's mark, and the turn
   * passes to the other player.
   */
  function MakeMove(s: GameState, mainRow: int, mainCol: int, subRow: int, subCol: int): (r: Option<GameState>)
    requires WellFormed(s)
    ensures r.Some? <==> IsValidMove(s, mainRow, mainCol, subRow, subCol)
    ensures r.Some? ==> WellFormed(r.value)
    ensures r.Some? ==> forall i, j, k, l :: 0 <= i < 3 && 0 <= j < 3 && 0 <= k < 3 && 0 <= l < 3 ==>
      r.value.boards[i][j].cells[k][l] ==
        if i == mainRow && j == mainCol && k == subRow && l == subCol then Mark(s.activePlayer)
        else s.boards[i][j].cells[k][l]
    ensures r.Some? ==> r.value.activePlayer == Other(s.activePlayer)
    ensures r.Some? ==> r.value.history == s.history
  {
    if !IsValidMove(s, mainRow, mainCol, subRow, subCol) then None
    else
      var boards := PlaceMark(s.boards, mainRow, mainCol, subRow, subCol, s.activePlayer);
      var outcome := GlobalOutcome(boards);
      var next := if boards[subRow][subCol].status != Active || outcome != Undecided then None
                  else Some(Coord(subRow, subCol));
      Some(GameState(boards, Other(s.activePlayer), next, outcome, s.history))
  }

  /**
   * What a valid move does besides placing the mark: only the played board's
   * status can change, and it is re-scored from its cells; the winner is
   * re-derived from all boards; the next required board is the one named by
   * (subRow, subCol) unless it is settled or the game is over.
   */
  lemma MakeMoveEffects(s: GameState, mainRow: int, mainCol: int, subRow: int, subCol: int)
    requires WellFormed(s) && IsValidMove(s, mainRow, mainCol, subRow, subCol)
    ensures var t := MakeMove(s, mainRow, mainCol, subRow, subCol).value;
      && (forall i, j :: 0 <= i < 3 && 0 <= j < 3 ==>
           t.boards[i][j].row == s.boards[i][j].row && t.boards[i][j].col == s.boards[i][j].col)
      && (forall i, j :: 0 <= i < 3 && 0 <= j < 3 && !(i == mainRow && j == mainCol) ==>
           t.boards[i][j] == s.boards[i][j])
      && t.boards[mainRow][mainCol].status == SettledStatus(t.boards[mainRow][mainCol].cells, Active)
      && t.winner == GlobalOutcome(t.boards)
      && t.activeBoard == (if t.boards[subRow][subCol].status == Active && t.winner == Undecided
                           then Some(Coord(subRow, subCol)) else None)
  {
  }
}
