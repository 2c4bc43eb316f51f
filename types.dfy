/**
 * The value types of the rule engine: players, cells, sub-board statuses,
 * sub-boards and the whole game state (supersquare-frontend/src/engine/types.ts).
 */
module GameTypes {
  import opened Wrappers

  /** 'X' | 'O' */
  datatype Player = X | O

  /** A cell is empty (null in the source) or carries exactly one player's mark. */
  datatype CellValue = Empty | Mark(player: Player)

  /** 'ACTIVE' | 'WON_X' | 'WON_O' | 'DRAW' */
  datatype BoardStatus = Active | WonX | WonO | Draw

  /** A small board remembers its own position in the main board next to its 3x3 cells. */
  datatype SmallBoard = SmallBoard(row: int, col: int, cells: seq<seq<CellValue>>, status: BoardStatus)

  /** The `{ row, col }` of a required sub-board. */
  datatype Coord = Coord(row: int, col: int)

  /** The winner field: a player, 'DRAW', or null while the game goes on. */
  datatype Outcome = Undecided | Won(player: Player) | Drawn

  /**
   * activeBoard None is a free move; Some(c) obliges the mover to play in board c.
   * history is carried along unchanged by the engine.
   */
  datatype GameState = GameState(
    boards: seq<seq<SmallBoard>>,
    activePlayer: Player,
    activeBoard: Option<Coord>,
    winner: Outcome,
    history: seq<GameState>)

  /** X always moves first. */
  const InitialPlayer: Player := X

  function Other(p: Player): (q: Player)
    ensures q != p
  {
    if p == X then O else X
  }

  /** The mark a settled sub-board contributes to the global grid. */
  function WonStatus(p: Player): (s: BoardStatus)
    ensures s != Active && s != Draw
  {
    if p == X then WonX else WonO
  }

  /** A 3x3 grid of anything. */
  predicate IsGrid<T>(g: seq<seq<T>>)
  {
    |g| == 3 && forall i :: 0 <= i < 3 ==> |g[i]| == 3
  }

  /** A coordinate the engine accepts: 0, 1 or 2. */
  predicate InRange(n: int)
  {
    0 <= n <= 2
  }

  /** The shape the source's comments promise: 3x3 boards of 3x3 cells. */
  predicate WellFormed(s: GameState)
  {
    IsGrid(s.boards) &&
    forall i, j :: 0 <= i < 3 && 0 <= j < 3 ==> IsGrid(s.boards[i][j].cells)
  }
}
