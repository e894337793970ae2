/** The tick-driven grid game: a square board of cells, one controlled
    player, obstacles that fall one row every tenth tick, and collision
    detection. Every operation is a pure function from one game state to
    the next; the randomness of a fresh top row arrives as the list of
    draws the program would have taken. */
module Grid {

  /** The four cell kinds BLANK, OBSTACLE, PLAYER and CRASH. */
  datatype Cell = Blank | Obstacle | Player | Crash

  /** The numeric `value` each cell kind carries (0 to 3). */
  function CellValue(c: Cell): (v: int)
    ensures 0 <= v <= 3
    ensures v == 0 <==> c == Blank
    ensures v == 1 <==> c == Obstacle
    ensures v == 2 <==> c == Player
  {
    match c
    case Blank => 0
    case Obstacle => 1
    case Player => 2
    case Crash => 3
  }

  /** The cells that mark where the player is: alive or crashed. */
  predicate Marker(c: Cell) {
    c == Player || c == Crash
  }

  type Board = seq<seq<Cell>>

  datatype Pos = Pos(row: int, col: int)

  /** A move request; the engine adds both deltas to the player position. */
  datatype Action = Action(rowDelta: int, colDelta: int)

  /** `b` has `rows` rows of `cols` cells each. */
  predicate Shaped(b: Board, rows: nat, cols: nat) {
    |b| == rows && forall r :: 0 <= r < |b| ==> |b[r]| == cols
  }

  predicate InBounds(p: Pos, rows: int, cols: int) {
    0 <= p.row < rows && 0 <= p.col < cols
  }

  /** `p` names a cell of `b`. */
  predicate OnBoard(b: Board, p: Pos) {
    0 <= p.row < |b| && 0 <= p.col < |b[p.row]|
  }

  /** `b` with the cell at `p` replaced by `v`. */
  function Write(b: Board, p: Pos, v: Cell): (r: Board)
    requires OnBoard(b, p)
    ensures |r| == |b|
    ensures forall i :: 0 <= i < |b| ==> |r[i]| == |b[i]|
    ensures r[p.row][p.col] == v
    ensures forall i, j :: 0 <= i < |b| && 0 <= j < |b[i]| && (i != p.row || j != p.col) ==> r[i][j] == b[i][j]
  {
    b[p.row := b[p.row][p.col := v]]
  }

  /** The engine state: the `rows`/`cols` props, the live board, the player
      position, the score, the tick counter and the `gameIsOver` flag. */
  datatype Game = Game(rows: nat, cols: nat, board: Board, pos: Pos, score: nat, ticks: nat, over: bool)

  /** The board matches the dimensions the engine checks bounds against and
      the player stands on it. */
  predicate WellPlaced(g: Game) {
    Shaped(g.board, g.rows, g.cols) && InBounds(g.pos, g.rows, g.cols)
  }

  /** The constructor: `cols` rows of `rows` BLANK cells each (the program
      swaps the two props here), with the player at the bottom row and the
      middle column, rounded down. */
  function NewGame(rows: nat, cols: nat): (g: Game)
    requires rows >= 1 && cols >= 1
    ensures g.rows == rows && g.cols == cols
    ensures Shaped(g.board, cols, rows)
    ensures g.pos == Pos(cols - 1, rows / 2)
    ensures forall r, c :: 0 <= r < cols && 0 <= c < rows ==>
      g.board[r][c] == (if r == cols - 1 && c == rows / 2 then Player else Blank)
    ensures g.score == 0 && g.ticks == 0 && !g.over
  {
    var blank := seq(cols, _ => seq(rows, _ => Blank));
    var spawn := Pos(|blank| - 1, |blank[0]| / 2);
    Game(rows, cols, Write(blank, spawn, Player), spawn, 0, 0, false)
  }

  /** The constructor as evidently intended: `rows` rows of `cols` BLANK
      cells, with the player at the bottom row and the middle column. On a
      square board it builds the same game as `NewGame`. */
  function NewGameIntended(rows: nat, cols: nat): (g: Game)
    requires rows >= 1 && cols >= 1
    ensures g.rows == rows && g.cols == cols && WellPlaced(g)
    ensures g.pos == Pos(rows - 1, cols / 2)
    ensures forall r, c :: 0 <= r < rows && 0 <= c < cols ==>
      g.board[r][c] == (if r == rows - 1 && c == cols / 2 then Player else Blank)
    ensures g.score == 0 && g.ticks == 0 && !g.over
  {
    var blank := seq(rows, _ => seq(cols, _ => Blank));
    var spawn := Pos(|blank| - 1, |blank[0]| / 2);
    Game(rows, cols, Write(blank, spawn, Player), spawn, 0, 0, false)
  }

  /** The board after a collision check, and whether the player survived. */
  datatype Status = Status(board: Board, alive: bool)

  /** `checkGameStatus(prev)`: the player survives unless its current cell
      holds an obstacle; the previous cell is cleared and the current one
      becomes PLAYER, or CRASH on a collision. */
  function CheckGameStatus(b: Board, pos: Pos, prev: Pos): (s: Status)
    requires OnBoard(b, pos) && OnBoard(b, prev)
    ensures s.alive <==> b[pos.row][pos.col] != Obstacle
    ensures |s.board| == |b| && forall i :: 0 <= i < |b| ==> |s.board[i]| == |b[i]|
    ensures s.board[pos.row][pos.col] == (if s.alive then Player else Crash)
    ensures prev != pos ==> s.board[prev.row][prev.col] == Blank
    ensures forall i, j :: 0 <= i < |b| && 0 <= j < |b[i]| && Pos(i, j) != pos && Pos(i, j) != prev ==>
      s.board[i][j] == b[i][j]
  {
    var cleared := Write(b, prev, Blank);
    if b[pos.row][pos.col] == Obstacle then
      Status(Write(cleared, pos, Crash), false)
    else
      Status(Write(cleared, pos, Player), true)
  }

  /** `movePlayer(direction)`: move by both deltas when the target lies
      inside the rows x cols bounds, otherwise stay; then check for a
      collision. The score is untouched. */
  function MovePlayer(g: Game, a: Action): (g': Game)
    requires WellPlaced(g)
    ensures var target := Pos(g.pos.row + a.rowDelta, g.pos.col + a.colDelta);
      g'.pos == if InBounds(target, g.rows, g.cols) then target else g.pos
    ensures WellPlaced(g')
    ensures g'.rows == g.rows && g'.cols == g.cols && g'.score == g.score && g'.ticks == g.ticks
    ensures g'.over <==> g.board[g'.pos.row][g'.pos.col] == Obstacle
    ensures g'.board[g'.pos.row][g'.pos.col] == (if g'.over then Crash else Player)
    ensures g'.pos != g.pos ==> g'.board[g.pos.row][g.pos.col] == Blank
    ensures forall i, j :: 0 <= i < g.rows && 0 <= j < g.cols && Pos(i, j) != g.pos && Pos(i, j) != g'.pos ==>
      g'.board[i][j] == g.board[i][j]
  {
    var target := Pos(g.pos.row + a.rowDelta, g.pos.col + a.colDelta);
    var pos := if InBounds(target, g.rows, g.cols) then target else g.pos;
    var s := CheckGameStatus(g.board, pos, g.pos);
    g.(pos := pos, board := s.board, over := !s.alive)
  }

  /** The probability with which a fresh top-row cell is an obstacle. */
  const ObstacleChance: real := 0.2

  /** A fresh top-row cell from one uniform draw in [0, 1). */
  function FreshCell(draw: real): (c: Cell)
    ensures c == Obstacle <==> draw < ObstacleChance
    ensures c == Obstacle || c == Blank
  {
    if draw < ObstacleChance then Obstacle else Blank
  }

  /** The new content of a cell below row 0 in a fall, given its own old
      content `here` and the old content `above` of the cell above it: it
      takes `above`, except that it keeps `here` when `above` is the player,
      or when `here` is the player and `above` is blank. */
  function Fall(here: Cell, above: Cell): (c: Cell)
    ensures c == here || c == above
    ensures c == Player ==> here == Player
    ensures above == Obstacle ==> c == Obstacle
    ensures above == Player ==> c == here
    ensures above == Blank ==> c == (if here == Player then Player else Blank)
    ensures above == Obstacle || above == Crash ==> c == above
  {
    if !(here == Player && above == Blank) && above != Player then above else here
  }

  /** A freshly drawn top row. */
  function FreshRow(draws: seq<real>): (r: seq<Cell>)
    ensures |r| == |draws|
    ensures forall c :: 0 <= c < |draws| ==> r[c] == FreshCell(draws[c])
  {
    seq(|draws|, c requires 0 <= c < |draws| => FreshCell(draws[c]))
  }

  /** A row below row 0 after a fall, from its own old cells and the old
      cells of the row above. */
  function FallRow(here: seq<Cell>, above: seq<Cell>): (r: seq<Cell>)
    requires |here| == |above|
    ensures |r| == |here|
    ensures forall c :: 0 <= c < |here| ==> r[c] == Fall(here[c], above[c])
  {
    seq(|here|, c requires 0 <= c < |here| => Fall(here[c], above[c]))
  }

  /** The board after blocks fall: row 0 is the freshly drawn row and every
      other row is computed from the unmodified rows of `b`. */
  function Shift(b: Board, draws: seq<real>): (r: Board)
    requires forall i :: 0 <= i < |b| ==> |b[i]| == |draws|
    ensures |r| == |b|
    ensures forall i :: 0 <= i < |r| ==> |r[i]| == |draws|
    ensures |b| > 0 ==> r[0] == FreshRow(draws)
    ensures forall i :: 1 <= i < |b| ==> r[i] == FallRow(b[i], b[i - 1])
  {
    if |b| == 0 then []
    else [FreshRow(draws)] + seq(|b| - 1, i requires 0 <= i < |b| - 1 => FallRow(b[i + 1], b[i]))
  }

  /** Cell (i, c) after blocks fall: on row 0 freshly drawn, on any
      other row the fall rule against the old cell above. */
  function FallenCell(b: Board, draws: seq<real>, i: int, c: int): Cell
    requires 0 <= i < |b| && 0 <= c < |draws| && c < |b[i]| && (i > 0 ==> c < |b[i - 1]|)
  {
    if i == 0 then FreshCell(draws[c]) else Fall(b[i][c], b[i - 1][c])
  }

  /** Cell-wise reading of `Shift`. */
  lemma ShiftCell(b: Board, draws: seq<real>, i: int, c: int)
    requires forall k :: 0 <= k < |b| ==> |b[k]| == |draws|
    requires 0 <= i < |b| && 0 <= c < |draws|
    ensures Shift(b, draws)[i][c] == FallenCell(b, draws, i, c)
  {
    var r := Shift(b, draws);
    if i > 0 {
      assert r[i] == FallRow(b[i], b[i - 1]);
    }
  }

  /** `ShiftCell` for every cell at once. */
  lemma ShiftAllCells(b: Board, draws: seq<real>)
    requires forall k :: 0 <= k < |b| ==> |b[k]| == |draws|
    ensures forall i, c :: 0 <= i < |b| && 0 <= c < |draws| ==> Shift(b, draws)[i][c] == FallenCell(b, draws, i, c)
  {
    forall i, c | 0 <= i < |b| && 0 <= c < |draws|
      ensures Shift(b, draws)[i][c] == FallenCell(b, draws, i, c)
    {
      ShiftCell(b, draws, i, c);
    }
  }

  /** The inner loop of the fall for one row, updating the row in place:
      row 0 is redrawn, any other row applies the fall rule column by
      column against the row above, which this loop does not touch. */
  method FallRowInPlace(here: seq<Cell>, above: seq<Cell>, top: bool, draws: seq<real>) returns (r: seq<Cell>)
    requires |here| == |above| == |draws|
    ensures top ==> r == FreshRow(draws)
    ensures !top ==> r == FallRow(here, above)
  {
    r := here;
    var col := 0;
    while col < |draws|
      invariant 0 <= col <= |draws| && |r| == |draws|
      invariant forall c :: 0 <= c < col ==> r[c] == (if top then FreshCell(draws[c]) else Fall(here[c], above[c]))
      invariant forall c :: col <= c < |draws| ==> r[c] == here[c]
    {
      if top {
        r := r[col := FreshCell(draws[col])];
      } else if !(r[col] == Player && above[col] == Blank) && above[col] != Player {
        r := r[col := above[col]];
      }
      col := col + 1;
    }
  }

  /** The fall loop of `moveDown` as written: rows bottom-up, updating the
      board in place. Each row reads the row above before that row is
      itself rewritten, so the result is `Shift`. */
  method ShiftBottomUp(board: Board, draws: seq<real>) returns (b: Board)
    requires forall i :: 0 <= i < |board| ==> |board[i]| == |draws|
    ensures b == Shift(board, draws)
  {
    b := board;
    var row := |board| - 1;
    while row >= 0
      invariant -1 <= row < |board| && |b| == |board|
      invariant forall i {:trigger b[i]} :: 0 <= i <= row ==> b[i] == board[i]
      invariant forall i {:trigger b[i]} :: row < i < |b| ==> b[i] == FallenRow(board, draws, i)
    {
      var above := if row == 0 then b[row] else b[row - 1];
      var fallen := FallRowInPlace(b[row], above, row == 0, draws);
      b := b[row := fallen];
      row := row - 1;
    }
    ShiftRows(board, draws, b);
  }

  /** Row `i` of the board after blocks fall. */
  function FallenRow(board: Board, draws: seq<real>, i: int): seq<Cell>
    requires forall k :: 0 <= k < |board| ==> |board[k]| == |draws|
    requires 0 <= i < |board|
  {
    if i == 0 then FreshRow(draws) else FallRow(board[i], board[i - 1])
  }

  /** A board whose every row is the fallen row is the shifted board. */
  lemma ShiftRows(board: Board, draws: seq<real>, b: Board)
    requires forall k :: 0 <= k < |board| ==> |board[k]| == |draws|
    requires |b| == |board| && forall i {:trigger b[i]} :: 0 <= i < |b| ==> b[i] == FallenRow(board, draws, i)
    ensures b == Shift(board, draws)
  {
    var r := Shift(board, draws);
    forall i | 0 <= i < |b|
      ensures b[i] == r[i]
    {
      assert b[i] == FallenRow(board, draws, i);
    }
  }

  /** `moveDown`: blocks fall, then the collision check at the unchanged
      player position; the score goes up by one exactly when the player
      survives. */
  function MoveDown(g: Game, draws: seq<real>): (g': Game)
    requires WellPlaced(g) && |draws| == g.cols
    ensures WellPlaced(g')
    ensures g'.pos == g.pos && g'.rows == g.rows && g'.cols == g.cols && g'.ticks == g.ticks
    ensures g'.over <==> FallenCell(g.board, draws, g.pos.row, g.pos.col) == Obstacle
    ensures g'.score == if g'.over then g.score else g.score + 1
    ensures g'.board[g.pos.row][g.pos.col] == (if g'.over then Crash else Player)
    ensures forall i, j :: 0 <= i < g.rows && 0 <= j < g.cols && Pos(i, j) != g.pos ==>
      g'.board[i][j] == FallenCell(g.board, draws, i, j)
  {
    var shifted := Shift(g.board, draws);
    ShiftAllCells(g.board, draws);
    var s := CheckGameStatus(shifted, g.pos, g.pos);
    g.(board := s.board, score := if s.alive then g.score + 1 else g.score, over := !s.alive)
  }

  /** Every tenth tick, counting from tick 0, is a fall tick. */
  predicate IsFallTick(ticks: nat) {
    ticks % 10 == 0
  }

  /** One timer callback. A finished game is left exactly as it is;
      otherwise the tick counter goes up by one and the tick is a fall
      (`moveDown` with the top-row `draws`) when the count before the
      increment is a multiple of 10, and a decision (`movePlayer` with the
      agent's `action`) otherwise. */
  function Tick(g: Game, action: Action, draws: seq<real>): (g': Game)
    requires WellPlaced(g) && |draws| == g.cols
    ensures WellPlaced(g') && g'.rows == g.rows && g'.cols == g.cols
    ensures g.over ==> g' == g
    ensures !g.over ==> g'.ticks == g.ticks + 1
    ensures !g.over && IsFallTick(g.ticks) ==> g' == MoveDown(g.(ticks := g.ticks + 1), draws)
    ensures !g.over && !IsFallTick(g.ticks) ==> g' == MovePlayer(g.(ticks := g.ticks + 1), action)
    ensures !g.over && IsFallTick(g.ticks) ==> g'.pos == g.pos && g'.score == (if g'.over then g.score else g.score + 1)
    ensures !g.over && !IsFallTick(g.ticks) ==>
      && g'.score == g.score
      && g'.pos == (var target := Pos(g.pos.row + action.rowDelta, g.pos.col + action.colDelta);
                    if InBounds(target, g.rows, g.cols) then target else g.pos)
  {
    if g.over then g
    else if IsFallTick(g.ticks) then MoveDown(g.(ticks := g.ticks + 1), draws)
    else MovePlayer(g.(ticks := g.ticks + 1), action)
  }

  /** What one tick consumes: the agent's answer and the top-row draws. */
  datatype TickInput = TickInput(action: Action, draws: seq<real>)

  predicate DrawsFit(g: Game, ins: seq<TickInput>) {
    forall i :: 0 <= i < |ins| ==> |ins[i].draws| == g.cols
  }

  /** A sequence of ticks. */
  function Run(g: Game, ins: seq<TickInput>): (g': Game)
    requires WellPlaced(g) && DrawsFit(g, ins)
    ensures WellPlaced(g') && g'.rows == g.rows && g'.cols == g.cols
    ensures g'.ticks <= g.ticks + |ins|
    decreases |ins|
  {
    if |ins| == 0 then g
    else Run(Tick(g, ins[0].action, ins[0].draws), ins[1..])
  }
}
