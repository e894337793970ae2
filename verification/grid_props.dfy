/** Properties of the grid game across ticks: the one-player invariant,
    the finality of a crash, when a fall crushes the player, and how the
    score counts falls survived. */
module GridProps {
  import opened Grid

  /** The engine invariant: the board has the dimensions the engine checks
      bounds against, the player position is on it, the only PLAYER or CRASH cell is at that position, and the game
      is over exactly when that cell is CRASH. */
  predicate Inv(g: Game) {
    && WellPlaced(g)
    && (forall r, c {:trigger g.board[r][c]} :: 0 <= r < g.rows && 0 <= c < g.cols ==> (Marker(g.board[r][c]) <==> Pos(r, c) == g.pos))
    && (g.over <==> g.board[g.pos.row][g.pos.col] == Crash)
  }

  /** A freshly constructed square game satisfies the invariant. */
  lemma NewGameInv(n: nat)
    requires n >= 1
    ensures Inv(NewGame(n, n))
    ensures NewGame(n, n).pos == Pos(n - 1, n / 2)
  {
    var g := NewGame(n, n);
    forall r, c | 0 <= r < n && 0 <= c < n
      ensures Marker(g.board[r][c]) <==> Pos(r, c) == g.pos
    {
    }
  }

  /** The constructor swaps the dimensions: on a board with one row and two
      columns the player spawns on a row the engine's bounds exclude. */
  lemma SpawnOutsideBounds()
    ensures NewGame(1, 2).pos == Pos(1, 0)
    ensures !InBounds(NewGame(1, 2).pos, 1, 2)
    ensures !WellPlaced(NewGame(1, 2))
  {
  }

  /** The intended constructor satisfies the invariant for every shape, and
      agrees with the program's constructor on square boards. */
  lemma NewGameIntendedInv(rows: nat, cols: nat)
    requires rows >= 1 && cols >= 1
    ensures Inv(NewGameIntended(rows, cols))
    ensures rows == cols ==> NewGameIntended(rows, cols) == NewGame(rows, cols)
  {
    var g := NewGameIntended(rows, cols);
    forall r, c | 0 <= r < rows && 0 <= c < cols
      ensures Marker(g.board[r][c]) <==> Pos(r, c) == g.pos
    {
    }
  }

  /** While the game runs, no cell is CRASH and only the player position
      is PLAYER. */
  lemma NoCrashWhileAlive(g: Game, r: int, c: int)
    requires Inv(g) && !g.over && 0 <= r < g.rows && 0 <= c < g.cols
    ensures g.board[r][c] != Crash
    ensures Pos(r, c) != g.pos ==> g.board[r][c] != Player
  {
    assert Marker(g.board[r][c]) <==> Pos(r, c) == g.pos;
  }

  /** A fall into a cell that is not the player's, from a cell above that
      has not crashed, leaves no marker. */
  lemma FallKeepsNoMarker(here: Cell, above: Cell)
    requires !Marker(here) && above != Crash
    ensures !Marker(Fall(here, above))
  {
  }

  /** A decision tick keeps the invariant. */
  lemma MovePlayerInv(g: Game, a: Action)
    requires Inv(g) && !g.over
    ensures Inv(MovePlayer(g, a))
  {
    var g' := MovePlayer(g, a);
    forall r, c | 0 <= r < g.rows && 0 <= c < g.cols
      ensures Marker(g'.board[r][c]) <==> Pos(r, c) == g'.pos
    {
      if Pos(r, c) != g.pos && Pos(r, c) != g'.pos {
        assert g'.board[r][c] == g.board[r][c];
      }
    }
  }

  /** A fall tick keeps the invariant: the fall moves no PLAYER cell and
      creates no CRASH cell, so the collision check leaves exactly one
      marker, at the unchanged position. */
  lemma MoveDownInv(g: Game, draws: seq<real>)
    requires Inv(g) && !g.over && |draws| == g.cols
    ensures Inv(MoveDown(g, draws))
  {
    var g' := MoveDown(g, draws);
    forall r, c | 0 <= r < g.rows && 0 <= c < g.cols
      ensures Marker(g'.board[r][c]) <==> Pos(r, c) == g'.pos
    {
      if Pos(r, c) != g.pos {
        FallenNoMarker(g, draws, r, c);
      }
    }
  }

  /** Away from the player, a fall leaves no PLAYER or CRASH cell: such a
      cell is freshly drawn or takes its own or the above cell's old
      content, neither of which is a marker. */
  lemma FallenNoMarker(g: Game, draws: seq<real>, r: int, c: int)
    requires Inv(g) && !g.over && |draws| == g.cols
    requires 0 <= r < g.rows && 0 <= c < g.cols && Pos(r, c) != g.pos
    ensures !Marker(FallenCell(g.board, draws, r, c))
  {
    if r > 0 {
      NoCrashWhileAlive(g, r, c);
      NoCrashWhileAlive(g, r - 1, c);
      FallKeepsNoMarker(g.board[r][c], g.board[r - 1][c]);
    }
  }

  /** The invariant does not depend on the tick counter. */
  lemma InvIgnoresTicks(g: Game, t: nat)
    requires Inv(g)
    ensures Inv(g.(ticks := t))
  {
    var g1 := g.(ticks := t);
    assert g1.board == g.board && g1.pos == g.pos && g1.over == g.over && g1.rows == g.rows && g1.cols == g.cols;
  }

  /** Every tick keeps the invariant. */
  lemma TickInv(g: Game, action: Action, draws: seq<real>)
    requires Inv(g) && |draws| == g.cols
    ensures Inv(Tick(g, action, draws))
  {
    if !g.over {
      var g1 := g.(ticks := g.ticks + 1);
      InvIgnoresTicks(g, g.ticks + 1);
      if IsFallTick(g.ticks) {
        assert Tick(g, action, draws) == MoveDown(g1, draws);
        MoveDownInv(g1, draws);
      } else {
        assert Tick(g, action, draws) == MovePlayer(g1, action);
        MovePlayerInv(g1, action);
      }
    }
  }

  /** After any number of ticks exactly one cell is PLAYER or CRASH, and it
      is the one at the player position, which stays on the board. */
  lemma {:induction false} RunInv(g: Game, ins: seq<TickInput>)
    requires Inv(g) && DrawsFit(g, ins)
    ensures Inv(Run(g, ins))
    decreases |ins|
  {
    if |ins| > 0 {
      var g1 := Tick(g, ins[0].action, ins[0].draws);
      TickInv(g, ins[0].action, ins[0].draws);
      RunInv(g1, ins[1..]);
    }
  }

  /** Once the game is over no tick changes anything: board, score,
      position and tick counter stay as they are. */
  lemma {:induction false} OverIsFinal(g: Game, ins: seq<TickInput>)
    requires WellPlaced(g) && DrawsFit(g, ins) && g.over
    ensures Run(g, ins) == g
    decreases |ins|
  {
    if |ins| > 0 {
      OverIsFinal(Tick(g, ins[0].action, ins[0].draws), ins[1..]);
    }
  }

  /** A fall crushes the player exactly when an obstacle sits directly
      above it, or, on the top row, when the fresh cell above is drawn as
      an obstacle. */
  lemma FallCollision(g: Game, draws: seq<real>)
    requires Inv(g) && !g.over && |draws| == g.cols
    ensures MoveDown(g, draws).over <==>
      if g.pos.row == 0 then draws[g.pos.col] < ObstacleChance
      else g.board[g.pos.row - 1][g.pos.col] == Obstacle
  {
    if g.pos.row > 0 {
      assert g.board[g.pos.row][g.pos.col] == Player;
      NoCrashWhileAlive(g, g.pos.row - 1, g.pos.col);
    }
  }

  /** Away from the player's cell, a fall moves each block down one row:
      a cell under a blank cell is emptied (an obstacle there falls away),
      a cell under an obstacle receives it, and a cell under the player
      keeps what it held. */
  lemma FallAway(g: Game, draws: seq<real>, i: nat, j: nat)
    requires WellPlaced(g) && |draws| == g.cols
    requires 0 < i < g.rows && j < g.cols && Pos(i, j) != g.pos
    ensures g.board[i - 1][j] == Blank && g.board[i][j] != Player ==> MoveDown(g, draws).board[i][j] == Blank
    ensures g.board[i - 1][j] == Obstacle ==> MoveDown(g, draws).board[i][j] == Obstacle
    ensures g.board[i - 1][j] == Player ==> MoveDown(g, draws).board[i][j] == g.board[i][j]
  {
  }

  /** Tick 0 is a fall tick: on a fresh square board of side at least 2
      the player survives it at the spawn cell and scores 1. */
  lemma FirstTickFalls(n: nat, action: Action, draws: seq<real>)
    requires n >= 2 && |draws| == n
    ensures var g := Tick(NewGame(n, n), action, draws);
      g.pos == Pos(n - 1, n / 2) && g.score == 1 && g.ticks == 1 && !g.over
  {
    var g0 := NewGame(n, n);
    NewGameInv(n);
    InvIgnoresTicks(g0, 1);
    var g1 := g0.(ticks := 1);
    FallCollision(g1, draws);
    assert g1.board[n - 2][n / 2] == Blank;
    assert Tick(g0, action, draws) == MoveDown(g1, draws);
  }

  /** No cell holds an obstacle. */
  predicate NoObstacles(b: Board) {
    forall i, j :: 0 <= i < |b| && 0 <= j < |b[i]| ==> b[i][j] != Obstacle
  }

  /** Every draw of a fresh row lands at or above the obstacle chance. */
  predicate ClearDraws(draws: seq<real>) {
    forall c :: 0 <= c < |draws| ==> draws[c] >= ObstacleChance
  }

  /** The number of fall ticks among the `n` ticks counted from `t`. */
  function FallTicks(t: nat, n: nat): nat
    decreases n
  {
    if n == 0 then 0 else (if IsFallTick(t) then 1 else 0) + FallTicks(t + 1, n - 1)
  }

  /** Counting one more tick adds one exactly when that tick is a fall. */
  lemma {:induction false} FallTicksSnoc(t: nat, n: nat)
    ensures FallTicks(t, n + 1) == FallTicks(t, n) + (if IsFallTick(t + n) then 1 else 0)
    decreases n
  {
    if n > 0 {
      FallTicksSnoc(t + 1, n - 1);
    }
  }

  /** Among the first `n` ticks, counted from tick 0, ceil(n / 10) are
      falls: ticks 0, 10, 20, ... */
  lemma {:induction false} FallTicksFromStart(n: nat)
    ensures FallTicks(0, n) == (n + 9) / 10
    decreases n
  {
    if n > 0 {
      FallTicksSnoc(0, n - 1);
      FallTicksFromStart(n - 1);
    }
  }

  /** Without obstacles on the board or in the draws, a fall brings none. */
  lemma FallenClear(b: Board, draws: seq<real>, i: int, c: int)
    requires NoObstacles(b) && ClearDraws(draws)
    requires 0 <= i < |b| && 0 <= c < |draws| && c < |b[i]| && (i > 0 ==> c < |b[i - 1]|)
    ensures FallenCell(b, draws, i, c) != Obstacle
  {
    if i > 0 {
      assert b[i][c] != Obstacle && b[i - 1][c] != Obstacle;
    }
  }

  /** One tick without obstacles anywhere keeps the board free of them and
      the player alive, and scores exactly on a fall tick. */
  lemma ClearTick(g: Game, action: Action, draws: seq<real>)
    requires WellPlaced(g) && !g.over && NoObstacles(g.board) && |draws| == g.cols && ClearDraws(draws)
    ensures var g' := Tick(g, action, draws);
      && !g'.over && NoObstacles(g'.board)
      && g'.score == g.score + (if IsFallTick(g.ticks) then 1 else 0)
      && g'.ticks == g.ticks + 1 && g'.cols == g.cols && WellPlaced(g')
  {
    var g' := Tick(g, action, draws);
    if IsFallTick(g.ticks) {
      FallenClear(g.board, draws, g.pos.row, g.pos.col);
      forall i, j | 0 <= i < |g'.board| && 0 <= j < |g'.board[i]|
        ensures g'.board[i][j] != Obstacle
      {
        if Pos(i, j) != g.pos {
          FallenClear(g.board, draws, i, j);
        }
      }
    } else {
      forall i, j | 0 <= i < |g'.board| && 0 <= j < |g'.board[i]|
        ensures g'.board[i][j] != Obstacle
      {
        if Pos(i, j) != g.pos && Pos(i, j) != g'.pos {
          assert g'.board[i][j] == g.board[i][j];
        }
      }
    }
  }

  /** With no obstacle on the board and none drawn, the player never
      crashes, and the score grows by exactly the number of fall ticks. */
  lemma {:induction false} ClearSkySurvives(g: Game, ins: seq<TickInput>)
    requires WellPlaced(g) && !g.over && NoObstacles(g.board) && DrawsFit(g, ins)
    requires forall i :: 0 <= i < |ins| ==> ClearDraws(ins[i].draws)
    ensures !Run(g, ins).over
    ensures Run(g, ins).score == g.score + FallTicks(g.ticks, |ins|)
    ensures Run(g, ins).ticks == g.ticks + |ins|
    decreases |ins|
  {
    if |ins| > 0 {
      var g1 := ClearStep(g, ins);
      ClearSkySurvives(g1, ins[1..]);
    }
  }

  /** One clear tick: the game after it satisfies the same hypotheses on
      the remaining inputs, and the run goes on from it. */
  lemma ClearStep(g: Game, ins: seq<TickInput>) returns (g1: Game)
    requires WellPlaced(g) && !g.over && NoObstacles(g.board) && DrawsFit(g, ins) && |ins| > 0
    requires forall i :: 0 <= i < |ins| ==> ClearDraws(ins[i].draws)
    ensures WellPlaced(g1) && !g1.over && NoObstacles(g1.board) && DrawsFit(g1, ins[1..])
    ensures forall i :: 0 <= i < |ins[1..]| ==> ClearDraws(ins[1..][i].draws)
    ensures g1.ticks == g.ticks + 1
    ensures g1.score + FallTicks(g1.ticks, |ins[1..]|) == g.score + FallTicks(g.ticks, |ins|)
    ensures Run(g, ins) == Run(g1, ins[1..])
  {
    g1 := Tick(g, ins[0].action, ins[0].draws);
    ClearTick(g, ins[0].action, ins[0].draws);
    ClearTail(ins, g.cols);
    FallTicksHead(g.ticks, g1.ticks, |ins|);
  }

  /** The first of n ticks counts on its own; the rest start one later. */
  lemma FallTicksHead(t: nat, t1: nat, n: nat)
    requires t1 == t + 1 && n > 0
    ensures FallTicks(t, n) == (if IsFallTick(t) then 1 else 0) + FallTicks(t1, n - 1)
  {
  }

  /** The inputs after the first still fit `cols` columns and draw no
      obstacle. */
  lemma ClearTail(ins: seq<TickInput>, cols: nat)
    requires |ins| > 0
    requires forall i :: 0 <= i < |ins| ==> |ins[i].draws| == cols && ClearDraws(ins[i].draws)
    ensures forall i :: 0 <= i < |ins| - 1 ==> |ins[1..][i].draws| == cols && ClearDraws(ins[1..][i].draws)
  {
    forall i | 0 <= i < |ins| - 1
      ensures |ins[1..][i].draws| == cols && ClearDraws(ins[1..][i].draws)
    {
      assert ins[1..][i] == ins[i + 1];
    }
  }

  /** On a 2 x 2 board with no obstacle drawn, twenty ticks hold the fall
      ticks 0 and 10, so the score is 2 whatever the decisions were. */
  lemma TwoByTwoScenario(ins: seq<TickInput>)
    requires |ins| == 20
    requires forall i :: 0 <= i < |ins| ==> |ins[i].draws| == 2 && ClearDraws(ins[i].draws)
    ensures Run(NewGame(2, 2), ins).score == 2
    ensures !Run(NewGame(2, 2), ins).over
  {
    var g := NewGame(2, 2);
    assert NoObstacles(g.board);
    ClearSkySurvives(g, ins);
    FallTicksFromStart(20);
  }
}
