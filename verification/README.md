# neat-blocks in Dafny

neat-blocks is a small browser game. A player starts on the bottom row of a
grid, and obstacles fall one row every tenth tick. The player is driven
either by a learning agent, which steps left or right, or by the keyboard,
which moves it in any of four directions. This project models the
deterministic core of the game as pure Dafny functions over immutable data,
and proves properties of it:

- **Engine** (`grid.dfy`, module `Grid`; properties in `grid_props.dfy`,
  module `GridProps`). The board is a `seq<seq<Cell>>` of BLANK, OBSTACLE,
  PLAYER and CRASH cells.
  - Construction, `movePlayer`, `moveDown` and `checkGameStatus`.
  - The timer tick that alternates a fall every tenth tick with a decision.
  - The `Math.random` draws for a fresh top row are an input.
  - The in-place bottom-up fall loop is a method, proved equal to the
    functional `Shift`.
- **Shared agent logic** (`policy.dfy`, module `Policy`):
  - the fixed action list;
  - the row-major board encoding the network reads;
  - greedy choice with ties broken by list order;
  - the exploration schedule;
  - the reward for a score change;
  - the per-batch score list.
- **Monte-Carlo agent bookkeeping** (`monte_carlo.dfy`, module
  `MonteCarlo`):
  - transitions recorded per decision;
  - discounted returns pushed onto the replay buffer at the end of an
    episode;
  - the replay count;
  - the episode reset.
- **Temporal-difference agent bookkeeping** (`temporal_difference.dfy`,
  module `TemporalDifference`):
  - the update each decision and each episode end hands to the network:
    input, one-step target and decayed learning rate;
  - the episode reset.
- **Keyboard latch** (`human.dfy`, module `Human`; `app.dfy`, module `App`).
  An arrow key overwrites the pending move. The engine's decision callback
  returns the pending move and clears it.

`wrappers.dfy` holds `Option` and `Result`.

The network's value Q is a parameter `q: seq<int> -> real`. `Math.exp` is a
parameter `exp: real -> real`. Every random draw is an explicit input:

- the top-row draws;
- `_.random(true)`;
- the index `_.sample` picks;
- the `random.normal` value.

Rewards, discount factors and rates are `real`.

Facts about the program that shape the model:

- BlockGrid never reads its `density` prop. Each fresh top-row cell is an
  obstacle with the fixed probability 0.2, independently of the others.
- The agents pass a `gameOverFn` prop to BlockGrid, but BlockGrid never
  calls it. An agent's `gameOver` is therefore modelled as an outside
  `End` event.
- The temporal-difference agent's reward is ten times the score change
  since its last decision.
- The networks change between decisions. The temporal-difference agent
  retrains its network inside `play`, before choosing the greedy action.
  The Monte-Carlo agent evolves its network at the end of an episode.
  Weights are not modelled, so the network after each training step is an
  input carried by the event that trains it.

## Model

| member | source | states |
|---|---|---|
| Grid.CellValue | src/BlockGrid.jsx:8-11 | The four cell kinds carry the distinct values 0 to 3, with BLANK 0, OBSTACLE 1 and PLAYER 2. |
| Grid.NewGame | src/BlockGrid.jsx:17-30 | A new game is all BLANK except one PLAYER at the bottom row and middle column (rounded down). Score and ticks are 0 and the game is running. As in the program, the board has `cols` rows of `rows` cells. |
| Grid.CheckGameStatus | src/BlockGrid.jsx:116-130 | The player survives iff its cell is not OBSTACLE. The previous cell becomes BLANK, the current one PLAYER (or CRASH on a collision), and no other cell changes. |
| Grid.MovePlayer | src/BlockGrid.jsx:63-84 | The position becomes position + delta iff that lies inside rows x cols, and otherwise stays. The score is unchanged. The game ends iff the new cell held an obstacle. Only the old and new cells change. |
| Grid.FreshCell | src/BlockGrid.jsx:95 | A fresh top-row cell is OBSTACLE exactly when its draw is below 0.2, and BLANK otherwise. |
| Grid.Fall | src/BlockGrid.jsx:95-98 | A cell under the player keeps its value. A cell under a blank cell becomes blank, unless it holds the player. A cell under an obstacle or a crash takes that value. So a cell is PLAYER afterwards only if it was PLAYER before. |
| Grid.FallRowInPlace | src/BlockGrid.jsx:93-100 | The column loop, updating a row in place, yields the fresh row on row 0 and the fall rule cell by cell on other rows. |
| Grid.ShiftBottomUp | src/BlockGrid.jsx:92-101 | The in-place bottom-up loop gives the same board as computing every row from the unmodified old board. |
| Grid.ShiftCell | src/BlockGrid.jsx:92-101 | Each cell after the fall is the fresh cell on row 0, and elsewhere the fall rule applied to its old value and the old value above. |
| Grid.MoveDown | src/BlockGrid.jsx:86-114 | The position is unchanged. The game ends iff the fallen cell at the player is an obstacle. The score goes up by exactly 1 iff the player survives. Every other cell is its fallen value. |
| Grid.Tick | src/BlockGrid.jsx:46-61 | A finished game is left exactly as is. Otherwise ticks go up by 1. A count that is a multiple of 10 is a fall: the tick is `moveDown` on the counted game, so it keeps the position and scores on survival. Any other count is a decision: the tick is `movePlayer` with the agent's action, a bounded move that keeps the score. |
| Grid.Run | src/BlockGrid.jsx:46-61 | Any sequence of ticks keeps the board shaped and the player on it, and adds at most one tick per step. |
| Grid.NewGameIntended | src/BlockGrid.jsx:17-21 | The corrected constructor: `rows` rows of `cols` cells, the player on the board at the bottom-middle, everything else BLANK. |
| GridProps.NewGameInv | src/BlockGrid.jsx:17-30 | A new square game satisfies the engine invariant: exactly one PLAYER/CRASH cell, at the position, CRASH iff over. |
| GridProps.NewGameIntendedInv | src/BlockGrid.jsx:17-21 | The corrected constructor satisfies the invariant for every shape, and equals the program's on square boards. |
| GridProps.SpawnOutsideBounds | src/BlockGrid.jsx:17-21 | On a 1-row, 2-column game the program spawns the player at row 1, outside the bounds the engine checks. |
| GridProps.NoCrashWhileAlive | src/BlockGrid.jsx:116-130 | While the game runs, no cell is CRASH and only the player's cell is PLAYER. |
| GridProps.MovePlayerInv | src/BlockGrid.jsx:63-84 | A decision keeps the one-player invariant. |
| GridProps.MoveDownInv | src/BlockGrid.jsx:86-114 | A fall keeps the one-player invariant. |
| GridProps.FallenNoMarker | src/BlockGrid.jsx:92-101 | While the game runs, a fall never creates a PLAYER or CRASH cell away from the player. |
| GridProps.TickInv | src/BlockGrid.jsx:46-61 | Every tick keeps the invariant. |
| GridProps.RunInv | src/BlockGrid.jsx:46-61 | Every tick sequence keeps the invariant. |
| GridProps.OverIsFinal | src/BlockGrid.jsx:47-49 | Once the game is over, no sequence of ticks changes the game at all: board, score and position stay fixed. |
| GridProps.FallCollision | src/BlockGrid.jsx:92-104 | A fall crushes the player iff an obstacle sits directly above it. On the top row, it is crushed iff its fresh draw is below 0.2. |
| GridProps.FirstTickFalls | src/BlockGrid.jsx:50-51 | Tick 0 is a fall: on a fresh board of side at least 2, the player survives it at the spawn cell with score 1. |
| GridProps.FallTicksFromStart | src/BlockGrid.jsx:50 | Of the first n ticks, ceil(n / 10) are falls. |
| GridProps.ClearTick | src/BlockGrid.jsx:95-107 | With no obstacle on the board and none drawn, a tick keeps the game running and obstacle-free, and scores exactly on falls. |
| GridProps.FallAway | src/BlockGrid.jsx:90-100 | Away from the player's cell, a fall moves each block down one row. An obstacle under a blank cell falls away and leaves a blank. An obstacle above a cell lands in it. A cell under the player keeps its value. |
| GridProps.ClearSkySurvives | src/BlockGrid.jsx:104-107 | Starting from a running, well-placed game with no obstacle on the board, and with no obstacle drawn on any tick, the game never ends and the score grows by exactly the number of fall ticks run. |
| GridProps.TwoByTwoScenario | src/BlockGrid.jsx:46-61 | On a 2 x 2 board with no obstacles drawn, 20 ticks end running with score 2, whatever the decisions. |
| Policy.PossibleActions | src/components/MonteCarlo.jsx:13-16 | The actions are exactly left, right, stay in that order, and none moves vertically. |
| Policy.BoardToPartialState | src/components/MonteCarlo.jsx:39-41 | Every encoded value is a cell value in 0..3. |
| Policy.PartialStateLength | src/components/MonteCarlo.jsx:39-41 | On a rows x cols board the encoding has rows * cols values. |
| Policy.PartialStateCell | src/components/MonteCarlo.jsx:39-41 | The encoding is row-major: cell (i, j) sits at index i * cols + j. |
| Policy.Input | src/components/MonteCarlo.jsx:88-92 | The network input is the board encoding, followed by rowDelta and then colDelta. |
| Policy.QValues | src/components/MonteCarlo.jsx:96-100 | Position k holds Q of the k-th action. |
| Policy.FirstMax | src/components/MonteCarlo.jsx:96-100 | The scan that keeps the best value so far, replacing it only on a strictly greater one, returns the first index of the maximum. |
| Policy.FirstMaximiserUnique | src/components/MonteCarlo.jsx:94-101 | The first maximiser is unique, so it pins down the greedy choice. |
| Policy.BestAction | src/components/MonteCarlo.jsx:94-101 | The greedy action is one of the actions, its Q is at least every action's Q, and it is the first in list order with that value. |
| Policy.MaxQ | src/components/TemporalDifference.jsx:70-71 | The Q of the greedy action is the largest Q over the actions, and some action attains it. |
| Policy.LimitOf | src/components/MonteCarlo.jsx:26-27 | An absent or zero budget is unbounded. Any other value is kept and is at least 1. |
| Policy.ExplorePercentage | src/components/MonteCarlo.jsx:139-148 | Training stays on iff it was on and the episode budget is not used up. Off means rate 0. On means exploreRate * e^(-0.01 t) under GLIE, or exploreRate without it. |
| Policy.Decay | src/components/MonteCarlo.jsx:103-105 | For an exponential, with non-negative C and rate, C * e^(-r t) lies between 0 and C. |
| Policy.DecayBound | src/components/MonteCarlo.jsx:103-105 | For an exponential and non-negative C, C * e^x lies between 0 and C whenever x <= 0. |
| Policy.DecaySchedule | src/components/MonteCarlo.jsx:103-105 | For an exponential, with non-negative C and rate, the schedule starts at C and never grows with t. |
| Policy.Reward | src/components/MonteCarlo.jsx:107-109 | The reward is ten times the score gained: 0 for no change, at least 10 for any gain. |
| Policy.BatchScores | src/components/MonteCarlo.jsx:112-131 | The score list is unchanged for an unbounded batch. It is emptied on a batch's last episode, and otherwise has the last score appended. |
| Policy.BatchScoresCount | src/components/MonteCarlo.jsx:112-131 | With a finite batch size the list length is the episode count mod the batch size, before and after every episode end. |
| MonteCarlo.Init | src/components/MonteCarlo.jsx:22-28 | Counters and lists start empty, falsy budgets read as unbounded, training starts on, and nothing is remembered. |
| MonteCarlo.Play | src/components/MonteCarlo.jsx:150-170 | A transition with reward 10 * (score - lastScore) is appended iff training and lastBoard, lastAction and lastScore are all truthy. The action is the sampled one when the draw is below the explore rate, and the greedy one otherwise (always greedy once training is off). Board, action and score are remembered. |
| MonteCarlo.FirstDecisionRecordsNothing | src/components/MonteCarlo.jsx:150-157 | The first decision after a reset records nothing. The second records one transition iff training and the first saw a non-zero score. |
| MonteCarlo.BackwardLength | src/components/MonteCarlo.jsx:45-52 | The backward loop pushes one experience per step. |
| MonteCarlo.BackwardAt | src/components/MonteCarlo.jsx:44-52 | Started with the return of the later steps, the backward loop's k-th experience is step idx - k with that step's discounted return. |
| MonteCarlo.BackwardReturns | src/components/MonteCarlo.jsx:44-52 | The loop's experiences are exactly the steps from idx down to 0, each with its return. |
| MonteCarlo.Experiences | src/components/MonteCarlo.jsx:43-52 | One experience per transition, last first. Each input is the state encoding plus deltas, and each output is G_i = r_i + gamma * G_(i+1) with G_n = 0. |
| MonteCarlo.ReturnIsDiscountedSum | src/components/MonteCarlo.jsx:44-47 | The backward return equals the forward discounted sum of gamma^(k-i) * r_k. |
| MonteCarlo.ReplayCount | src/components/MonteCarlo.jsx:54-57 | The replay count is at least 1, and at most the buffer length when that is non-zero. It is ceil(abs z) when that fits, the buffer length when it does not, and 1 when either is 0. |
| MonteCarlo.Reset | src/components/MonteCarlo.jsx:111-137 | Episodes go up by 1, last* is cleared with lastScore 0, and transitions are dropped. Scores follow BatchScores. At a batch end, training can switch off only by exhausting the budget. |
| MonteCarlo.GameOver | src/components/MonteCarlo.jsx:73-86 | In training it fails iff there is no last action. Otherwise it pushes the experiences of the episode plus one terminal transition of reward -10 (that one first) and picks the replay count. The resulting agent is exactly `reset` applied after the push, with the same scores and training flag `reset` gives. Out of training it only resets. |
| MonteCarlo.Handle | src/components/MonteCarlo.jsx:60-86 | One event. A decision never fails and chooses one action. Only an episode end can fail. The agent stays paired and the episode count never falls. |
| MonteCarlo.Run | src/components/MonteCarlo.jsx:60-86 | Over any events, a successful run keeps the agent paired, never lowers the episode count, and chooses at most one action per event. |
| MonteCarlo.DecideHandOff | src/components/MonteCarlo.jsx:150-170 | A decision always succeeds. It remembers the action it chose, which is greedy under the current network unless the draw explores, and later events see that same network. |
| MonteCarlo.EndHandOff | src/components/MonteCarlo.jsx:60-86 | An episode end fails iff training with no last action. Otherwise later events see the evolved network iff the agent was training, and the agent is the one `gameOver` leaves. |
| MonteCarlo.RunAppend | src/components/MonteCarlo.jsx:60-86 | Running two stretches of events back to back equals running the second from the agent and network the first ended with: failures propagate, and the actions concatenate. |
| MonteCarlo.TrainingStaysOff | src/components/MonteCarlo.jsx:139-148 | Once training is off it stays off, no episode end fails, and the replay buffer never changes. |
| TemporalDifference.Init | src/components/TemporalDifference.jsx:16-20 | Falsy budgets are unbounded, training starts on, and counters start at zero. |
| TemporalDifference.Target | src/components/TemporalDifference.jsx:70-77 | The target is reward + gamma times the largest Q on the next board. |
| TemporalDifference.LearningRate | src/components/TemporalDifference.jsx:82 | For an exponential and a non-negative configured rate, the rate handed to `propagate` lies between 0 and the configured rate. |
| TemporalDifference.LearningRateDecays | src/components/TemporalDifference.jsx:82 | The learning rate starts at the configured rate and does not grow from one episode to a later one. |
| TemporalDifference.UpdateQ | src/components/TemporalDifference.jsx:68-83 | The update trains Q(board, action) toward that target at rate learningRate * e^(-0.01 episodes). |
| TemporalDifference.Play | src/components/TemporalDifference.jsx:134-164 | An update is issued iff training and lastBoard, lastAction and lastScore are all truthy. Its reward is 10 * (score - lastScore), toward the new board, with the target computed on the network before the update. Training continues iff the budget allows. The action is the sampled one below the explore rate, and otherwise greedy under the network as retrained by this call's update, if any. Out of training there is no update and the choice is greedy under the unchanged network. Board, action and score are remembered. |
| TemporalDifference.Reset | src/components/TemporalDifference.jsx:89-110 | Episodes go up by 1, last* is cleared with lastScore 0, scores follow BatchScores, and the training flag is untouched. |
| TemporalDifference.GameOver | src/components/TemporalDifference.jsx:112-128 | A terminal update toward -10 at the current rate is issued iff training with a last board and action. The agent is always reset. |
| TemporalDifference.TrainingStaysOff | src/components/TemporalDifference.jsx:140-146 | Once training is off no event turns it on, and no update is ever issued again. |
| TemporalDifference.Handle | src/components/TemporalDifference.jsx:112-164 | One event issues at most one update. A decision chooses exactly one action, and an episode end chooses none. Training never switches back on, and the episode count never falls. |
| TemporalDifference.Run | src/components/TemporalDifference.jsx:112-164 | Over any events the episode count never falls, training never switches back on, and every chosen action is one of the possible actions. |
| TemporalDifference.DecideHandOff | src/components/TemporalDifference.jsx:68-83 | A decision issues an update iff `Updates` holds, with a target read from the network it started with. Later events, and the decision's own greedy choice, see the network `propagate` left whenever an update was issued. |
| TemporalDifference.EndHandOff | src/components/TemporalDifference.jsx:112-128 | An episode end issues the terminal update iff training with a last board and action. Only then do later events see the trained network. The agent is reset, and no action is chosen. |
| TemporalDifference.RunAppend | src/components/TemporalDifference.jsx:112-164 | Running two stretches of events back to back equals running the second from the agent and network the first ended with. Updates and actions concatenate in order. |
| TemporalDifference.UpdateSchedule | src/components/TemporalDifference.jsx:134-138 | No update from the first decision of the game or of an episode. A decision after a decision updates iff still training and the earlier score was non-zero. An episode end after a decision updates iff still training. |
| TemporalDifference.UpdatesPerEvent | src/components/TemporalDifference.jsx:112-138 | Each decision and each episode end issues at most one update. |
| Human.ArrowMove | src/components/Human.jsx:22-38 | Each arrow key maps to its unit move, a key maps to a move iff it is one of the four arrows, and every move is along exactly one axis. |
| Human.ChangeAction | src/components/Human.jsx:21-46 | An arrow key replaces the pending move by its unit move. Any other key, 'r' included, leaves it unchanged. A redraw is requested iff the key is 'r'. |
| Human.Play | src/components/Human.jsx:15-19 | The answer is the pending move, and the latch is left neutral. |
| Human.LastArrow | src/components/Human.jsx:21-38 | The result is none iff no key is an arrow. Otherwise it is the move of an arrow key, and no arrow key comes after that key. |
| Human.FeedIsLastArrow | src/components/Human.jsx:21-46 | After any key sequence the latch holds the last arrow's move, or its old value when no arrow was pressed. |
| Human.KeysThenPlay | src/components/Human.jsx:15-19 | Between decisions the answer is the last arrow's move or no move. A second decision with no key in between answers no move. |
| Human.FeedOneStep | src/components/Human.jsx:8-38 | The latch only ever holds a move of at most one cell along one axis. |
| App.ChangeAction | src/App.js:19-38 | An arrow key sets the pending move to its unit move. Every other key leaves it unchanged. |
| App.Play | src/App.js:13-17 | The answer is the pending move, and the latch is left neutral. |
| App.SameLatchAsHuman | src/App.js:19-38 | For every key sequence this handler latches the same move as the `Human` one. The last arrow wins. |

## Left out

- React: lifecycle, `setState`, the `setTimeout` scheduling with
  `tickMs`/`waitMs`, rendering, styles, the force-graph view and keyboard
  listener registration. These are UI; a tick is one call of `Grid.Tick`.
- Network internals (`activate`, `propagate`, neataptic `evolve`, layer
  construction). These are foreign libraries. Q is a parameter, and an update
  is returned as the input, target and rate the program would hand over.
- `Math.exp`, float rounding and the random draws. These are parameters and
  inputs, and all numbers are exact reals.
- The `_.sampleSize` choice of which experiences to replay. Only the count
  is modelled.
- The eviction behaviour of the `Deque(100)` replay buffer. It is library
  behaviour; the buffer is an unbounded list.
- The asynchronous `evolve().then(reset)`. It is modelled as one atomic
  "push experiences, then reset".
- The `'r'` key's `forceUpdate`. It is modelled as a `redraw` flag only.
- The fallback for a non-function `actionFn`. It returns `undefined`, which
  the move would dereference, so it is not a neutral move.
- `console.log` output, including the batch statistics and the `[1,0,2,0]`
  debug checks. The explore-schedule call inside the Monte-Carlo batch
  report is kept, because it can switch training off.
- The `density` prop, which BlockGrid never reads.
- The weights of the networks. A network is its value function `q`. The
  network after `propagate` or `evolve` arrives as an input of the event
  that trains it, because the new weights depend on library internals.
- Policy.Decay: promises bounds only when the `exp` parameter behaves like
  an exponential (1 at 0, positive, increasing; `ExpLike`). `Math.exp` is
  not modelled, so its real properties are stated as that hypothesis.
- TemporalDifference.LearningRate: promises its bounds only under the same
  `ExpLike` hypothesis, because it is `Decay` at rate 0.01.
- Grid.NewGame: requires at least one row and one column. With no columns
  the constructor throws reading `board[0]`. With no rows it writes past
  the end of an empty row, which JavaScript allows. Neither is modelled.
- GridProps.NewGameInv: stated for square boards only. The program's
  constructor builds a board of the checked shape only when rows equal
  cols (see Findings).
- Grid.MovePlayer: requires the board to have the rows x cols shape the
  bounds check uses.
- Grid.MoveDown: requires the rows x cols board shape with the player on it,
  and one draw per column.
- Grid.Tick: requires the rows x cols board shape with the player on it,
  and one draw per column.
- Grid.Run: requires the rows x cols board shape with the player on it,
  and one draw per column on every tick.
- MonteCarlo.GameOver: requires `lastBoard` and `lastAction` to be both
  set or both cleared. Every operation of the agent keeps them that way.
- MonteCarlo.Play: requires the explore draw in [0, 1] and a sample index
  below the action count, which is what `_.random(true)` and `_.sample`
  produce.
- TemporalDifference.Play: requires the same valid draws.
- MonteCarlo.Handle: requires a paired agent and valid draws for a decision.
- MonteCarlo.Run: requires a paired agent and valid draws on every decision.
- MonteCarlo.DecideHandOff: requires a paired agent and valid draws.
- MonteCarlo.EndHandOff: requires a paired agent.
- MonteCarlo.RunAppend: requires a paired agent and valid draws on every
  decision.
- TemporalDifference.Handle: requires valid draws for a decision.
- TemporalDifference.Run: requires valid draws on every decision.
- TemporalDifference.DecideHandOff: requires valid draws.
- TemporalDifference.RunAppend: requires valid draws on every decision.
- TemporalDifference.UpdateSchedule: requires valid draws.

## Findings

| source | as written | input that shows it | evidently intended | confidence | as-written member | corrected member |
|---|---|---|---|---|---|---|
| src/BlockGrid.jsx:17-21 | The board is built as `cols` arrays of `rows` cells, and the spawn row is `board.length - 1`. Moves and falls check row < rows and col < cols. | rows = 1, cols = 2: the player spawns at row 1, which the bound row < 1 excludes. | A board of `rows` rows of `cols` cells. | medium: every board the program builds is 10 x 10, so the swap never shows there; not executed | GridProps.SpawnOutsideBounds | GridProps.NewGameIntendedInv |

On square boards the two constructors agree (`GridProps.NewGameIntendedInv`).
So the engine properties proved from `Grid.NewGame` on square boards hold
for the corrected constructor too. `GridProps.Inv` itself does not assume a
square board.
