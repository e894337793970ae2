/** What the Monte-Carlo and temporal-difference agents share around their
    value network: the fixed action list, the board encoding the network
    reads, greedy choice with ties broken by list order, the exploration
    schedule, the reward on a score change, and the per-batch score list.
    The network's output Q is a parameter `q` from input vector to value;
    `Math.exp` is a parameter `exp`. */
module Policy {
  import opened Wrappers
  import opened Grid

  /** The agent configuration props. `batchSize` and `numTrainEpisodes`
      are `None` when the prop is absent. */
  datatype Config = Config(
    learningRate: real,
    discountFactor: real,
    exploreRate: real,
    glie: bool,
    batchSize: Option<nat>,
    numTrainEpisodes: Option<nat>)

  /** `possibleActions`: a horizontal step for each of -1 and +1, then
      staying put. */
  function PossibleActions(): (acts: seq<Action>)
    ensures acts == [Action(0, -1), Action(0, 1), Action(0, 0)]
    ensures forall i :: 0 <= i < |acts| ==> acts[i].rowDelta == 0
  {
    var deltas := [-1, 1];
    seq(|deltas|, i requires 0 <= i < |deltas| => Action(0, deltas[i])) + [Action(0, 0)]
  }

  /** The cell values of one row, in order. */
  function RowValues(row: seq<Cell>): (vs: seq<int>)
    ensures |vs| == |row|
    ensures forall j :: 0 <= j < |row| ==> vs[j] == CellValue(row[j])
  {
    seq(|row|, j requires 0 <= j < |row| => CellValue(row[j]))
  }

  /** `boardToPartialState`: the board flattened row by row into cell
      values. */
  function BoardToPartialState(b: Board): (s: seq<int>)
    ensures forall k :: 0 <= k < |s| ==> 0 <= s[k] <= 3
  {
    if |b| == 0 then [] else RowValues(b[0]) + BoardToPartialState(b[1..])
  }

  /** On a `rows` x `cols` board the encoding has one value per cell. */
  lemma {:induction false} PartialStateLength(b: Board, rows: nat, cols: nat)
    requires Shaped(b, rows, cols)
    ensures |BoardToPartialState(b)| == rows * cols
    decreases rows
  {
    if rows > 0 {
      PartialStateLength(b[1..], rows - 1, cols);
      assert (rows - 1) * cols + cols == rows * cols;
    }
  }

  /** The encoding is row-major: on a `rows` x `cols` board cell (i, j)
      is encoded at index i * cols + j. */
  lemma {:induction false} PartialStateCell(b: Board, rows: nat, cols: nat, i: nat, j: nat)
    requires Shaped(b, rows, cols) && i < rows && j < cols
    ensures i * cols + j < |BoardToPartialState(b)|
    ensures BoardToPartialState(b)[i * cols + j] == CellValue(b[i][j])
    decreases i
  {
    PartialStateLength(b, rows, cols);
    var tail := b[1..];
    PartialStateLength(tail, rows - 1, cols);
    var s := BoardToPartialState(b);
    assert s == RowValues(b[0]) + BoardToPartialState(tail);
    if i > 0 {
      RowOffset(i, j, rows, cols);
      PartialStateCell(tail, rows - 1, cols, i - 1, j);
      assert tail[i - 1] == b[i];
    }
  }

  /** Index arithmetic for the row-major layout: cell (i, j) of a board
      with a row on top lies `cols` places after cell (i - 1, j) of the
      rest. */
  lemma RowOffset(i: int, j: int, rows: int, cols: int)
    requires 0 < i < rows && 0 <= j < cols
    ensures i * cols + j == cols + ((i - 1) * cols + j)
    ensures 0 <= (i - 1) * cols + j < (rows - 1) * cols
  {
    assert (i - 1) * cols >= 0;
    assert i * cols <= (rows - 1) * cols;
  }

  /** The network input for a board and an action: the encoded board
      followed by the two deltas. */
  function Input(b: Board, a: Action): (v: seq<int>)
    ensures |v| == |BoardToPartialState(b)| + 2
    ensures v[..|v| - 2] == BoardToPartialState(b)
    ensures v[|v| - 2] == a.rowDelta && v[|v| - 1] == a.colDelta
  {
    BoardToPartialState(b) + [a.rowDelta, a.colDelta]
  }

  /** `Q(board, action)`: the network's value for the pair. */
  function QValue(q: seq<int> -> real, b: Board, a: Action): real {
    q(Input(b, a))
  }

  /** `k` is the first index holding the largest value of `vals`. */
  predicate FirstMaximiser(vals: seq<real>, k: int) {
    && 0 <= k < |vals|
    && (forall j :: 0 <= j < |vals| ==> vals[j] <= vals[k])
    && (forall j :: 0 <= j < k ==> vals[j] < vals[k])
  }

  /** The scan of `_.maxBy`: left to right, a later value replaces the
      best so far only when strictly greater. */
  function FirstMax(vals: seq<real>): (k: nat)
    requires |vals| > 0
    ensures FirstMaximiser(vals, k)
    decreases |vals|
  {
    if |vals| == 1 then 0
    else
      var k := FirstMax(vals[..|vals| - 1]);
      if vals[|vals| - 1] > vals[k] then |vals| - 1 else k
  }

  /** There is only one first maximiser. */
  lemma FirstMaximiserUnique(vals: seq<real>, k: int, k': int)
    requires FirstMaximiser(vals, k) && FirstMaximiser(vals, k')
    ensures k == k'
  {
    assert vals[k] == vals[k'];
  }

  /** The values Q gives each possible action on `b`, in list order. */
  function QValues(q: seq<int> -> real, b: Board): (vs: seq<real>)
    ensures |vs| == |PossibleActions()|
    ensures forall i :: 0 <= i < |vs| ==> vs[i] == QValue(q, b, PossibleActions()[i])
  {
    var acts := PossibleActions();
    seq(|acts|, i requires 0 <= i < |acts| => QValue(q, b, acts[i]))
  }

  /** `bestAction`: the first action in list order whose Q value is the
      largest. */
  function BestAction(q: seq<int> -> real, b: Board): (a: Action)
    ensures a in PossibleActions()
    ensures forall x :: x in PossibleActions() ==> QValue(q, b, x) <= QValue(q, b, a)
    ensures exists k :: FirstMaximiser(QValues(q, b), k) && a == PossibleActions()[k]
  {
    var vs := QValues(q, b);
    var k := FirstMax(vs);
    assert FirstMaximiser(vs, k);
    PossibleActions()[k]
  }

  /** The largest Q value over the possible actions on `b`: the value of
      the greedy action. */
  function MaxQ(q: seq<int> -> real, b: Board): (m: real)
    ensures exists a :: a in PossibleActions() && m == QValue(q, b, a)
    ensures forall a :: a in PossibleActions() ==> QValue(q, b, a) <= m
  {
    var best := BestAction(q, b);
    assert best in PossibleActions() && QValue(q, b, best) == QValue(q, b, best);
    QValue(q, b, best)
  }

  /** What the model assumes of the `exp` parameter where it matters: it is
      1 at 0, positive, and increasing. */
  ghost predicate ExpLike(exp: real -> real) {
    exp(0.0) == 1.0 && forall x, y :: x <= y ==> 0.0 < exp(x) <= exp(y)
  }

  /** `decay(t, C, r)`: C * e^(-r t). For an exponential, a non-negative C
      and a non-negative rate this lies between 0 and C. */
  function Decay(exp: real -> real, t: nat, c: real, r: real): (d: real)
    ensures ExpLike(exp) && c >= 0.0 && r >= 0.0 ==> 0.0 <= d <= c
  {
    DecayBound(exp, c, -r * (t as real));
    c * exp(-r * (t as real))
  }

  /** For an exponential, C scaled by e^x for x <= 0 lies between 0 and C. */
  lemma DecayBound(exp: real -> real, c: real, x: real)
    ensures ExpLike(exp) && c >= 0.0 && x <= 0.0 ==> 0.0 <= c * exp(x) <= c
  {
    if ExpLike(exp) && c >= 0.0 && x <= 0.0 {
      ScaleBelow(c, exp(x), exp(0.0));
    }
  }

  /** Scaling by a non-negative factor keeps order and sign. */
  lemma ScaleBelow(c: real, e: real, f: real)
    requires c >= 0.0 && 0.0 < e <= f
    ensures 0.0 <= c * e <= c * f
  {
  }

  /** The decay schedule starts at C and never grows: for an exponential,
      a non-negative C and a non-negative rate, a later episode count gives
      a value no larger. */
  lemma DecaySchedule(exp: real -> real, c: real, r: real, t: nat, t': nat)
    requires ExpLike(exp) && c >= 0.0 && r >= 0.0 && t <= t'
    ensures Decay(exp, 0, c, r) == c
    ensures 0.0 <= Decay(exp, t', c, r) <= Decay(exp, t, c, r) <= c
  {
    assert -r * (0 as real) == 0.0;
    assert r * (t as real) <= r * (t' as real);
    ScaleBelow(c, exp(-r * (t' as real)), exp(-r * (t as real)));
  }

  /** An episode budget: `prop || Infinity`. */
  datatype Limit = Finite(n: nat) | Infinite

  /** A falsy prop (absent or 0) becomes the unbounded limit. */
  function LimitOf(prop: Option<nat>): (l: Limit)
    ensures l.Infinite? <==> prop.None? || prop.value == 0
    ensures l.Finite? ==> l.n == prop.value && l.n >= 1
  {
    if prop.Some? && prop.value != 0 then Finite(prop.value) else Infinite
  }

  /** `episodes < limit`, with every count below the unbounded one. */
  predicate Below(episodes: nat, l: Limit) {
    l.Infinite? || episodes < l.n
  }

  /** `episodes % batchSize === batchSize - 1`; never true when the batch
      size is unbounded. */
  predicate BatchEnd(episodes: nat, batch: Limit) {
    batch.Finite? && batch.n > 0 && episodes % batch.n == batch.n - 1
  }

  /** The training flag and the explore probability after
      `calculateExplorePercentage`. */
  datatype Exploration = Exploration(training: bool, rate: real)

  /** `calculateExplorePercentage`: training switches off for good once it
      is off or the episode budget is used up, and then nothing is
      explored; otherwise the rate decays with the episode count under
      GLIE and is the configured rate without it. */
  function ExplorePercentage(cfg: Config, exp: real -> real, training: bool, episodes: nat, budget: Limit): (x: Exploration)
    ensures x.training <==> training && Below(episodes, budget)
    ensures !x.training ==> x.rate == 0.0
    ensures x.training && cfg.glie ==> x.rate == Decay(exp, episodes, cfg.exploreRate, 0.01)
    ensures x.training && !cfg.glie ==> x.rate == cfg.exploreRate
  {
    if !training || !Below(episodes, budget) then Exploration(false, 0.0)
    else if cfg.glie then Exploration(true, Decay(exp, episodes, cfg.exploreRate, 0.01))
    else Exploration(true, cfg.exploreRate)
  }

  /** A JavaScript number read as a condition: `undefined` and 0 are false. */
  predicate Truthy(v: Option<int>) {
    v.Some? && v.value != 0
  }

  /** `getReward(score)`: ten times the score gained since the last
      decision. */
  function Reward(score: int, lastScore: int): (r: real)
    ensures score == lastScore ==> r == 0.0
    ensures score > lastScore ==> r >= 10.0
    ensures r == 10.0 * (score as real) - 10.0 * (lastScore as real)
  {
    10.0 * ((score - lastScore) as real)
  }

  /** The reward both agents give the last decision of an episode. */
  const TerminalReward: real := -10.0

  /** The random draws of one decision: `_.random(true)` in [0, 1] and the
      index `_.sample` picks from the action list. */
  datatype Draws = Draws(explore: real, sample: nat)

  predicate ValidDraws(d: Draws) {
    0.0 <= d.explore <= 1.0 && d.sample < |PossibleActions()|
  }

  /** The score list after an episode ends: the last score is appended
      when the batch size is finite, and the list is emptied at the last
      episode of each batch. */
  function BatchScores(scores: seq<Option<int>>, episodes: nat, batch: Limit, lastScore: Option<int>): (r: seq<Option<int>>)
    ensures batch.Infinite? ==> r == scores
    ensures BatchEnd(episodes, batch) ==> r == []
    ensures batch.Finite? && !BatchEnd(episodes, batch) ==> r == scores + [lastScore]
  {
    var pushed := if batch.Finite? then scores + [lastScore] else scores;
    if BatchEnd(episodes, batch) then [] else pushed
  }

  /** `x % n` is the remainder of any division of `x` by `n`. */
  lemma ModOfDivision(x: int, n: int, q: int, s: int)
    requires n > 0 && 0 <= s < n && x == q * n + s
    ensures x % n == s
  {
    var d := q - x / n;
    assert x == (x / n) * n + x % n;
    assert d * n == x % n - s;
    assert d >= 1 ==> d * n >= n;
    assert d <= -1 ==> d * n <= -n;
  }

  /** With a finite batch size the list holds exactly the scores of the
      current batch: its length is the episode count modulo the batch
      size, before and after an episode ends. */
  lemma BatchScoresCount(scores: seq<Option<int>>, episodes: nat, batch: Limit, lastScore: Option<int>)
    requires batch.Finite? && batch.n >= 1 && |scores| == episodes % batch.n
    ensures |BatchScores(scores, episodes, batch, lastScore)| == (episodes + 1) % batch.n
  {
    var n := batch.n;
    var q := episodes / n;
    assert episodes == q * n + episodes % n;
    if episodes % n == n - 1 {
      ModOfDivision(episodes + 1, n, q + 1, 0);
    } else {
      ModOfDivision(episodes + 1, n, q, episodes % n + 1);
    }
  }

  /** Concatenation regroups freely; runs that split an event sequence
      rejoin their outputs with it. */
  lemma ConcatAssoc<T>(a: seq<T>, b: seq<T>, c: seq<T>)
    ensures a + (b + c) == (a + b) + c
  {
  }
}
