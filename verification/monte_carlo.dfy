/** The Monte-Carlo agent's bookkeeping: it records one transition per
    decision while training, turns a finished episode into discounted
    returns pushed onto the replay buffer, picks how many experiences to
    replay, and resets its per-episode state. The network itself is the
    parameter `q`. The evolution step's internals are not modelled: the
    network it produces arrives with the episode end, and the end is one
    atomic "push returns, then reset". */
module MonteCarlo {
  import opened Wrappers
  import opened Grid
  import opened Policy

  /** One entry of `episodeRewards`. */
  datatype Transition = Transition(state: Board, action: Action, reward: real)

  /** One entry of the replay buffer: network input and target return. */
  datatype Experience = Experience(input: seq<int>, output: real)

  /** The agent's fields. `lastScore` is `None` before the first decision
      (the program leaves it `undefined`). */
  datatype Agent = Agent(
    episodes: nat,
    scores: seq<Option<int>>,
    episodeRewards: seq<Transition>,
    replay: seq<Experience>,
    batchSize: Limit,
    numTrainEpisodes: Limit,
    training: bool,
    lastBoard: Option<Board>,
    lastAction: Option<Action>,
    lastScore: Option<int>)

  /** `lastBoard` and `lastAction` are set and cleared together. */
  predicate Paired(s: Agent) {
    s.lastBoard.Some? <==> s.lastAction.Some?
  }

  /** The constructor: no episodes, empty lists, falsy budgets read as
      unbounded, and training on. */
  function Init(cfg: Config): (s: Agent)
    ensures s.episodes == 0 && s.scores == [] && s.episodeRewards == [] && s.replay == []
    ensures s.batchSize == LimitOf(cfg.batchSize) && s.numTrainEpisodes == LimitOf(cfg.numTrainEpisodes)
    ensures s.training
    ensures s.lastBoard.None? && s.lastAction.None? && s.lastScore.None?
    ensures Paired(s)
  {
    var budget := LimitOf(cfg.numTrainEpisodes);
    Agent(0, [], [], [], LimitOf(cfg.batchSize), budget, Below(0, budget), None, None, None)
  }

  /** A decision records the previous transition only while training and
      with `lastBoard`, `lastAction` and `lastScore` all truthy. */
  predicate Records(s: Agent) {
    s.training && s.lastBoard.Some? && s.lastAction.Some? && Truthy(s.lastScore)
  }

  datatype Decision = Decision(agent: Agent, action: Action)

  /** `play`: record the previous transition when allowed, update the
      exploration schedule, choose the greedy action unless the draw falls
      below the explore rate, and remember board, action and score. */
  function Play(cfg: Config, exp: real -> real, q: seq<int> -> real, s: Agent, board: Board, score: int, d: Draws): (r: Decision)
    requires ValidDraws(d)
    ensures Records(s) ==>
      r.agent.episodeRewards == s.episodeRewards + [Transition(s.lastBoard.value, s.lastAction.value, Reward(score, s.lastScore.value))]
    ensures !Records(s) ==> r.agent.episodeRewards == s.episodeRewards
    ensures r.agent.training <==> s.training && Below(s.episodes, s.numTrainEpisodes)
    ensures var x := ExplorePercentage(cfg, exp, s.training, s.episodes, s.numTrainEpisodes);
      r.action == if d.explore < x.rate then PossibleActions()[d.sample] else BestAction(q, board)
    ensures !r.agent.training ==> r.action == BestAction(q, board)
    ensures r.action in PossibleActions()
    ensures r.agent.lastBoard == Some(board) && r.agent.lastAction == Some(r.action) && r.agent.lastScore == Some(score)
    ensures r.agent.episodes == s.episodes && r.agent.scores == s.scores && r.agent.replay == s.replay
    ensures r.agent.batchSize == s.batchSize && r.agent.numTrainEpisodes == s.numTrainEpisodes
  {
    var rewards :=
      if Records(s) then s.episodeRewards + [Transition(s.lastBoard.value, s.lastAction.value, Reward(score, s.lastScore.value))]
      else s.episodeRewards;
    var x := ExplorePercentage(cfg, exp, s.training, s.episodes, s.numTrainEpisodes);
    var greedy := BestAction(q, board);
    var action := if d.explore < x.rate then PossibleActions()[d.sample] else greedy;
    Decision(
      s.(episodeRewards := rewards, training := x.training,
         lastBoard := Some(board), lastAction := Some(action), lastScore := Some(score)),
      action)
  }

  /** The discounted return from step `i` to the end of the episode:
      G_i = r_i + gamma * G_(i+1), and G_n = 0. */
  function Return(ep: seq<Transition>, gamma: real, i: nat): real
    requires i <= |ep|
    decreases |ep| - i
  {
    if i == |ep| then 0.0 else ep[i].reward + gamma * Return(ep, gamma, i + 1)
  }

  /** The experience one transition gives: its encoded state and action
      as input, and the return `ret` as output. */
  function StepExperience(t: Transition, ret: real): Experience {
    Experience(Input(t.state, t.action), ret)
  }

  /** The loop of `evolveNetwork` from index `idx` down to 0, `cum` being
      the running return of the transitions after `idx`. */
  function Backward(ep: seq<Transition>, gamma: real, idx: int, cum: real): seq<Experience>
    requires -1 <= idx < |ep|
    decreases idx + 1
  {
    if idx < 0 then []
    else
      var c := ep[idx].reward + gamma * cum;
      [StepExperience(ep[idx], c)] + Backward(ep, gamma, idx - 1, c)
  }

  /** The loop from `idx` down produces one experience per step. */
  lemma {:induction false} BackwardLength(ep: seq<Transition>, gamma: real, idx: int, cum: real)
    requires -1 <= idx < |ep|
    ensures |Backward(ep, gamma, idx, cum)| == idx + 1
    decreases idx + 1
  {
    if idx >= 0 {
      BackwardLength(ep, gamma, idx - 1, ep[idx].reward + gamma * cum);
    }
  }

  /** Started with the return `cum` of the steps after `idx`, the loop
      produces step idx - k as its k-th experience, with that step's
      return. */
  lemma {:induction false} BackwardAt(ep: seq<Transition>, gamma: real, idx: int, cum: real, k: nat)
    requires -1 <= idx < |ep| && cum == Return(ep, gamma, idx + 1) && k <= idx
    ensures k < |Backward(ep, gamma, idx, cum)|
    ensures Backward(ep, gamma, idx, cum)[k] == StepExperience(ep[idx - k], Return(ep, gamma, idx - k))
    decreases k
  {
    BackwardLength(ep, gamma, idx, cum);
    var c := Return(ep, gamma, idx);
    assert c == ep[idx].reward + gamma * cum;
    var rest := Backward(ep, gamma, idx - 1, c);
    var xs := Backward(ep, gamma, idx, cum);
    assert xs == [StepExperience(ep[idx], c)] + rest;
    if k > 0 {
      BackwardAt(ep, gamma, idx - 1, c, k - 1);
      assert xs[k] == rest[k - 1];
    }
  }

  /** `BackwardAt` for every step at once. */
  lemma BackwardReturns(ep: seq<Transition>, gamma: real, idx: int, cum: real)
    requires -1 <= idx < |ep| && cum == Return(ep, gamma, idx + 1)
    ensures |Backward(ep, gamma, idx, cum)| == idx + 1
    ensures forall k :: 0 <= k <= idx ==>
      Backward(ep, gamma, idx, cum)[k] == StepExperience(ep[idx - k], Return(ep, gamma, idx - k))
  {
    BackwardLength(ep, gamma, idx, cum);
    forall k | 0 <= k <= idx
      ensures Backward(ep, gamma, idx, cum)[k] == StepExperience(ep[idx - k], Return(ep, gamma, idx - k))
    {
      BackwardAt(ep, gamma, idx, cum, k);
    }
  }

  /** The experiences one episode pushes, last transition first: each
      input is the encoded state followed by the action's deltas, and each
      output is the discounted return from that step. */
  function Experiences(ep: seq<Transition>, gamma: real): (xs: seq<Experience>)
    ensures |xs| == |ep|
    ensures forall k :: 0 <= k < |ep| ==>
      xs[k] == Experience(Input(ep[|ep| - 1 - k].state, ep[|ep| - 1 - k].action), Return(ep, gamma, |ep| - 1 - k))
  {
    BackwardReturns(ep, gamma, |ep| - 1, 0.0);
    Backward(ep, gamma, |ep| - 1, 0.0)
  }

  /** x to the power n. */
  function Pow(x: real, n: nat): real {
    if n == 0 then 1.0 else x * Pow(x, n - 1)
  }

  /** The sum of gamma^(k-i) * r_k for i <= k < n, built from the end. */
  function WeightedSum(ep: seq<Transition>, gamma: real, i: nat, n: nat): real
    requires i <= n <= |ep|
    decreases n - i
  {
    if n == i then 0.0 else WeightedSum(ep, gamma, i, n - 1) + Pow(gamma, n - 1 - i) * ep[n - 1].reward
  }

  /** Peeling the first term off a weighted sum. */
  lemma {:induction false} WeightedSumHead(ep: seq<Transition>, gamma: real, i: nat, n: nat)
    requires i < n <= |ep|
    ensures WeightedSum(ep, gamma, i, n) == ep[i].reward + gamma * WeightedSum(ep, gamma, i + 1, n)
    decreases n
  {
    if n > i + 1 {
      WeightedSumHead(ep, gamma, i, n - 1);
      var k: nat := n - 2 - i;
      FactorDiscount(
        WeightedSum(ep, gamma, i, n - 1), ep[i].reward, gamma, WeightedSum(ep, gamma, i + 1, n - 1),
        Pow(gamma, k), ep[n - 1].reward, WeightedSum(ep, gamma, i + 1, n), WeightedSum(ep, gamma, i, n),
        Pow(gamma, k + 1));
    }
  }

  /** The algebra of peeling: if s = r + g a, w1 = a + p l and
      w0 = s + (g p) l, then w0 = r + g w1. */
  lemma FactorDiscount(s: real, r: real, g: real, a: real, p: real, l: real, w1: real, w0: real, gp: real)
    requires s == r + g * a && w1 == a + p * l && gp == g * p && w0 == s + gp * l
    ensures w0 == r + g * w1
  {
    assert gp * l == g * (p * l);
  }

  /** The return from step i is the discounted sum of the rewards from
      step i on: G_i = sum over k >= i of gamma^(k-i) * r_k. */
  lemma {:induction false} ReturnIsDiscountedSum(ep: seq<Transition>, gamma: real, i: nat)
    requires i <= |ep|
    ensures Return(ep, gamma, i) == WeightedSum(ep, gamma, i, |ep|)
    decreases |ep| - i
  {
    if i < |ep| {
      ReturnIsDiscountedSum(ep, gamma, i + 1);
      WeightedSumHead(ep, gamma, i, |ep|);
    }
  }

  /** The smallest integer at or above `x`. */
  function Ceil(x: real): (n: int)
    ensures n as real - 1.0 < x <= n as real
  {
    -((-x).Floor)
  }

  function Abs(x: real): (y: real)
    ensures y >= 0.0 && (y == x || y == -x)
  {
    if x < 0.0 then -x else x
  }

  /** The number of experiences replayed: ceil(|z|) for the normal draw
      `z`, capped at the buffer length, with 0 replaced by 1. */
  function ReplayCount(z: real, len: nat): (n: nat)
    ensures n >= 1
    ensures len > 0 ==> n <= len
    ensures 1 <= Ceil(Abs(z)) <= len ==> n == Ceil(Abs(z))
    ensures Ceil(Abs(z)) > len > 0 ==> n == len
    ensures Ceil(Abs(z)) == 0 || len == 0 ==> n == 1
  {
    var m := if Ceil(Abs(z)) < len then Ceil(Abs(z)) else len;
    if m == 0 then 1 else m
  }

  /** `reset`: the score list is updated for the batch, and at the end of
      a batch the explore schedule is consulted (which may switch training
      off); the last decision is forgotten, the episode's transitions are
      dropped and the episode count goes up by one. */
  function Reset(cfg: Config, exp: real -> real, s: Agent): (s': Agent)
    ensures s'.episodes == s.episodes + 1
    ensures s'.lastBoard.None? && s'.lastAction.None? && s'.lastScore == Some(0)
    ensures s'.episodeRewards == []
    ensures s'.scores == BatchScores(s.scores, s.episodes, s.batchSize, s.lastScore)
    ensures s'.training <==> s.training && (!BatchEnd(s.episodes, s.batchSize) || Below(s.episodes, s.numTrainEpisodes))
    ensures s'.replay == s.replay && s'.batchSize == s.batchSize && s'.numTrainEpisodes == s.numTrainEpisodes
    ensures Paired(s')
  {
    var training :=
      if BatchEnd(s.episodes, s.batchSize) then ExplorePercentage(cfg, exp, s.training, s.episodes, s.numTrainEpisodes).training
      else s.training;
    s.(scores := BatchScores(s.scores, s.episodes, s.batchSize, s.lastScore),
       training := training,
       lastBoard := None, lastAction := None, lastScore := Some(0),
       episodeRewards := [],
       episodes := s.episodes + 1)
  }

  /** An episode end that succeeded: the agent after its reset, and how
      many experiences were replayed when it trained. */
  datatype Finish = Finish(agent: Agent, replays: Option<nat>)

  /** `gameOver`. While training it appends the terminal transition with
      reward -10, pushes the episode's experiences onto the replay buffer,
      chooses the replay count and then resets; with no last action the
      program fails reading its deltas. Not training, it only resets. */
  function GameOver(cfg: Config, exp: real -> real, s: Agent, z: real): (r: Result<Finish>)
    requires Paired(s)
    ensures r.Failure? <==> s.training && s.lastAction.None?
    ensures r.Success? && !s.training ==> r.value.agent == Reset(cfg, exp, s) && r.value.replays.None?
    ensures r.Success? && s.training ==>
      var ep := s.episodeRewards + [Transition(s.lastBoard.value, s.lastAction.value, TerminalReward)];
      && r.value.agent.replay == s.replay + Experiences(ep, cfg.discountFactor)
      && r.value.replays == Some(ReplayCount(z, |r.value.agent.replay|))
      && r.value.agent == Reset(cfg, exp, s.(episodeRewards := ep, replay := r.value.agent.replay))
    ensures r.Success? && s.training ==>
      && |r.value.agent.replay| == |s.replay| + |s.episodeRewards| + 1
      && r.value.agent.replay[|s.replay|] ==
         Experience(Input(s.lastBoard.value, s.lastAction.value), TerminalReward)
    ensures r.Success? ==>
      && r.value.agent.episodes == s.episodes + 1
      && r.value.agent.episodeRewards == []
      && r.value.agent.lastBoard.None? && r.value.agent.lastAction.None? && r.value.agent.lastScore == Some(0)
      && Paired(r.value.agent)
  {
    if !s.training then
      Success(Finish(Reset(cfg, exp, s), None))
    else if s.lastAction.None? then
      Failure("TypeError: cannot read rowDelta of null")
    else
      var ep := s.episodeRewards + [Transition(s.lastBoard.value, s.lastAction.value, TerminalReward)];
      var replay := s.replay + Experiences(ep, cfg.discountFactor);
      assert Return(ep, cfg.discountFactor, |ep| - 1) == TerminalReward;
      Success(Finish(Reset(cfg, exp, s.(episodeRewards := ep, replay := replay)), Some(ReplayCount(z, |replay|))))
  }

  /** What the agent sees: a decision request or the end of an episode,
      with the random draws each consumes. An episode end also carries the
      network as the evolution step leaves it, which replaces the current
      one when the agent was training. */
  datatype Event =
    | Decide(board: Board, score: int, draws: Draws)
    | End(z: real, evolved: seq<int> -> real)

  predicate ValidEvents(evs: seq<Event>) {
    forall i :: 0 <= i < |evs| && evs[i].Decide? ==> ValidDraws(evs[i].draws)
  }

  /** Dropping the first event keeps every draw valid. */
  lemma ValidEventsTail(evs: seq<Event>)
    requires |evs| > 0 && ValidEvents(evs)
    ensures ValidEvents(evs[1..])
  {
    forall i | 0 <= i < |evs[1..]| && evs[1..][i].Decide?
      ensures ValidDraws(evs[1..][i].draws)
    {
      assert evs[1..][i] == evs[i + 1];
    }
  }

  /** A successful stretch of events: the agent after it, the actions its
      decisions chose in order, and the network the next event sees. */
  datatype Trace = Trace(agent: Agent, actions: seq<Action>, net: seq<int> -> real)

  /** One event: a decision runs `play` and chooses with `q`; an episode
      end runs `gameOver`, after which the evolved network replaces `q` when
      the agent was training. */
  function Handle(cfg: Config, exp: real -> real, q: seq<int> -> real, s: Agent, e: Event): (r: Result<Trace>)
    requires Paired(s) && (e.Decide? ==> ValidDraws(e.draws))
    ensures r.Success? ==> Paired(r.value.agent) && r.value.agent.episodes >= s.episodes
    ensures r.Success? ==> |r.value.actions| == (if e.Decide? then 1 else 0)
    ensures r.Failure? ==> e.End?
  {
    match e
    case Decide(board, score, d) =>
      var p := Play(cfg, exp, q, s, board, score, d);
      Success(Trace(p.agent, [p.action], q))
    case End(z, evolved) =>
      match GameOver(cfg, exp, s, z)
      case Failure(err) => Failure(err)
      case Success(f) => Success(Trace(f.agent, [], if s.training then evolved else q))
  }

  /** The agent over a sequence of events, starting from the network `q`;
      a failing episode end stops it. */
  function Run(cfg: Config, exp: real -> real, q: seq<int> -> real, s: Agent, evs: seq<Event>): (r: Result<Trace>)
    requires Paired(s) && ValidEvents(evs)
    ensures r.Success? ==> Paired(r.value.agent) && r.value.agent.episodes >= s.episodes
    ensures r.Success? ==> |r.value.actions| <= |evs|
    decreases |evs|
  {
    if |evs| == 0 then Success(Trace(s, [], q))
    else
      ValidEventsTail(evs);
      match Handle(cfg, exp, q, s, evs[0])
      case Failure(err) => Failure(err)
      case Success(h) =>
        match Run(cfg, exp, h.net, h.agent, evs[1..])
        case Failure(err) => Failure(err)
        case Success(t) => Success(Trace(t.agent, h.actions + t.actions, t.net))
  }

  /** One decision always succeeds, chooses greedily under the current
      network unless it explores, and hands that same network on. */
  lemma DecideHandOff(cfg: Config, exp: real -> real, q: seq<int> -> real, s: Agent, board: Board, score: int, d: Draws)
    requires Paired(s) && ValidDraws(d)
    ensures ValidEvents([Decide(board, score, d)])
    ensures var r := Run(cfg, exp, q, s, [Decide(board, score, d)]);
      && r.Success? && r.value.net == q
      && r.value.agent == Play(cfg, exp, q, s, board, score, d).agent
      && |r.value.actions| == 1 && r.value.agent.lastAction == Some(r.value.actions[0])
      && (d.explore >= ExplorePercentage(cfg, exp, s.training, s.episodes, s.numTrainEpisodes).rate ==>
            r.value.actions[0] == BestAction(q, board))
  {
    var evs := [Decide(board, score, d)];
    assert evs[1..] == [];
  }

  /** One episode end fails exactly when training with no last action;
      otherwise later events see the evolved network iff the agent was
      training. */
  lemma EndHandOff(cfg: Config, exp: real -> real, q: seq<int> -> real, s: Agent, z: real, evolved: seq<int> -> real)
    requires Paired(s)
    ensures ValidEvents([End(z, evolved)])
    ensures var r := Run(cfg, exp, q, s, [End(z, evolved)]);
      && (r.Failure? <==> s.training && s.lastAction.None?)
      && (r.Success? ==>
            && r.value.agent == GameOver(cfg, exp, s, z).value.agent
            && r.value.actions == []
            && r.value.net == (if s.training then evolved else q))
  {
    var evs := [End(z, evolved)];
    assert evs[1..] == [];
  }

  /** A run is the composition of its parts: running `evs1 ++ evs2` fails
      where `evs1` fails, and otherwise runs `evs2` from the agent and the
      network `evs1` ended with, concatenating the actions. */
  lemma {:induction false} RunAppend(cfg: Config, exp: real -> real, q: seq<int> -> real, s: Agent,
                                     evs1: seq<Event>, evs2: seq<Event>)
    requires Paired(s) && ValidEvents(evs1) && ValidEvents(evs2)
    ensures ValidEvents(evs1 + evs2)
    ensures var r1 := Run(cfg, exp, q, s, evs1);
      var r := Run(cfg, exp, q, s, evs1 + evs2);
      && (r1.Failure? ==> r.Failure? && r.error == r1.error)
      && (r1.Success? ==>
            var r2 := Run(cfg, exp, r1.value.net, r1.value.agent, evs2);
            && (r.Success? <==> r2.Success?)
            && (r.Failure? ==> r.error == r2.error)
            && (r.Success? ==>
                  && r.value.agent == r2.value.agent && r.value.net == r2.value.net
                  && r.value.actions == r1.value.actions + r2.value.actions))
    decreases |evs1|
  {
    var evs := evs1 + evs2;
    forall i | 0 <= i < |evs| && evs[i].Decide?
      ensures ValidDraws(evs[i].draws)
    {
      if i < |evs1| {
        assert evs[i] == evs1[i];
      } else {
        assert evs[i] == evs2[i - |evs1|];
      }
    }
    if |evs1| == 0 {
      assert evs == evs2;
    } else {
      ValidEventsTail(evs1);
      assert evs[0] == evs1[0];
      assert evs[1..] == evs1[1..] + evs2;
      var hr := Handle(cfg, exp, q, s, evs1[0]);
      if hr.Success? {
        var h := hr.value;
        RunAppend(cfg, exp, h.net, h.agent, evs1[1..], evs2);
        var rest1 := Run(cfg, exp, h.net, h.agent, evs1[1..]);
        if rest1.Success? {
          var r2 := Run(cfg, exp, rest1.value.net, rest1.value.agent, evs2);
          if r2.Success? {
            ConcatAssoc(h.actions, rest1.value.actions, r2.value.actions);
          }
        }
      }
    }
  }

  /** Once training is off it stays off, no episode end fails, and the
      replay buffer never changes again. */
  lemma {:induction false} TrainingStaysOff(cfg: Config, exp: real -> real, q: seq<int> -> real, s: Agent, evs: seq<Event>)
    requires Paired(s) && ValidEvents(evs) && !s.training
    ensures Run(cfg, exp, q, s, evs).Success?
    ensures !Run(cfg, exp, q, s, evs).value.agent.training
    ensures Run(cfg, exp, q, s, evs).value.agent.replay == s.replay
    decreases |evs|
  {
    if |evs| > 0 {
      ValidEventsTail(evs);
      var h := Handle(cfg, exp, q, s, evs[0]);
      assert h.Success? && !h.value.agent.training && h.value.agent.replay == s.replay;
      TrainingStaysOff(cfg, exp, h.value.net, h.value.agent, evs[1..]);
    }
  }

  /** The first decision after a reset records nothing, because the reset
      sets `lastScore` to 0; the next one records exactly when that first
      decision saw a non-zero score. */
  lemma FirstDecisionRecordsNothing(cfg: Config, exp: real -> real, q: seq<int> -> real, s: Agent,
                                    b1: Board, score1: int, d1: Draws, b2: Board, score2: int, d2: Draws)
    requires ValidDraws(d1) && ValidDraws(d2)
    ensures var s1 := Play(cfg, exp, q, Reset(cfg, exp, s), b1, score1, d1).agent;
      && s1.episodeRewards == []
      && (|Play(cfg, exp, q, s1, b2, score2, d2).agent.episodeRewards| == 1 <==> s1.training && score1 != 0)
  {
  }
}
