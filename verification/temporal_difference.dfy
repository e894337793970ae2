/** The temporal-difference agent's bookkeeping: while training, each
    decision issues one network update toward the one-step target
    reward + gamma * max Q(next, .), and each episode end issues one
    update toward the terminal reward. The network is the parameter `q`;
    an update is returned as the input, target and learning rate the
    program hands to `propagate`. */
module TemporalDifference {
  import opened Wrappers
  import opened Grid
  import opened Policy

  /** The agent's fields. `lastScore` is `None` before the first decision
      (the program leaves it `undefined`). */
  datatype Agent = Agent(
    episodes: nat,
    scores: seq<Option<int>>,
    batchSize: Limit,
    numTrainEpisodes: Limit,
    training: bool,
    lastBoard: Option<Board>,
    lastAction: Option<Action>,
    lastScore: Option<int>)

  /** One network training step: activate on `input`, then propagate
      toward `target` with learning rate `rate`. */
  datatype Update = Update(input: seq<int>, target: real, rate: real)

  /** The constructor: falsy budgets read as unbounded, so training
      starts on. */
  function Init(cfg: Config): (s: Agent)
    ensures s.episodes == 0 && s.scores == []
    ensures s.batchSize == LimitOf(cfg.batchSize) && s.numTrainEpisodes == LimitOf(cfg.numTrainEpisodes)
    ensures s.training
    ensures s.lastBoard.None? && s.lastAction.None? && s.lastScore.None?
  {
    var budget := LimitOf(cfg.numTrainEpisodes);
    Agent(0, [], LimitOf(cfg.batchSize), budget, Below(0, budget), None, None, None)
  }

  /** The learning rate after `episodes` episodes: learningRate * e^(-0.01 t).
      For an exponential and a non-negative configured rate it never exceeds
      the configured rate and never goes negative. */
  function LearningRate(cfg: Config, exp: real -> real, episodes: nat): (rate: real)
    ensures ExpLike(exp) && cfg.learningRate >= 0.0 ==> 0.0 <= rate <= cfg.learningRate
  {
    Decay(exp, episodes, cfg.learningRate, 0.01)
  }

  /** The learning rate starts at the configured rate and does not grow
      from one episode to a later one. */
  lemma LearningRateDecays(cfg: Config, exp: real -> real, episodes: nat, later: nat)
    requires ExpLike(exp) && cfg.learningRate >= 0.0 && episodes <= later
    ensures LearningRate(cfg, exp, 0) == cfg.learningRate
    ensures LearningRate(cfg, exp, later) <= LearningRate(cfg, exp, episodes)
  {
    DecaySchedule(exp, cfg.learningRate, 0.01, episodes, later);
  }

  /** The one-step target `reward + discountFactor * Q(nextBoard,
      bestAction(nextBoard))`: the reward plus the discounted largest Q
      value on the next board. */
  function Target(discount: real, q: seq<int> -> real, reward: real, next: Board): (t: real)
    ensures t == reward + discount * MaxQ(q, next)
  {
    var bestQ := QValue(q, next, BestAction(q, next));
    DiscountCongruence(reward, discount, bestQ, MaxQ(q, next));
    reward + discount * bestQ
  }

  /** Equal values give equal discounted returns. */
  lemma DiscountCongruence(reward: real, discount: real, x: real, y: real)
    requires x == y
    ensures reward + discount * x == reward + discount * y
  {
  }

  /** `updateQ(board, action, reward, nextBoard)`: activate on the previous
      board and action, then train toward the one-step target at the
      decayed learning rate. */
  function UpdateQ(cfg: Config, exp: real -> real, q: seq<int> -> real, episodes: nat,
                   board: Board, action: Action, reward: real, next: Board): (u: Update)
    ensures u.input == Input(board, action)
    ensures u.rate == LearningRate(cfg, exp, episodes)
    ensures u.target == Target(cfg.discountFactor, q, reward, next)
  {
    Update(Input(board, action), Target(cfg.discountFactor, q, reward, next), LearningRate(cfg, exp, episodes))
  }

  /** A decision trains on the previous transition only while training and
      with `lastBoard`, `lastAction` and `lastScore` all truthy. */
  predicate Updates(s: Agent) {
    s.training && s.lastBoard.Some? && s.lastAction.Some? && Truthy(s.lastScore)
  }

  datatype Decision = Decision(agent: Agent, action: Action, update: Option<Update>)

  /** `play`: train on the previous transition when allowed, with reward
      ten times the score gained; update the exploration schedule; choose
      the greedy action unless the draw falls below the explore rate; and
      remember copies of board and action, and the score. The update's
      target is computed with the network `q` as it was before the call;
      `trained` is the network as `propagate` leaves it, which the greedy
      choice reads when an update was issued. */
  function Play(cfg: Config, exp: real -> real, q: seq<int> -> real, trained: seq<int> -> real,
                s: Agent, board: Board, score: int, d: Draws): (r: Decision)
    requires ValidDraws(d)
    ensures r.update.Some? <==> Updates(s)
    ensures Updates(s) ==>
      r.update.value == UpdateQ(cfg, exp, q, s.episodes, s.lastBoard.value, s.lastAction.value, Reward(score, s.lastScore.value), board)
    ensures r.agent.training <==> s.training && Below(s.episodes, s.numTrainEpisodes)
    ensures var x := ExplorePercentage(cfg, exp, s.training, s.episodes, s.numTrainEpisodes);
      var net := if Updates(s) then trained else q;
      r.action == if d.explore < x.rate then PossibleActions()[d.sample] else BestAction(net, board)
    ensures !r.agent.training ==> r.action == BestAction(if Updates(s) then trained else q, board)
    ensures !s.training ==> r.update.None? && r.action == BestAction(q, board)
    ensures r.action in PossibleActions()
    ensures r.agent.lastBoard == Some(board) && r.agent.lastAction == Some(r.action) && r.agent.lastScore == Some(score)
    ensures r.agent.episodes == s.episodes && r.agent.scores == s.scores
    ensures r.agent.batchSize == s.batchSize && r.agent.numTrainEpisodes == s.numTrainEpisodes
  {
    var update :=
      if Updates(s) then Some(UpdateQ(cfg, exp, q, s.episodes, s.lastBoard.value, s.lastAction.value, Reward(score, s.lastScore.value), board))
      else None;
    var net := if update.Some? then trained else q;
    var x := ExplorePercentage(cfg, exp, s.training, s.episodes, s.numTrainEpisodes);
    var action := if d.explore < x.rate then PossibleActions()[d.sample] else BestAction(net, board);
    Decision(
      s.(training := x.training, lastBoard := Some(board), lastAction := Some(action), lastScore := Some(score)),
      action,
      update)
  }

  /** `reset`: the score list is updated for the batch, the last decision
      is forgotten and the episode count goes up by one. */
  function Reset(s: Agent): (s': Agent)
    ensures s'.episodes == s.episodes + 1
    ensures s'.lastBoard.None? && s'.lastAction.None? && s'.lastScore == Some(0)
    ensures s'.scores == BatchScores(s.scores, s.episodes, s.batchSize, s.lastScore)
    ensures s'.training == s.training && s'.batchSize == s.batchSize && s'.numTrainEpisodes == s.numTrainEpisodes
  {
    s.(scores := BatchScores(s.scores, s.episodes, s.batchSize, s.lastScore),
       lastBoard := None, lastAction := None, lastScore := Some(0),
       episodes := s.episodes + 1)
  }

  datatype Finish = Finish(agent: Agent, update: Option<Update>)

  /** `gameOver`: while training and with a last board and action, train
      Q(lastBoard, lastAction) toward the fixed target -10 at the current
      learning rate; then reset in every case. */
  function GameOver(cfg: Config, exp: real -> real, s: Agent): (r: Finish)
    ensures r.update.Some? <==> s.training && s.lastBoard.Some? && s.lastAction.Some?
    ensures r.update.Some? ==>
      r.update.value == Update(Input(s.lastBoard.value, s.lastAction.value), TerminalReward, LearningRate(cfg, exp, s.episodes))
    ensures r.agent == Reset(s)
  {
    var update :=
      if s.training && s.lastBoard.Some? && s.lastAction.Some? then
        Some(Update(Input(s.lastBoard.value, s.lastAction.value), TerminalReward, LearningRate(cfg, exp, s.episodes)))
      else None;
    Finish(Reset(s), update)
  }

  /** What the agent sees: a decision request or the end of an episode.
      Each carries the network as `propagate` leaves it should the event
      issue an update. */
  datatype Event =
    | Decide(board: Board, score: int, draws: Draws, trained: seq<int> -> real)
    | End(trained: seq<int> -> real)

  predicate ValidEvents(evs: seq<Event>) {
    forall i :: 0 <= i < |evs| && evs[i].Decide? ==> ValidDraws(evs[i].draws)
  }

  /** Dropping the first event keeps every draw valid. */
  lemma ValidEventsTail(evs: seq<Event>)
    requires |evs| > 0 && ValidEvents(evs)
    ensures ValidEvents(evs[1..])
  {
    forall i | 0 <= i < |evs[1..]| && evs[1..][i].Decide?
      ensures ValidDraws(evs[1..][i].draws)
    {
      assert evs[1..][i] == evs[i + 1];
    }
  }

  /** The agent over a sequence of events: the updates it issued and the
      actions it chose, both in order, and the network the next event will
      see. `q` is the network before the first event; each issued update
      replaces it with that event's trained network. */
  datatype Trace = Trace(agent: Agent, updates: seq<Update>, actions: seq<Action>, net: seq<int> -> real)

  /** One event: a decision runs `play`, an episode end runs `gameOver`.
      The trace holds what the event issued and chose, and the network
      the next event sees: the event's trained network when an update was
      issued, `q` otherwise. */
  function Handle(cfg: Config, exp: real -> real, q: seq<int> -> real, s: Agent, e: Event): (t: Trace)
    requires e.Decide? ==> ValidDraws(e.draws)
    ensures t.agent.episodes >= s.episodes
    ensures t.agent.training ==> s.training
    ensures |t.updates| <= 1 && |t.actions| == (if e.Decide? then 1 else 0)
    ensures forall i :: 0 <= i < |t.actions| ==> t.actions[i] in PossibleActions()
  {
    match e
    case Decide(board, score, d, trained) =>
      var r := Play(cfg, exp, q, trained, s, board, score, d);
      Trace(r.agent, if r.update.Some? then [r.update.value] else [], [r.action], if r.update.Some? then trained else q)
    case End(trained) =>
      var f := GameOver(cfg, exp, s);
      Trace(f.agent, if f.update.Some? then [f.update.value] else [], [], if f.update.Some? then trained else q)
  }

  function Run(cfg: Config, exp: real -> real, q: seq<int> -> real, s: Agent, evs: seq<Event>): (t: Trace)
    requires ValidEvents(evs)
    ensures t.agent.episodes >= s.episodes
    ensures t.agent.training ==> s.training
    ensures forall i :: 0 <= i < |t.actions| ==> t.actions[i] in PossibleActions()
    decreases |evs|
  {
    if |evs| == 0 then Trace(s, [], [], q)
    else
      ValidEventsTail(evs);
      var h := Handle(cfg, exp, q, s, evs[0]);
      var t := Run(cfg, exp, h.net, h.agent, evs[1..]);
      Trace(t.agent, h.updates + t.updates, h.actions + t.actions, t.net)
  }

  /** One decision: its update's target reads the network the decision
      started with, and its greedy choice, like every later event, reads
      the network as `propagate` left it when an update was issued. */
  lemma DecideHandOff(cfg: Config, exp: real -> real, q: seq<int> -> real, s: Agent,
                      board: Board, score: int, d: Draws, trained: seq<int> -> real)
    requires ValidDraws(d)
    ensures ValidEvents([Decide(board, score, d, trained)])
    ensures var t := Run(cfg, exp, q, s, [Decide(board, score, d, trained)]);
      && t.net == (if Updates(s) then trained else q)
      && t.updates == (if Updates(s) then
           [UpdateQ(cfg, exp, q, s.episodes, s.lastBoard.value, s.lastAction.value, Reward(score, s.lastScore.value), board)]
         else [])
      && |t.actions| == 1 && t.agent.lastAction == Some(t.actions[0])
      && (d.explore >= ExplorePercentage(cfg, exp, s.training, s.episodes, s.numTrainEpisodes).rate ==>
            t.actions[0] == BestAction(t.net, board))
  {
    var evs := [Decide(board, score, d, trained)];
    assert evs[1..] == [];
  }

  /** One episode end: the terminal update is issued iff training with a
      last board and action, and only then do later events see the
      trained network. */
  lemma EndHandOff(cfg: Config, exp: real -> real, q: seq<int> -> real, s: Agent, trained: seq<int> -> real)
    ensures ValidEvents([End(trained)])
    ensures var t := Run(cfg, exp, q, s, [End(trained)]);
      var fires := s.training && s.lastBoard.Some? && s.lastAction.Some?;
      && t.agent == Reset(s) && t.actions == []
      && t.net == (if fires then trained else q)
      && t.updates == (if fires then
           [Update(Input(s.lastBoard.value, s.lastAction.value), TerminalReward, LearningRate(cfg, exp, s.episodes))]
         else [])
  {
    var evs := [End(trained)];
    assert evs[1..] == [];
  }

  /** A run is the composition of its parts: running `evs1 ++ evs2` runs
      `evs2` from the agent and the network `evs1` ended with, and
      concatenates the updates and the actions. */
  lemma {:induction false} RunAppend(cfg: Config, exp: real -> real, q: seq<int> -> real, s: Agent,
                                     evs1: seq<Event>, evs2: seq<Event>)
    requires ValidEvents(evs1) && ValidEvents(evs2)
    ensures ValidEvents(evs1 + evs2)
    ensures var t1 := Run(cfg, exp, q, s, evs1);
      var t2 := Run(cfg, exp, t1.net, t1.agent, evs2);
      var t := Run(cfg, exp, q, s, evs1 + evs2);
      && t.agent == t2.agent && t.net == t2.net
      && t.updates == t1.updates + t2.updates
      && t.actions == t1.actions + t2.actions
    decreases |evs1|
  {
    var evs := evs1 + evs2;
    forall i | 0 <= i < |evs| && evs[i].Decide?
      ensures ValidDraws(evs[i].draws)
    {
      if i < |evs1| {
        assert evs[i] == evs1[i];
      } else {
        assert evs[i] == evs2[i - |evs1|];
      }
    }
    if |evs1| == 0 {
      assert evs == evs2;
    } else {
      ValidEventsTail(evs1);
      assert evs[0] == evs1[0];
      assert evs[1..] == evs1[1..] + evs2;
      var h := Handle(cfg, exp, q, s, evs1[0]);
      RunAppend(cfg, exp, h.net, h.agent, evs1[1..], evs2);
      var rest1 := Run(cfg, exp, h.net, h.agent, evs1[1..]);
      var rest := Run(cfg, exp, h.net, h.agent, evs[1..]);
      var t1 := Run(cfg, exp, q, s, evs1);
      var t := Run(cfg, exp, q, s, evs);
      assert t1.updates == h.updates + rest1.updates && t1.actions == h.actions + rest1.actions;
      assert t.updates == h.updates + rest.updates && t.actions == h.actions + rest.actions;
      assert t1.agent == rest1.agent && t1.net == rest1.net && t.agent == rest.agent && t.net == rest.net;
      var t2 := Run(cfg, exp, rest1.net, rest1.agent, evs2);
      ConcatAssoc(h.updates, rest1.updates, t2.updates);
      ConcatAssoc(h.actions, rest1.actions, t2.actions);
    }
  }

  /** When updates are issued: never by the first decision of the game or
      of an episode (`lastScore` is unset or 0 then); by a decision that
      follows a decision iff the agent is still training and the earlier
      decision saw a non-zero score; and by an episode end that follows a
      decision iff the agent is still training. */
  lemma UpdateSchedule(cfg: Config, exp: real -> real, q: seq<int> -> real, q': seq<int> -> real,
                       t1: seq<int> -> real, t2: seq<int> -> real, s: Agent,
                       b1: Board, score1: int, d1: Draws, b2: Board, score2: int, d2: Draws)
    requires ValidDraws(d1) && ValidDraws(d2)
    ensures Play(cfg, exp, q, t1, Init(cfg), b1, score1, d1).update.None?
    ensures Play(cfg, exp, q, t1, Reset(s), b1, score1, d1).update.None?
    ensures var r1 := Play(cfg, exp, q, t1, s, b1, score1, d1);
      && (Play(cfg, exp, q', t2, r1.agent, b2, score2, d2).update.Some? <==> r1.agent.training && score1 != 0)
      && (GameOver(cfg, exp, r1.agent).update.Some? <==> r1.agent.training)
  {
  }

  /** Once training is off no event switches it back on and no update is
      ever issued again. */
  lemma {:induction false} TrainingStaysOff(cfg: Config, exp: real -> real, q: seq<int> -> real, s: Agent, evs: seq<Event>)
    requires ValidEvents(evs) && !s.training
    ensures !Run(cfg, exp, q, s, evs).agent.training
    ensures Run(cfg, exp, q, s, evs).updates == []
    decreases |evs|
  {
    if |evs| > 0 {
      ValidEventsTail(evs);
      var h := Handle(cfg, exp, q, s, evs[0]);
      match evs[0]
      case Decide(board, score, d, trained) =>
        assert h.updates == [];
        TrainingStaysOff(cfg, exp, h.net, h.agent, evs[1..]);
      case End(trained) =>
        assert h.updates == [];
        TrainingStaysOff(cfg, exp, h.net, h.agent, evs[1..]);
    }
  }

  /** Each event issues at most one update, so a run issues at most as
      many updates as it has events. */
  lemma {:induction false} UpdatesPerEvent(cfg: Config, exp: real -> real, q: seq<int> -> real, s: Agent, evs: seq<Event>)
    requires ValidEvents(evs)
    ensures |Run(cfg, exp, q, s, evs).updates| <= |evs|
    decreases |evs|
  {
    if |evs| > 0 {
      ValidEventsTail(evs);
      var h := Handle(cfg, exp, q, s, evs[0]);
      UpdatesPerEvent(cfg, exp, h.net, h.agent, evs[1..]);
    }
  }
}
