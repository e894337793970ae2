/** The keyboard-driven player: a key handler latches a move request,
    and the engine's decision callback takes the latched request and
    clears it, so each key press is played at most once. */
module Human {
  import opened Wrappers
  import opened Grid

  /** The request the latch holds when no key has been pressed. */
  const Neutral: Action := Action(0, 0)

  /** The move an arrow key requests; `None` for every other key. */
  function ArrowMove(key: string): (m: Option<Action>)
    ensures key == "ArrowRight" <==> m == Some(Action(0, 1))
    ensures key == "ArrowLeft" <==> m == Some(Action(0, -1))
    ensures key == "ArrowUp" <==> m == Some(Action(-1, 0))
    ensures key == "ArrowDown" <==> m == Some(Action(1, 0))
    ensures m.Some? <==> key in {"ArrowRight", "ArrowLeft", "ArrowUp", "ArrowDown"}
    ensures m.Some? ==> (m.value.rowDelta == 0) != (m.value.colDelta == 0)
  {
    if key == "ArrowRight" then Some(Action(0, 1))
    else if key == "ArrowLeft" then Some(Action(0, -1))
    else if key == "ArrowUp" then Some(Action(-1, 0))
    else if key == "ArrowDown" then Some(Action(1, 0))
    else None
  }

  /** What a key press does: the latched request afterwards, and whether
      the component asked to be redrawn. */
  datatype KeyEffect = KeyEffect(pending: Action, redraw: bool)

  /** `changeAction(e)`: an arrow key overwrites both deltas of the latched
      request; `r` asks for a redraw; every other key is ignored. */
  function ChangeAction(pending: Action, key: string): (e: KeyEffect)
    ensures ArrowMove(key).Some? ==> e.pending == ArrowMove(key).value
    ensures ArrowMove(key).None? ==> e.pending == pending
    ensures e.redraw <==> key == "r"
  {
    match key
    case "ArrowRight" => KeyEffect(pending.(colDelta := 1).(rowDelta := 0), false)
    case "ArrowLeft" => KeyEffect(pending.(colDelta := -1).(rowDelta := 0), false)
    case "ArrowUp" => KeyEffect(pending.(rowDelta := -1).(colDelta := 0), false)
    case "ArrowDown" => KeyEffect(pending.(rowDelta := 1).(colDelta := 0), false)
    case "r" => KeyEffect(pending, true)
    case _ => KeyEffect(pending, false)
  }

  /** The answer to one decision request, and the latch afterwards. */
  datatype Played = Played(action: Action, pending: Action)

  /** `play`: answer with the latched request and reset the latch. */
  function Play(pending: Action): (p: Played)
    ensures p.action == pending && p.pending == Neutral
  {
    Played(pending, Neutral)
  }

  /** The latch after a sequence of key presses, oldest first. */
  function Feed(pending: Action, keys: seq<string>): Action
    decreases |keys|
  {
    if |keys| == 0 then pending
    else ChangeAction(Feed(pending, keys[..|keys| - 1]), keys[|keys| - 1]).pending
  }

  /** The move of the last arrow key among `keys`, if there is one. */
  function LastArrow(keys: seq<string>): (m: Option<Action>)
    ensures m.None? <==> forall i :: 0 <= i < |keys| ==> ArrowMove(keys[i]).None?
    ensures m.Some? ==> exists i :: (0 <= i < |keys| && ArrowMove(keys[i]) == m &&
                                     forall j :: i < j < |keys| ==> ArrowMove(keys[j]).None?)
    decreases |keys|
  {
    if |keys| == 0 then None
    else if ArrowMove(keys[|keys| - 1]).Some? then ArrowMove(keys[|keys| - 1])
    else
      var m := LastArrow(keys[..|keys| - 1]);
      assert forall i :: 0 <= i < |keys| - 1 ==> keys[..|keys| - 1][i] == keys[i];
      assert keys == keys[..|keys| - 1] + [keys[|keys| - 1]];
      LastArrowSkip(keys[..|keys| - 1], keys[|keys| - 1], m);
      m
  }

  /** A trailing key that is not an arrow does not change which arrow key
      came last. */
  lemma LastArrowSkip(init: seq<string>, key: string, m: Option<Action>)
    requires ArrowMove(key).None?
    requires m.Some? ==> exists i :: (0 <= i < |init| && ArrowMove(init[i]) == m &&
                                      forall j :: i < j < |init| ==> ArrowMove(init[j]).None?)
    ensures var keys := init + [key];
      m.Some? ==> exists i :: (0 <= i < |keys| && ArrowMove(keys[i]) == m &&
                               forall j :: i < j < |keys| ==> ArrowMove(keys[j]).None?)
  {
    if m.Some? {
      var keys := init + [key];
      var i :| 0 <= i < |init| && ArrowMove(init[i]) == m && forall j :: i < j < |init| ==> ArrowMove(init[j]).None?;
      assert keys[i] == init[i];
      forall j | i < j < |keys|
        ensures ArrowMove(keys[j]).None?
      {
        if j < |init| {
          assert keys[j] == init[j];
        }
      }
    }
  }

  /** The latch holds the move of the last arrow key pressed, and is
      unchanged when no arrow key was pressed. */
  lemma {:induction false} FeedIsLastArrow(pending: Action, keys: seq<string>)
    ensures Feed(pending, keys) == if LastArrow(keys).Some? then LastArrow(keys).value else pending
    decreases |keys|
  {
    if |keys| > 0 {
      FeedIsLastArrow(pending, keys[..|keys| - 1]);
    }
  }

  /** Between two decisions the keys pressed decide the next answer: the
      move of the last arrow key, or no move at all; and the answer after
      that, without further keys, is no move. */
  lemma KeysThenPlay(keys: seq<string>)
    ensures var p := Play(Feed(Neutral, keys));
      && p.action == (if LastArrow(keys).Some? then LastArrow(keys).value else Neutral)
      && Play(p.pending).action == Neutral
  {
    FeedIsLastArrow(Neutral, keys);
  }

  /** A latched request moves at most one cell along one axis. */
  predicate OneStep(a: Action) {
    -1 <= a.rowDelta <= 1 && -1 <= a.colDelta <= 1 && (a.rowDelta == 0 || a.colDelta == 0)
  }

  /** Every request the latch can hold is a single step. */
  lemma {:induction false} FeedOneStep(pending: Action, keys: seq<string>)
    requires OneStep(pending)
    ensures OneStep(Feed(pending, keys))
    decreases |keys|
  {
    if |keys| > 0 {
      FeedOneStep(pending, keys[..|keys| - 1]);
    }
  }
}
