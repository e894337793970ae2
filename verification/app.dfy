/** The top-level keyboard player: the same latch as the `Human`
    component, with a key handler that has no restart key. */
module App {
  import opened Grid
  import Human

  /** `changeAction(e)`: an arrow key overwrites both deltas of the latched
      request; any other key falls through the switch. */
  function ChangeAction(pending: Action, key: string): (a: Action)
    ensures Human.ArrowMove(key).Some? ==> a == Human.ArrowMove(key).value
    ensures Human.ArrowMove(key).None? ==> a == pending
  {
    if key == "ArrowRight" then pending.(colDelta := 1).(rowDelta := 0)
    else if key == "ArrowLeft" then pending.(colDelta := -1).(rowDelta := 0)
    else if key == "ArrowUp" then pending.(rowDelta := -1).(colDelta := 0)
    else if key == "ArrowDown" then pending.(rowDelta := 1).(colDelta := 0)
    else pending
  }

  /** `play`: answer with the latched request and reset the latch. */
  function Play(pending: Action): (p: Human.Played)
    ensures p.action == pending && p.pending == Human.Neutral
  {
    Human.Played(pending, Action(0, 0))
  }

  /** The latch after a sequence of key presses, oldest first. */
  function Feed(pending: Action, keys: seq<string>): Action
    decreases |keys|
  {
    if |keys| == 0 then pending
    else ChangeAction(Feed(pending, keys[..|keys| - 1]), keys[|keys| - 1])
  }

  /** Both handlers latch the same request for every key sequence; they
      differ only in the redraw the `Human` handler asks for on `r`. */
  lemma {:induction false} SameLatchAsHuman(pending: Action, keys: seq<string>)
    ensures Feed(pending, keys) == Human.Feed(pending, keys)
    decreases |keys|
  {
    if |keys| > 0 {
      SameLatchAsHuman(pending, keys[..|keys| - 1]);
    }
  }
}
