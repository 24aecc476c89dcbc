/** The application shell's state holders (App.tsx:8-63): the game-state
    snapshot the engine publishes into, the radio log, the selected tool
    and entity, and the game id whose change restarts the engine. */
module AppState {
  import opened Types
  import opened Constants

  /** Everything the shell holds. */
  datatype App = App(gameId: int, state: GameState, logs: seq<RadioMessage>, tool: Tool, selected: Option<EntityId>)

  /** The snapshot a new game starts from. Its infected count is the fixed
      2, whatever the engine's patient-zero picks make of it; the first tick
      publishes the true counts. */
  const InitialState: GameState := GameState(true, false, INITIAL_POPULATION, 2, 0, None, INITIAL_RESOURCES, None)

  /** The last `n` elements of `s`, or all of it when it is shorter. */
  function Last(s: seq<RadioMessage>, n: nat): (r: seq<RadioMessage>)
    ensures |r| == Min(n, |s|)
    ensures forall k :: 0 <= k < |r| ==> r[k] == s[|s| - |r| + k]
  {
    s[|s| - Min(n, |s|)..]
  }

  /** `handleAddLog`: `[...prev.slice(-5), msg]`. */
  function AddLog(logs: seq<RadioMessage>, msg: RadioMessage): (r: seq<RadioMessage>)
    ensures 1 <= |r| <= 6
    ensures r[|r| - 1] == msg
    ensures r[..|r| - 1] == Last(logs, 5)
  {
    Last(logs, 5) + [msg]
  }

  /** The log after a whole run of messages, added one at a time. */
  function AddAll(logs: seq<RadioMessage>, msgs: seq<RadioMessage>): seq<RadioMessage>
    decreases |msgs|
  {
    if msgs == [] then logs else AddAll(AddLog(logs, msgs[0]), msgs[1..])
  }

  /** One append keeps the newest five lines of the old log, then the new
      message: the last six lines of the old log with the message
      appended. */
  lemma AddLogKeepsLatest(logs: seq<RadioMessage>, msg: RadioMessage)
    ensures AddLog(logs, msg) == Last(logs + [msg], 6)
  {
    var r := AddLog(logs, msg);
    var t := Last(logs + [msg], 6);
    assert |r| == |t|;
    forall k | 0 <= k < |r|
      ensures r[k] == t[k]
    {
      if k < |r| - 1 {
        assert r[k] == Last(logs, 5)[k];
      }
    }
  }

  /** However many messages arrive, the log holds the latest six of all
      messages so far, oldest first. */
  lemma {:induction false} LogHoldsLatestSix(logs: seq<RadioMessage>, msgs: seq<RadioMessage>)
    requires |logs| <= 6
    ensures AddAll(logs, msgs) == Last(logs + msgs, 6)
    decreases |msgs|
  {
    if msgs == [] {
      assert logs + msgs == logs;
    } else {
      var first, rest := msgs[0], msgs[1..];
      var next := AddLog(logs, first);
      assert AddAll(logs, msgs) == AddAll(next, rest);
      AddLogKeepsLatest(logs, first);
      LogHoldsLatestSix(next, rest);
      assert AddAll(next, rest) == Last(next + rest, 6);
      LastOfLast(logs + [first], rest);
      assert logs + [first] + rest == logs + msgs;
    }
  }

  /** Trimming to six before appending does not change the last six. */
  lemma LastOfLast(s: seq<RadioMessage>, t: seq<RadioMessage>)
    ensures Last(Last(s, 6) + t, 6) == Last(s + t, 6)
  {
    var l := Last(s, 6);
    if |s| <= 6 {
      assert l == s;
    } else {
      var p := s[..|s| - 6];
      assert s == p + l;
      assert s + t == p + (l + t);
      LastOfSuffix(p, l + t, 6);
    }
  }

  /** The last `n` elements only depend on a suffix of length `n` or more. */
  lemma LastOfSuffix(p: seq<RadioMessage>, u: seq<RadioMessage>, n: nat)
    requires n <= |u|
    ensures Last(p + u, n) == Last(u, n)
  {
    var a, b := Last(p + u, n), Last(u, n);
    forall k | 0 <= k < n
      ensures a[k] == b[k]
    {
      assert a[k] == (p + u)[|p| + |u| - n + k];
    }
  }

  /** `handleStateUpdate`: the counts, the result, the balance and the
      selected entity come from the engine; the flags stay the shell's. */
  function StateUpdate(prev: GameState, next: GameState): (r: GameState)
    ensures r.isPlaying == prev.isPlaying && r.isPaused == prev.isPaused
  {
    prev.(healthyCount := next.healthyCount, infectedCount := next.infectedCount,
      soldierCount := next.soldierCount, gameResult := next.gameResult,
      resources := next.resources, selectedEntity := next.selectedEntity)
  }

  /** The merged state is the engine's snapshot with the shell's flags,
      and merging the same snapshot twice changes nothing more. */
  lemma StateUpdateTakesSnapshot(prev: GameState, next: GameState)
    ensures StateUpdate(prev, next) == next.(isPlaying := prev.isPlaying, isPaused := prev.isPaused)
    ensures StateUpdate(StateUpdate(prev, next), next) == StateUpdate(prev, next)
  {}

  /** `togglePause`. */
  function TogglePause(st: GameState): (r: GameState)
    ensures r.isPaused != st.isPaused
    ensures r == st.(isPaused := r.isPaused)
  {
    st.(isPaused := !st.isPaused)
  }

  /** Toggling twice restores the state. */
  lemma TogglePauseTwice(st: GameState)
    ensures TogglePause(TogglePause(st)) == st
  {}

  /** `handleResetGame`. */
  function Reset(a: App): (r: App)
    ensures r.gameId > a.gameId
  {
    App(a.gameId + 1, InitialState, [], NoTool, None)
  }

  /** A reset forgets everything but the game id: the snapshot is the
      initial one (playing, unpaused, 120 healthy, 2 infected, no soldiers,
      no result, 1000 in the bank, nothing selected), the log is empty and
      no tool or entity is selected. */
  lemma ResetRestores(a: App, b: App)
    requires a.gameId == b.gameId
    ensures Reset(a) == Reset(b)
    ensures var r := Reset(a).state;
      && r.isPlaying && !r.isPaused
      && r.healthyCount == 120 && r.infectedCount == 2 && r.soldierCount == 0
      && r.gameResult.None? && r.resources == 1000 && r.selectedEntity.None?
    ensures Reset(a).logs == [] && Reset(a).tool == NoTool && Reset(a).selected.None?
  {}
}
