/** The application object of src/bonus/application.cpp: a widget list, a
    lifecycle state machine and an initialised flag. The widgets are held
    as values, where the source shares them through `std::shared_ptr`. Its
    observer notifications and console output are not modelled; every
    transition it attempts goes through the state machine's `transitionTo`,
    which throws for a transition that was never registered. */
module Application {
  import opened Wrappers
  import opened Bytes
  import SM = StateMachine
  import W = Widget

  datatype AppState = INITIALIZING | RUNNING | PAUSED | SHUTTING_DOWN

  datatype App = App(widgets: seq<W.Widget>, machine: SM.Machine<AppState>, initialized: bool)

  /** A call: what it threw, if anything, and the application after it. */
  type Call = Step<(), SM.Error, App>

  const States: seq<AppState> := [INITIALIZING, RUNNING, PAUSED, SHUTTING_DOWN]

  /** The constructor: the four states, INITIALIZING first and so current,
      no transitions, no actions, no widgets, not initialised. */
  function New(): (r: App)
    ensures SM.Valid(r.machine) && r.machine.states == States
    ensures r.machine.current == Some(INITIALIZING)
    ensures SM.GetTransitionCount(r.machine) == 0 && r.machine.actions == map[]
    ensures r.widgets == [] && !r.initialized
  {
    App([], SM.Machine(Some(INITIALIZING), States, map[], map[]), false)
  }

  /** The constructor's machine is the one its four `addState` calls build. */
  lemma NewAddsFourStates()
    ensures SM.AddAll(SM.New(), States) == Ok(New().machine)
  {
    var m1 := SM.Machine(Some(INITIALIZING), [INITIALIZING], map[], map[]);
    var m2 := m1.(states := [INITIALIZING, RUNNING]);
    var m3 := m2.(states := [INITIALIZING, RUNNING, PAUSED]);
    var n0: SM.Machine<AppState> := SM.New();
    assert n0.states + [INITIALIZING] == [INITIALIZING];
    assert SM.AddState(n0, INITIALIZING) == Ok(m1);
    assert RUNNING !in m1.states && m1.states + [RUNNING] == m2.states;
    assert SM.AddState(m1, RUNNING) == Ok(m2);
    assert PAUSED !in m2.states && m2.states + [PAUSED] == m3.states;
    assert SM.AddState(m2, PAUSED) == Ok(m3);
    assert SHUTTING_DOWN !in m3.states && m3.states + [SHUTTING_DOWN] == States;
    assert SM.AddState(m3, SHUTTING_DOWN) == Ok(New().machine);
    assert States[1..][1..][1..][1..] == [];
    assert SM.AddAll(New().machine, []) == Ok(New().machine);
  }

  /** A transition of the machine as a call of the application. */
  function Move(a: App, s: AppState): (r: Call)
    ensures SM.TransitionTo(a.machine, s).Err? ==>
              r == Step(Err(SM.TransitionTo(a.machine, s).error), a)
    ensures SM.TransitionTo(a.machine, s).Ok? ==>
              r == Step(Ok(()), a.(machine := SM.TransitionTo(a.machine, s).value.machine))
  {
    match SM.TransitionTo(a.machine, s)
    case Err(e) => Step(Err(e), a)
    case Ok(t) => Step(Ok(()), a.(machine := t.machine))
  }

  /** `initialize`: only the first time; sets the flag before it attempts
      the transition to INITIALIZING, so the flag stays set if that throws. */
  function Initialize(a: App): (r: Call)
    ensures a.initialized ==> r == Step(Ok(()), a)
    ensures !a.initialized ==> r == Move(a.(initialized := true), INITIALIZING)
    ensures r.state.initialized
  {
    if a.initialized then Step(Ok(()), a) else Move(a.(initialized := true), INITIALIZING)
  }

  /** `run`: only once initialised. */
  function Run(a: App): (r: Call)
    ensures !a.initialized ==> r == Step(Ok(()), a)
    ensures a.initialized ==> r == Move(a, RUNNING)
  {
    if a.initialized then Move(a, RUNNING) else Step(Ok(()), a)
  }

  /** `pause`: only in RUNNING; `getCurrentState` throws without a state. */
  function Pause(a: App): (r: Call)
    ensures a.machine.current.None? ==> r == Step(Err(SM.NoInitialState), a)
    ensures a.machine.current == Some(RUNNING) ==> r == Move(a, PAUSED)
    ensures a.machine.current.Some? && a.machine.current != Some(RUNNING) ==> r == Step(Ok(()), a)
  {
    match SM.GetCurrentState(a.machine)
    case Err(e) => Step(Err(e), a)
    case Ok(s) => if s == RUNNING then Move(a, PAUSED) else Step(Ok(()), a)
  }

  /** `resume`: only in PAUSED. */
  function Resume(a: App): (r: Call)
    ensures a.machine.current.None? ==> r == Step(Err(SM.NoInitialState), a)
    ensures a.machine.current == Some(PAUSED) ==> r == Move(a, RUNNING)
    ensures a.machine.current.Some? && a.machine.current != Some(PAUSED) ==> r == Step(Ok(()), a)
  {
    match SM.GetCurrentState(a.machine)
    case Err(e) => Step(Err(e), a)
    case Ok(s) => if s == PAUSED then Move(a, RUNNING) else Step(Ok(()), a)
  }

  /** `shutdown`: always attempts the transition to SHUTTING_DOWN. */
  function Shutdown(a: App): (r: Call)
    ensures r.result.Ok? <==>
              SM.HasState(a.machine, SHUTTING_DOWN) && SM.CanTransitionTo(a.machine, SHUTTING_DOWN)
    ensures r.result.Err? ==> r.state == a
    ensures r.result.Ok? ==>
              r.state == a.(machine := a.machine.(current := Some(SHUTTING_DOWN)))
  {
    Move(a, SHUTTING_DOWN)
  }

  /** `addWidget`: appended after the others. */
  function AddWidget(a: App, w: W.Widget): (r: App)
    ensures r.widgets == a.widgets + [w] && GetWidgetCount(r) == GetWidgetCount(a) + 1
    ensures r.machine == a.machine && r.initialized == a.initialized
  {
    a.(widgets := a.widgets + [w])
  }

  /** How many widgets carry the name. */
  function Matching(ws: seq<W.Widget>, name: seq<byte>): nat
    decreases |ws|
  {
    if |ws| == 0 then 0 else (if ws[0].name == name then 1 else 0) + Matching(ws[1..], name)
  }

  /** The `std::remove_if` and `erase` pair: the widgets without the name,
      in their order. */
  function Without(ws: seq<W.Widget>, name: seq<byte>): (r: seq<W.Widget>)
    ensures |r| + Matching(ws, name) == |ws|
    ensures forall i :: 0 <= i < |r| ==> r[i].name != name
    ensures forall i :: 0 <= i < |ws| && ws[i].name != name ==> ws[i] in r
    ensures Matching(ws, name) == 0 ==> r == ws
    decreases |ws|
  {
    if |ws| == 0 then []
    else
      var rest := Without(ws[1..], name);
      if ws[0].name == name then
        assert forall i :: 1 <= i < |ws| ==> ws[i] == ws[1..][i - 1];
        rest
      else
        assert forall i :: 1 <= i < |ws| ==> ws[i] == ws[1..][i - 1];
        var r := [ws[0]] + rest;
        assert forall w :: w in rest ==> w in r;
        r
  }

  /** `removeWidget`: drops every widget with that name. */
  function RemoveWidget(a: App, name: seq<byte>): (r: App)
    ensures r.widgets == Without(a.widgets, name)
    ensures GetWidgetCount(r) == GetWidgetCount(a) - Matching(a.widgets, name)
    ensures r.machine == a.machine && r.initialized == a.initialized
  {
    a.(widgets := Without(a.widgets, name))
  }

  function GetWidgetCount(a: App): nat {
    |a.widgets|
  }

  /** `getCurrentState`. */
  function GetCurrentState(a: App): (r: Result<AppState, SM.Error>)
    ensures r.Err? <==> a.machine.current.None?
    ensures r.Err? ==> r.error == SM.NoInitialState
    ensures r.Ok? ==> a.machine.current == Some(r.value)
  {
    SM.GetCurrentState(a.machine)
  }

  /** Removing keeps the relative order of the widgets kept: what is left
      is the same as removing from each part of a split list. */
  lemma {:induction false} WithoutDistributes(ws: seq<W.Widget>, vs: seq<W.Widget>, name: seq<byte>)
    ensures Without(ws + vs, name) == Without(ws, name) + Without(vs, name)
    decreases |ws|
  {
    if |ws| == 0 {
      assert ws + vs == vs;
    } else {
      assert (ws + vs)[1..] == ws[1..] + vs;
      WithoutDistributes(ws[1..], vs, name);
    }
  }

  /** Adding a widget and removing its name again removes every widget of
      that name, the new one included. */
  lemma AddThenRemove(a: App, w: W.Widget)
    ensures RemoveWidget(AddWidget(a, w), w.name).widgets == Without(a.widgets, w.name)
  {
    WithoutDistributes(a.widgets, [w], w.name);
  }

  // ---- the lifecycle as the constructor leaves it ----

  /** The machine as the constructor builds it, whatever else happened. */
  ghost predicate AsConstructed(a: App) {
    a.machine == New().machine
  }

  /** No transition is ever registered, so every attempted transition
      throws and the application stays in INITIALIZING: `initialize`
      throws the first time (after setting its flag), `run` throws once
      initialised, `shutdown` always throws, and `pause` and `resume` never
      act. */
  lemma NeverLeavesInitializing(a: App)
    requires AsConstructed(a)
    ensures Initialize(a).result.Err? <==> !a.initialized
    ensures Run(a).result.Err? <==> a.initialized
    ensures Shutdown(a).result == Err(SM.NoTransition)
    ensures Pause(a) == Step(Ok(()), a) && Resume(a) == Step(Ok(()), a)
    ensures AsConstructed(Initialize(a).state) && AsConstructed(Run(a).state)
    ensures GetCurrentState(Initialize(a).state) == Ok(INITIALIZING)
  {
  }
}
