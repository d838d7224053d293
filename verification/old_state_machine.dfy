/** `ft::StateMachine` of old/include/state_machine.hpp: registrations
    overwrite, nothing checks that a state was added, and only
    `transitionTo` and `update` throw (`std::runtime_error`). Callbacks are
    opaque identifiers. */
module OldStateMachine {
  import opened Wrappers
  import SM = StateMachine

  datatype Error =
    | TransitionNotDefined   // "Transition not defined!"
    | ActionNotDefined       // "Action not defined for current state!"

  datatype Machine<S(==)> = Machine(
    current: S,
    states: set<S>,
    actions: map<S, nat>,
    transitions: map<(S, S), nat>)

  /** A new machine: the current state is the value-initialised `TState()`,
      passed in as `initial`. */
  function New<S(==)>(initial: S): (r: Machine<S>)
    ensures r.current == initial && r.states == {} && r.actions == map[] && r.transitions == map[]
  {
    Machine(initial, {}, map[], map[])
  }

  /** `addState`: records the state; it is never consulted. */
  function AddState<S(==)>(m: Machine<S>, s: S): (r: Machine<S>)
    ensures r.states == m.states + {s}
    ensures r.current == m.current && r.actions == m.actions && r.transitions == m.transitions
  {
    m.(states := m.states + {s})
  }

  /** `addTransition`: registers or replaces the pair's callback, whether
      or not the states were added. */
  function AddTransition<S(==)>(m: Machine<S>, start: S, end: S, callback: nat): (r: Machine<S>)
    ensures r.transitions == m.transitions[(start, end) := callback]
    ensures r.current == m.current && r.states == m.states && r.actions == m.actions
  {
    m.(transitions := m.transitions[(start, end) := callback])
  }

  function AddAction<S(==)>(m: Machine<S>, s: S, callback: nat): (r: Machine<S>)
    ensures r.actions == m.actions[s := callback]
    ensures r.current == m.current && r.states == m.states && r.transitions == m.transitions
  {
    m.(actions := m.actions[s := callback])
  }

  datatype Transitioned<S(==)> = Transitioned(machine: Machine<S>, callback: nat)

  /** `transitionTo`: throws unless (current, s) is registered, leaving the
      machine as it was; otherwise runs the callback and moves to `s`. */
  function TransitionTo<S(==)>(m: Machine<S>, s: S): (r: Result<Transitioned<S>, Error>)
    ensures r.Err? <==> (m.current, s) !in m.transitions
    ensures r.Err? ==> r.error == TransitionNotDefined
    ensures r.Ok? ==>
              && r.value.callback == m.transitions[(m.current, s)]
              && r.value.machine == m.(current := s)
  {
    if (m.current, s) !in m.transitions then Err(TransitionNotDefined)
    else Ok(Transitioned(m.(current := s), m.transitions[(m.current, s)]))
  }

  /** `update`: throws when the current state has no action, else runs it. */
  function Update<S(==)>(m: Machine<S>): (r: Result<nat, Error>)
    ensures r.Err? <==> m.current !in m.actions
    ensures r.Ok? ==> r.value == m.actions[m.current]
    ensures r.Err? ==> r.error == ActionNotDefined
  {
    if m.current !in m.actions then Err(ActionNotDefined) else Ok(m.actions[m.current])
  }

  /** The same registrations seen by the current machine: once a state is
      current, the old machine accepts exactly the transitions the current
      one accepts and runs the same callbacks. The current machine only
      registers transitions between added states, which is why its extra
      checks never fire here. */
  lemma AgreesWithChecked<S>(m: SM.Machine<S>, s: S)
    requires SM.Valid(m) && m.current.Some?
    ensures var o := Machine(m.current.value, (set x | x in m.states), m.actions, m.transitions);
            && (TransitionTo(o, s).Ok? <==> SM.TransitionTo(m, s).Ok?)
            && (TransitionTo(o, s).Ok? ==>
                  TransitionTo(o, s).value.callback == SM.TransitionTo(m, s).value.callback)
            && SM.Update(m).Ok?
            && (Update(o).Ok? <==> SM.Update(m).value.Some?)
            && (Update(o).Ok? ==> SM.Update(m).value == Some(Update(o).value))
  {
    SM.TransitionIffCan(m, s);
  }

  datatype TestState = Idle | Running | Stopped

  /** old/tests/state_machine_test.cpp: actions 0, 1 and 2 for Idle,
      Running and Stopped; transitions Idle to Running, Running to Stopped
      and Idle to Idle. The walk Idle, Running (update), Stopped (update)
      succeeds, ends in Stopped, and the two updates run the Running and
      the Stopped actions. */
  lemma TestWalk()
    ensures var m0 := AddTransition(AddTransition(AddTransition(
                        AddAction(AddAction(AddAction(
                          AddState(AddState(AddState(New(Idle), Idle), Running), Stopped),
                          Idle, 0), Running, 1), Stopped, 2),
                        Idle, Running, 3), Running, Stopped, 4), Idle, Idle, 5);
            && TransitionTo(m0, Idle).Ok?
            && var m1 := TransitionTo(m0, Idle).value.machine;
            && TransitionTo(m1, Running).Ok?
            && var m2 := TransitionTo(m1, Running).value.machine;
            && Update(m2) == Ok(1)
            && TransitionTo(m2, Stopped).Ok?
            && var m3 := TransitionTo(m2, Stopped).value.machine;
            && Update(m3) == Ok(2)
            && m3.current == Stopped
  {
  }
}
