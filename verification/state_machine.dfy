/** The finite-state machine declared in
    includes/design_patterns/state_machine.hpp. Its bodies live in
    state_machine.tpp, which is not part of this model, so the operations
    follow the declared contracts. Callbacks are opaque identifiers: a
    transition or an update returns the identifier of the callback it runs.
    All the errors are `std::invalid_argument` in the library; the model
    names the reason. */
module StateMachine {
  import opened Wrappers

  datatype Error =
    | StateExists      // addState of a state already added
    | UnknownState     // a state that was never added
    | NoInitialState   // no state added yet
    | NoTransition     // no transition from the current state to the target

  /** `current` is `None` until the first state is added (the library's
      `has_initial_state_` flag). */
  datatype Machine<S(==)> = Machine(
    current: Option<S>,
    states: seq<S>,
    actions: map<S, nat>,
    transitions: map<(S, S), nat>)

  /** What every operation keeps: the states are listed once each, the
      current state and every registration refer to added states, and
      there is a current state exactly when some state was added. */
  ghost predicate Valid<S>(m: Machine<S>) {
    && (forall i, j :: 0 <= i < j < |m.states| ==> m.states[i] != m.states[j])
    && (m.current.Some? <==> |m.states| > 0)
    && (m.current.Some? ==> m.current.value in m.states)
    && (forall s :: s in m.actions ==> s in m.states)
    && (forall t :: t in m.transitions ==> t.0 in m.states && t.1 in m.states)
  }

  /** The constructor. */
  function New<S(==)>(): Machine<S> {
    Machine(None, [], map[], map[])
  }

  /** A new machine is well formed, with no state, no transition and no
      initial state, so asking for the current state throws. */
  lemma NewIsEmpty<S>(m: Machine<S>)
    requires m == New()
    ensures Valid(m) && m.current.None? && GetStateCount(m) == 0 && GetTransitionCount(m) == 0
    ensures GetCurrentState(m) == Err(NoInitialState)
  {
  }

  function HasState<S(==)>(m: Machine<S>, s: S): bool {
    s in m.states
  }

  function GetStateCount<S(==)>(m: Machine<S>): nat {
    |m.states|
  }

  function GetTransitionCount<S(==)>(m: Machine<S>): nat {
    |m.transitions|
  }

  /** `addState`: throws for a state already added; the first state added
      becomes the current one. */
  function AddState<S(==)>(m: Machine<S>, s: S): (r: Result<Machine<S>, Error>)
    ensures r.Err? <==> HasState(m, s)
    ensures r.Err? ==> r.error == StateExists
    ensures r.Ok? ==>
              && r.value.states == m.states + [s]
              && GetStateCount(r.value) == GetStateCount(m) + 1
              && r.value.current == (if m.current.None? then Some(s) else m.current)
              && r.value.actions == m.actions && r.value.transitions == m.transitions
  {
    if s in m.states then Err(StateExists)
    else Ok(m.(states := m.states + [s], current := if m.current.None? then Some(s) else m.current))
  }

  /** `addTransition`: throws unless both states were added; registers
      `callback` for the pair, replacing an earlier one. */
  function AddTransition<S(==)>(m: Machine<S>, start: S, final: S, callback: nat): (r: Result<Machine<S>, Error>)
    ensures r.Err? <==> !HasState(m, start) || !HasState(m, final)
    ensures r.Err? ==> r.error == UnknownState
    ensures r.Ok? ==>
              && r.value.transitions == m.transitions[(start, final) := callback]
              && r.value.current == m.current && r.value.states == m.states
              && r.value.actions == m.actions
  {
    if start !in m.states || final !in m.states then Err(UnknownState)
    else Ok(m.(transitions := m.transitions[(start, final) := callback]))
  }

  /** `addAction`: throws unless the state was added; registers `callback`
      as the state's action. */
  function AddAction<S(==)>(m: Machine<S>, s: S, callback: nat): (r: Result<Machine<S>, Error>)
    ensures r.Err? <==> !HasState(m, s)
    ensures r.Err? ==> r.error == UnknownState
    ensures r.Ok? ==>
              && r.value.actions == m.actions[s := callback]
              && r.value.current == m.current && r.value.states == m.states
              && r.value.transitions == m.transitions
  {
    if s !in m.states then Err(UnknownState)
    else Ok(m.(actions := m.actions[s := callback]))
  }

  /** `canTransitionTo`: a transition from the current state to `s` is
      registered. Without a current state there is none. */
  function CanTransitionTo<S(==)>(m: Machine<S>, s: S): (r: bool)
    ensures r <==> m.current.Some? && (m.current.value, s) in m.transitions
  {
    match m.current
    case None => false
    case Some(c) => (c, s) in m.transitions
  }

  /** `getCurrentState`: throws without an initial state. */
  function GetCurrentState<S(==)>(m: Machine<S>): (r: Result<S, Error>)
    ensures r.Err? <==> m.current.None?
    ensures r.Err? ==> r.error == NoInitialState
    ensures r.Ok? ==> Some(r.value) == m.current
  {
    match m.current
    case None => Err(NoInitialState)
    case Some(c) => Ok(c)
  }

  datatype Transitioned<S> = Transitioned(machine: Machine<S>, callback: nat)

  /** `transitionTo`: throws without an initial state, for a state never
      added, or when no transition from the current state is registered;
      otherwise runs the transition's callback and moves to `s`. */
  function TransitionTo<S(==)>(m: Machine<S>, s: S): (r: Result<Transitioned<S>, Error>)
    ensures m.current.None? ==> r == Err(NoInitialState)
    ensures m.current.Some? && !HasState(m, s) ==> r == Err(UnknownState)
    ensures m.current.Some? && HasState(m, s) && !CanTransitionTo(m, s) ==> r == Err(NoTransition)
    ensures r.Ok? ==>
              && HasState(m, s) && CanTransitionTo(m, s)
              && r.value.callback == m.transitions[(m.current.value, s)]
              && r.value.machine == m.(current := Some(s))
  {
    match m.current
    case None => Err(NoInitialState)
    case Some(c) =>
      if s !in m.states then Err(UnknownState)
      else if (c, s) !in m.transitions then Err(NoTransition)
      else Ok(Transitioned(m.(current := Some(s)), m.transitions[(c, s)]))
  }

  /** `update`: throws only without an initial state; otherwise yields the
      current state's action, or nothing when it has none. */
  function Update<S(==)>(m: Machine<S>): (r: Result<Option<nat>, Error>)
    ensures r.Err? <==> m.current.None?
    ensures r.Err? ==> r.error == NoInitialState
    ensures r.Ok? ==>
              (r.value.Some? <==> m.current.value in m.actions)
              && (r.value.Some? ==> r.value.value == m.actions[m.current.value])
  {
    match m.current
    case None => Err(NoInitialState)
    case Some(c) => Ok(if c in m.actions then Some(m.actions[c]) else None)
  }

  // ---- the invariant ----

  lemma AddStateValid<S>(m: Machine<S>, s: S)
    requires Valid(m) && AddState(m, s).Ok?
    ensures Valid(AddState(m, s).value)
  {
    var r := AddState(m, s).value;
    forall i, j | 0 <= i < j < |r.states|
      ensures r.states[i] != r.states[j]
    {
      if j == |m.states| {
        assert r.states[i] == m.states[i] && r.states[j] == s;
      }
    }
  }

  lemma AddTransitionValid<S>(m: Machine<S>, start: S, final: S, callback: nat)
    requires Valid(m) && AddTransition(m, start, final, callback).Ok?
    ensures Valid(AddTransition(m, start, final, callback).value)
  {
  }

  lemma AddActionValid<S>(m: Machine<S>, s: S, callback: nat)
    requires Valid(m) && AddAction(m, s, callback).Ok?
    ensures Valid(AddAction(m, s, callback).value)
  {
  }

  lemma TransitionToValid<S>(m: Machine<S>, s: S)
    requires Valid(m) && TransitionTo(m, s).Ok?
    ensures Valid(TransitionTo(m, s).value.machine)
  {
  }

  /** In a valid machine `transitionTo` succeeds exactly when
      `canTransitionTo` says it may. */
  lemma TransitionIffCan<S>(m: Machine<S>, s: S)
    requires Valid(m)
    ensures TransitionTo(m, s).Ok? <==> CanTransitionTo(m, s)
  {
    if CanTransitionTo(m, s) {
      assert (m.current.value, s) in m.transitions;
    }
  }

  /** The queries follow the registrations: after `addState` the state is
      known and the count has grown by one, any other state being known as
      before; `addTransition` grows the count by one for a new pair and
      keeps it for a pair registered before; in a well-formed machine
      there is a current state exactly when some state was added. */
  lemma QueriesTrackAdds<S>(m: Machine<S>, s: S, other: S, start: S, final: S, callback: nat)
    requires Valid(m)
    ensures AddState(m, s).Ok? ==>
              && HasState(AddState(m, s).value, s)
              && (HasState(AddState(m, s).value, other) <==> other == s || HasState(m, other))
              && GetStateCount(AddState(m, s).value) == GetStateCount(m) + 1
    ensures AddTransition(m, start, final, callback).Ok? ==>
              GetTransitionCount(AddTransition(m, start, final, callback).value)
              == GetTransitionCount(m) + (if (start, final) in m.transitions then 0 else 1)
    ensures GetCurrentState(m).Ok? <==> GetStateCount(m) > 0
  {
    UpdateCount(m.transitions, (start, final), callback);
  }

  /** Registering a key grows a map by one exactly when the key is new. */
  lemma UpdateCount<K, V>(mp: map<K, V>, k: K, v: V)
    ensures |mp[k := v]| == |mp| + (if k in mp then 0 else 1)
  {
    if k in mp {
      assert mp[k := v].Keys == mp.Keys;
    } else {
      assert mp[k := v].Keys == mp.Keys + {k};
    }
  }

  /** The transitions registered never exceed one per ordered pair of states. */
  lemma TransitionsAreStatePairs<S>(m: Machine<S>)
    requires Valid(m)
    ensures m.transitions.Keys <= (set a, b | a in m.states && b in m.states :: (a, b))
  {
    forall t | t in m.transitions
      ensures t in (set a, b | a in m.states && b in m.states :: (a, b))
    {
      assert t == (t.0, t.1);
    }
  }

  /** Adding states one by one: the first becomes current and each later
      one leaves it alone. */
  lemma {:induction false} AddStatesKeepsFirst<S>(m: Machine<S>, ss: seq<S>, r: Machine<S>)
    requires Valid(m)
    requires AddAll(m, ss) == Ok(r)
    ensures Valid(r)
    ensures r.current == (if m.current.Some? then m.current else if |ss| > 0 then Some(ss[0]) else None)
    ensures r.states == m.states + ss
    decreases |ss|
  {
    if |ss| > 0 {
      var m1 := AddState(m, ss[0]).value;
      AddStateValid(m, ss[0]);
      AddStatesKeepsFirst(m1, ss[1..], r);
      assert m.states + ss == m.states + [ss[0]] + ss[1..];
    }
  }

  /** `addState` for each state in turn, stopping at the first error. */
  function AddAll<S(==)>(m: Machine<S>, ss: seq<S>): (r: Result<Machine<S>, Error>)
    decreases |ss|
  {
    if |ss| == 0 then Ok(m)
    else
      match AddState(m, ss[0])
      case Err(e) => Err(e)
      case Ok(m1) => AddAll(m1, ss[1..])
  }
}
