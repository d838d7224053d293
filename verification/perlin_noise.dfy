/** `PerlinNoise2D` of includes/mathematics/perlin_noise_2D.hpp: a
    coordinate generator that fills a doubled permutation table, a
    four-state machine that `sample` steps through, a gradient buffer, and
    the seed and gradient data its Memento side saves and loads.

    The floating-point part of a sample (fade, lerp and grad) is not
    modelled: a sample here is the lattice cell it falls in, given by the
    floors of its coordinates, and the four permutation entries looked up
    for the cell's corners, which are all that the permutation contributes
    to the value. The transitions' callbacks are empty lambdas, each named
    by an identifier. The generator's notifications reach no one: the noise
    never subscribes to its private generator and offers no way to. */
module PerlinNoise {
  import opened Wrappers
  import opened Bytes
  import SM = StateMachine
  import DB = DataBuffer
  import CG = CoordinateGenerator
  import M = Memento

  datatype NoiseState = IDLE | GENERATING_GRADIENTS | INTERPOLATING | FINISHED

  datatype Noise = Noise(rng: CG.Generator, machine: SM.Machine<NoiseState>,
                         gradientBuffer: DB.Buffer, permutation: seq<int>)

  // ---- the state machine ----

  const States: seq<NoiseState> := [IDLE, GENERATING_GRADIENTS, INTERPOLATING, FINISHED]

  // The callbacks of the six transitions, in the order they are added.
  const IDLE_TO_GENERATING: nat := 0
  const GENERATING_TO_INTERPOLATING: nat := 1
  const GENERATING_TO_FINISHED: nat := 2
  const INTERPOLATING_TO_IDLE: nat := 3
  const INTERPOLATING_TO_FINISHED: nat := 4
  const FINISHED_TO_IDLE: nat := 5

  /** The `addTransition` calls of `initializeStateMachine`, in order. */
  const TransitionList: seq<(NoiseState, NoiseState, nat)> := [
    (IDLE, GENERATING_GRADIENTS, IDLE_TO_GENERATING),
    (GENERATING_GRADIENTS, INTERPOLATING, GENERATING_TO_INTERPOLATING),
    (GENERATING_GRADIENTS, FINISHED, GENERATING_TO_FINISHED),
    (INTERPOLATING, IDLE, INTERPOLATING_TO_IDLE),
    (INTERPOLATING, FINISHED, INTERPOLATING_TO_FINISHED),
    (FINISHED, IDLE, FINISHED_TO_IDLE)]

  const Transitions: map<(NoiseState, NoiseState), nat> := map[
    (IDLE, GENERATING_GRADIENTS) := IDLE_TO_GENERATING,
    (GENERATING_GRADIENTS, INTERPOLATING) := GENERATING_TO_INTERPOLATING,
    (GENERATING_GRADIENTS, FINISHED) := GENERATING_TO_FINISHED,
    (INTERPOLATING, IDLE) := INTERPOLATING_TO_IDLE,
    (INTERPOLATING, FINISHED) := INTERPOLATING_TO_FINISHED,
    (FINISHED, IDLE) := FINISHED_TO_IDLE]

  /** The machine `initializeStateMachine` leaves: the four states, IDLE
      first and so current, the six transitions and no actions. */
  function InitialMachine(): (m: SM.Machine<NoiseState>)
    ensures SM.Valid(m) && m.current == Some(IDLE) && NoiseMachine(m)
  {
    var m := SM.Machine(Some(IDLE), States, map[], Transitions);
    MachineValid(m);
    m
  }

  /** `addTransition` for each triple in turn, stopping at the first error. */
  function AddTransitions(m: SM.Machine<NoiseState>, ts: seq<(NoiseState, NoiseState, nat)>)
    : (r: Result<SM.Machine<NoiseState>, SM.Error>)
    decreases |ts|
  {
    if |ts| == 0 then Ok(m)
    else
      match SM.AddTransition(m, ts[0].0, ts[0].1, ts[0].2)
      case Err(e) => Err(e)
      case Ok(m1) => AddTransitions(m1, ts[1..])
  }

  /** `initializeStateMachine` on the machine `m`: the four `addState`
      calls, then the six `addTransition` calls. */
  function InitializeStateMachine(m: SM.Machine<NoiseState>): (r: Result<SM.Machine<NoiseState>, SM.Error>)
  {
    match SM.AddAll(m, States)
    case Err(e) => Err(e)
    case Ok(m1) => AddTransitions(m1, TransitionList)
  }

  /** On a new machine, as in the constructor and in `reset`, the calls
      never throw and build exactly the initial machine. */
  lemma InitializeBuildsInitial()
    ensures InitializeStateMachine(SM.New()) == Ok(InitialMachine())
  {
    AddStatesBuild();
    AddTransitionsBuild();
  }

  /** The four `addState` calls on a new machine: IDLE becomes current. */
  lemma AddStatesBuild()
    ensures SM.AddAll(SM.New(), States) == Ok(SM.Machine(Some(IDLE), States, map[], map[]))
  {
    var n0: SM.Machine<NoiseState> := SM.New();
    var s1 := SM.Machine(Some(IDLE), [IDLE], map[], map[]);
    var s2 := s1.(states := [IDLE, GENERATING_GRADIENTS]);
    assert n0.states + [IDLE] == [IDLE];
    assert SM.AddState(n0, IDLE) == Ok(s1);
    assert s1.states + [GENERATING_GRADIENTS] == s2.states;
    assert SM.AddState(s1, GENERATING_GRADIENTS) == Ok(s2);
    AddLastStates();
    assert States[1..][1..] == States[2..];
    assert SM.AddAll(s1, States[1..]) == SM.AddAll(s2, States[2..]);
  }

  /** The last two `addState` calls, after IDLE and GENERATING_GRADIENTS. */
  lemma AddLastStates()
    ensures SM.AddAll(SM.Machine(Some(IDLE), [IDLE, GENERATING_GRADIENTS], map[], map[]), States[2..])
            == Ok(SM.Machine(Some(IDLE), States, map[], map[]))
  {
    var s2 := SM.Machine(Some(IDLE), [IDLE, GENERATING_GRADIENTS], map[], map[]);
    var s3 := s2.(states := [IDLE, GENERATING_GRADIENTS, INTERPOLATING]);
    var s4 := s2.(states := States);
    assert s2.states + [INTERPOLATING] == s3.states;
    assert SM.AddState(s2, INTERPOLATING) == Ok(s3);
    assert s3.states + [FINISHED] == States;
    assert SM.AddState(s3, FINISHED) == Ok(s4);
    assert States[4..] == [] && States[3..][1..] == States[4..] && States[2..][1..] == States[3..];
    assert SM.AddAll(s3, States[3..]) == Ok(s4);
  }

  /** The six `addTransition` calls, all between added states, register
      exactly the six transitions. */
  lemma AddTransitionsBuild()
    ensures AddTransitions(SM.Machine(Some(IDLE), States, map[], map[]), TransitionList) == Ok(InitialMachine())
  {
    var s4 := SM.Machine(Some(IDLE), States, map[], map[]);
    var ts := TransitionList;
    var t1 := map[(IDLE, GENERATING_GRADIENTS) := IDLE_TO_GENERATING];
    var t2 := t1[(GENERATING_GRADIENTS, INTERPOLATING) := GENERATING_TO_INTERPOLATING];
    var t3 := t2[(GENERATING_GRADIENTS, FINISHED) := GENERATING_TO_FINISHED];
    var t4 := t3[(INTERPOLATING, IDLE) := INTERPOLATING_TO_IDLE];
    var t5 := t4[(INTERPOLATING, FINISHED) := INTERPOLATING_TO_FINISHED];
    var t6 := t5[(FINISHED, IDLE) := FINISHED_TO_IDLE];
    assert t6 == Transitions;
    assert AddTransitions(s4.(transitions := t6), ts[6..]) == Ok(InitialMachine());
    assert AddTransitions(s4.(transitions := t5), ts[5..]) == Ok(InitialMachine());
    assert AddTransitions(s4.(transitions := t4), ts[4..]) == Ok(InitialMachine());
    assert AddTransitions(s4.(transitions := t3), ts[3..]) == Ok(InitialMachine());
    assert AddTransitions(s4.(transitions := t2), ts[2..]) == Ok(InitialMachine());
    assert AddTransitions(s4.(transitions := t1), ts[1..]) == Ok(InitialMachine());
  }

  /** A machine `initializeStateMachine` built, in whichever state. */
  predicate NoiseMachine(m: SM.Machine<NoiseState>) {
    m.states == States && m.actions == map[] && m.transitions == Transitions && m.current.Some?
  }

  /** Any machine with the four states and the six transitions, whatever
      its current state, keeps the state machine's invariant. */
  lemma MachineValid(m: SM.Machine<NoiseState>)
    requires NoiseMachine(m)
    ensures SM.Valid(m)
  {
    forall s: NoiseState
      ensures s in States
    {
      match s
      case IDLE => assert States[0] == s;
      case GENERATING_GRADIENTS => assert States[1] == s;
      case INTERPOLATING => assert States[2] == s;
      case FINISHED => assert States[3] == s;
    }
  }

  // ---- the permutation ----

  /** The doubled table the lookups rely on: 512 entries below 256, the
      second half repeating the first. */
  predicate Table(p: seq<int>) {
    && |p| == 512
    && (forall k :: 0 <= k < 512 ==> 0 <= p[k] < 256)
    && p[256..] == p[..256]
  }

  /** Entry 256 + i of a doubled table repeats entry i. */
  lemma Doubled(p: seq<int>, i: int)
    requires Table(p) && 0 <= i < 256
    ensures p[256 + i] == p[i]
  {
    assert p[256..][i] == p[..256][i];
  }

  /** The table built from the value function `f`: entry k is the value at
      (k mod 256, 0), modulo 256. */
  function PermutationOf(f: CG.Values): (p: seq<int>)
    ensures |p| == 512
  {
    seq(512, k requires 0 <= k < 512 => f(k % 256, 0) % 256)
  }

  /** The table under a seed: from the generator's `operator()`. */
  function Permutation(seed: Int64): (p: seq<int>)
    ensures Table(p)
  {
    PermutationTable(CG.HashAt(seed));
    PermutationOf(CG.HashAt(seed))
  }

  /** A value function that is never negative, as `operator()` is, gives a
      doubled table; for it Dafny's `%` agrees with C++'s. */
  lemma PermutationTable(f: CG.Values)
    requires forall x, y :: 0 <= f(x, y)
    ensures Table(PermutationOf(f))
  {
    var p := PermutationOf(f);
    forall k | 0 <= k < 256
      ensures p[256..][k] == p[..256][k]
    {
      assert (256 + k) % 256 == k;
    }
  }

  /** `std::vector::resize`: cut to `n` entries or padded with zeros. */
  function Resize(s: seq<int>, n: nat): (r: seq<int>)
    ensures |r| == n
    ensures forall k :: 0 <= k < |s| && k < n ==> r[k] == s[k]
    ensures forall k :: |s| <= k < n ==> r[k] == 0
  {
    if n <= |s| then s[..n] else s + seq(n - |s|, _ => 0)
  }

  /** `initializePermutation`: resize to 512, then for each i below 256 the
      value at (i, 0) modulo 256 goes to entries i and 256 + i. Whatever the
      old table held, the result is the reference table. */
  method InitializePermutation(f: CG.Values, old_: seq<int>) returns (p: seq<int>)
    requires forall x, y :: 0 <= f(x, y)
    ensures p == PermutationOf(f) && Table(p)
  {
    p := Resize(old_, 512);
    var i := 0;
    while i < 256
      invariant 0 <= i <= 256 && |p| == 512
      invariant forall k :: 0 <= k < i ==> p[k] == f(k, 0) % 256
      invariant forall k :: 0 <= k < i ==> p[256 + k] == p[k]
    {
      p := p[i := f(i, 0) % 256];
      p := p[256 + i := p[i]];
      i := i + 1;
    }
    forall k | 0 <= k < 512
      ensures p[k] == PermutationOf(f)[k]
    {
      if k >= 256 {
        assert p[256 + (k - 256)] == p[k - 256];
      }
    }
    PermutationTable(f);
  }

  // ---- the corner lookups of `sample` ----

  /** The hashes of a cell's four corners: (X, Y), (X, Y + 1), (X + 1, Y)
      and (X + 1, Y + 1). */
  datatype Corners = Corners(aa: int, ab: int, ba: int, bb: int)

  /** `(int)std::floor(v) & 255`: the low byte of the floor's two's
      complement, which is the floor modulo 256. */
  function Cell(floor: Int32): (c: nat)
    ensures c < 256 && (floor - c) % 256 == 0
  {
    floor % 256
  }

  /** The four lookups `perm[perm[X] + Y]`, `perm[perm[X] + Y + 1]`,
      `perm[perm[X + 1] + Y]` and `perm[perm[X + 1] + Y + 1]`: on a doubled
      table every index is below 512 and every hash below 256. */
  function Lookup(p: seq<int>, fx: Int32, fy: Int32): (r: Corners)
    requires Table(p)
    ensures 0 <= r.aa < 256 && 0 <= r.ab < 256 && 0 <= r.ba < 256 && 0 <= r.bb < 256
  {
    var x, y := Cell(fx), Cell(fy);
    Corners(p[p[x] + y], p[p[x] + y + 1], p[p[x + 1] + y], p[p[x + 1] + y + 1])
  }

  /** Neighbouring cells along y agree on their shared corners, also
      across the wrap from cell 255 to cell 0, which is what the doubled
      table is for: the noise is continuous from one cell to the next. */
  lemma NeighboursShareCornersY(p: seq<int>, fx: Int32, fy: Int32)
    requires Table(p) && fy < INT32_MAX
    ensures Lookup(p, fx, fy).ab == Lookup(p, fx, fy + 1).aa
    ensures Lookup(p, fx, fy).bb == Lookup(p, fx, fy + 1).ba
  {
    var x, y := Cell(fx), Cell(fy);
    CellSucc(fy);
    if y == 255 {
      Doubled(p, p[x]);
      Doubled(p, p[x + 1]);
    }
  }

  /** The same along x. */
  lemma NeighboursShareCornersX(p: seq<int>, fx: Int32, fy: Int32)
    requires Table(p) && fx < INT32_MAX
    ensures Lookup(p, fx, fy).ba == Lookup(p, fx + 1, fy).aa
    ensures Lookup(p, fx, fy).bb == Lookup(p, fx + 1, fy).ab
  {
    var x := Cell(fx);
    CellSucc(fx);
    if x == 255 {
      Doubled(p, 0);
    }
  }

  /** The cell after a floor's cell is the next floor's, modulo 256. */
  lemma CellSucc(floor: Int32)
    requires floor < INT32_MAX
    ensures Cell(floor + 1) == (Cell(floor) + 1) % 256
  {
  }

  /** The lattice repeats every 256 cells in each direction. */
  lemma LookupPeriodic(p: seq<int>, fx: Int32, fy: Int32)
    requires Table(p)
    ensures fx + 256 <= INT32_MAX ==> Lookup(p, fx + 256, fy) == Lookup(p, fx, fy)
    ensures fy + 256 <= INT32_MAX ==> Lookup(p, fx, fy + 256) == Lookup(p, fx, fy)
  {
  }

  // ---- the noise object ----

  /** What the constructor establishes and every operation keeps: the
      machine has the four states and six transitions and a current
      state, the table is doubled, the generator keeps its pool, and the
      gradient data fits in a `std::string`. */
  ghost predicate Valid(n: Noise) {
    && NoiseMachine(n.machine)
    && Table(n.permutation)
    && CG.Valid(n.rng)
    && n.gradientBuffer.Valid() && |DB.Str(n.gradientBuffer)| < TWO_64
  }

  /** The table is the one the generator's seed gives. */
  ghost predicate Consistent(n: Noise) {
    n.permutation == Permutation(n.rng.seed)
  }

  /** The constructor (seed 0 by default): a generator with the seed, the
      initial machine, an empty gradient buffer and the seed's table. */
  function New(seed: Int64): (r: Noise)
    ensures Valid(r) && Consistent(r)
    ensures r.rng.seed == seed && r.machine == InitialMachine() && GetCurrentState(r) == IDLE
    ensures DB.Empty(r.gradientBuffer)
  {
    Noise(CG.New(seed), InitialMachine(), DB.New(), Permutation(seed))
  }

  /** `getCurrentState`. */
  function GetCurrentState(n: Noise): (s: NoiseState)
    requires n.machine.current.Some?
    ensures SM.GetCurrentState(n.machine) == Ok(s)
  {
    n.machine.current.value
  }

  /** `setSeed`: the generator takes the seed and the table is rebuilt from
      it; the machine and the gradient data stay. */
  function SetSeed(n: Noise, seed: Int64): (r: Noise)
    requires Valid(n)
    ensures Valid(r) && Consistent(r) && r.rng.seed == seed
    ensures r.machine == n.machine && r.gradientBuffer == n.gradientBuffer
  {
    n.(rng := CG.SetSeed(n.rng, seed).gen, permutation := Permutation(seed))
  }

  /** `reset`: a new machine, initialised again, so back to IDLE with the
      same six transitions; the seed, table and gradient data stay. */
  function Reset(n: Noise): (r: Noise)
    requires Valid(n)
    ensures Valid(r) && GetCurrentState(r) == IDLE
    ensures InitializeStateMachine(SM.New()) == Ok(r.machine)
    ensures r == n.(machine := r.machine)
  {
    InitializeBuildsInitial();
    n.(machine := InitializeStateMachine(SM.New()).value)
  }

  // ---- sample ----

  datatype Moved = Moved(machine: SM.Machine<NoiseState>, callbacks: seq<nat>)

  /** One guarded step of `sample` and `generateArea`: in state `from`, and
      with a transition to `to` registered, take it and run its callback;
      otherwise change nothing. */
  function Advance(m: SM.Machine<NoiseState>, from: NoiseState, to: NoiseState): (r: Moved)
    requires SM.Valid(m) && m.current.Some?
    ensures m.current == Some(from) && (from, to) in m.transitions ==>
              r.machine == m.(current := Some(to)) && r.callbacks == [m.transitions[(from, to)]]
    ensures !(m.current == Some(from) && (from, to) in m.transitions) ==> r == Moved(m, [])
  {
    if SM.GetCurrentState(m) == Ok(from) && SM.CanTransitionTo(m, to) then
      var t := SM.TransitionTo(m, to).value;
      Moved(t.machine, [t.callback])
    else Moved(m, [])
  }

  /** Where a sample leaves the machine: IDLE, unless it began in FINISHED,
      from which no transition is attempted. */
  function Settled(s: NoiseState): NoiseState {
    if s == FINISHED then FINISHED else IDLE
  }

  /** The registrations the guarded steps look up. */
  lemma TransitionFacts()
    ensures (IDLE, GENERATING_GRADIENTS) in Transitions
    ensures Transitions[(IDLE, GENERATING_GRADIENTS)] == IDLE_TO_GENERATING
    ensures (GENERATING_GRADIENTS, INTERPOLATING) in Transitions
    ensures Transitions[(GENERATING_GRADIENTS, INTERPOLATING)] == GENERATING_TO_INTERPOLATING
    ensures (INTERPOLATING, IDLE) in Transitions
    ensures Transitions[(INTERPOLATING, IDLE)] == INTERPOLATING_TO_IDLE
    ensures (IDLE, FINISHED) !in Transitions
  {
  }

  /** The three guarded steps of `sample` on the noise's machine `m`. */
  function SampleSteps(m: SM.Machine<NoiseState>): (r: Moved)
    requires NoiseMachine(m)
  {
    MachineValid(m);
    var m1 := Advance(m, IDLE, GENERATING_GRADIENTS);
    MachineValid(m1.machine);
    var m2 := Advance(m1.machine, GENERATING_GRADIENTS, INTERPOLATING);
    MachineValid(m2.machine);
    var m3 := Advance(m2.machine, INTERPOLATING, IDLE);
    Moved(m3.machine, m1.callbacks + m2.callbacks + m3.callbacks)
  }

  /** From each state, the steps of a sample end where `Settled` says and
      run the callbacks of the transitions they take, in order. */
  lemma SampleStepsFrom(m: SM.Machine<NoiseState>)
    requires NoiseMachine(m)
    ensures SampleSteps(m).machine == m.(current := Some(Settled(m.current.value)))
    ensures m.current == Some(IDLE) ==>
              SampleSteps(m).callbacks == [IDLE_TO_GENERATING, GENERATING_TO_INTERPOLATING, INTERPOLATING_TO_IDLE]
    ensures m.current == Some(GENERATING_GRADIENTS) ==>
              SampleSteps(m).callbacks == [GENERATING_TO_INTERPOLATING, INTERPOLATING_TO_IDLE]
    ensures m.current == Some(INTERPOLATING) ==> SampleSteps(m).callbacks == [INTERPOLATING_TO_IDLE]
    ensures m.current == Some(FINISHED) ==> SampleSteps(m).callbacks == []
  {
    TransitionFacts();
    MachineValid(m);
    var gen := m.(current := Some(GENERATING_GRADIENTS));
    var interp := m.(current := Some(INTERPOLATING));
    var idle := m.(current := Some(IDLE));
    MachineValid(gen);
    MachineValid(interp);
    match m.current.value
    case IDLE =>
      assert Advance(m, IDLE, GENERATING_GRADIENTS) == Moved(gen, [IDLE_TO_GENERATING]);
      assert Advance(gen, GENERATING_GRADIENTS, INTERPOLATING) == Moved(interp, [GENERATING_TO_INTERPOLATING]);
      assert Advance(interp, INTERPOLATING, IDLE) == Moved(idle, [INTERPOLATING_TO_IDLE]);
    case GENERATING_GRADIENTS =>
      assert Advance(m, IDLE, GENERATING_GRADIENTS) == Moved(gen, []);
      assert Advance(gen, GENERATING_GRADIENTS, INTERPOLATING) == Moved(interp, [GENERATING_TO_INTERPOLATING]);
      assert Advance(interp, INTERPOLATING, IDLE) == Moved(idle, [INTERPOLATING_TO_IDLE]);
    case INTERPOLATING =>
      assert Advance(m, IDLE, GENERATING_GRADIENTS) == Moved(interp, []);
      assert Advance(interp, GENERATING_GRADIENTS, INTERPOLATING) == Moved(interp, []);
      assert Advance(interp, INTERPOLATING, IDLE) == Moved(idle, [INTERPOLATING_TO_IDLE]);
    case FINISHED =>
      assert Advance(m, IDLE, GENERATING_GRADIENTS) == Moved(m, []);
      assert Advance(m, GENERATING_GRADIENTS, INTERPOLATING) == Moved(m, []);
      assert Advance(m, INTERPOLATING, IDLE) == Moved(m, []);
  }

  datatype Sampled = Sampled(corners: Corners, noise: Noise, callbacks: seq<nat>)

  /** `sample` at a point whose coordinates have the floors `fx` and `fy`:
      IDLE moves to GENERATING_GRADIENTS, that to INTERPOLATING, the corner
      hashes are looked up, and INTERPOLATING moves back to IDLE. Only the
      machine's current state changes. */
  function Sample(n: Noise, fx: Int32, fy: Int32): (r: Sampled)
    requires NoiseMachine(n.machine) && Table(n.permutation)
    ensures NoiseMachine(r.noise.machine) && r.noise == n.(machine := r.noise.machine)
    ensures r.corners == Lookup(n.permutation, fx, fy)
    ensures GetCurrentState(r.noise) == Settled(GetCurrentState(n))
    ensures GetCurrentState(n) == IDLE ==>
              r.callbacks == [IDLE_TO_GENERATING, GENERATING_TO_INTERPOLATING, INTERPOLATING_TO_IDLE]
    ensures GetCurrentState(n) == GENERATING_GRADIENTS ==>
              r.callbacks == [GENERATING_TO_INTERPOLATING, INTERPOLATING_TO_IDLE]
    ensures GetCurrentState(n) == INTERPOLATING ==> r.callbacks == [INTERPOLATING_TO_IDLE]
    ensures GetCurrentState(n) == FINISHED ==> r.callbacks == []
  {
    var steps := SampleSteps(n.machine);
    SampleStepsFrom(n.machine);
    Sampled(Lookup(n.permutation, fx, fy), n.(machine := steps.machine), steps.callbacks)
  }

  // ---- generateArea ----

  /** The floors of the coordinates of sample (i, j) of an area. */
  type Floors = (nat, nat) -> (Int32, Int32)

  /** Row `i` of an area: the corners of samples j = 0 .. m - 1, in order. */
  function Row(p: seq<int>, floors: Floors, i: nat, m: nat): seq<Corners>
    requires Table(p)
  {
    if m == 0 then [] else Row(p, floors, i, m - 1) + [Lookup(p, floors(i, m - 1).0, floors(i, m - 1).1)]
  }

  /** Row `i` holds one corner set per sample, sample j's at index j. */
  lemma {:induction false} RowEntries(p: seq<int>, floors: Floors, i: nat, m: nat)
    requires Table(p)
    ensures |Row(p, floors, i, m)| == m
    ensures forall j :: 0 <= j < m ==> Row(p, floors, i, m)[j] == Lookup(p, floors(i, j).0, floors(i, j).1)
  {
    if m > 0 {
      RowEntries(p, floors, i, m - 1);
    }
  }

  lemma RowStep(p: seq<int>, floors: Floors, i: nat, m: nat)
    requires Table(p)
    ensures Row(p, floors, i, m + 1) == Row(p, floors, i, m) + [Lookup(p, floors(i, m).0, floors(i, m).1)]
  {
  }

  /** The first `n` rows of an area of `m` samples each. */
  function Area(p: seq<int>, floors: Floors, n: nat, m: nat): seq<seq<Corners>>
    requires Table(p)
  {
    if n == 0 then [] else Area(p, floors, n - 1, m) + [Row(p, floors, n - 1, m)]
  }

  lemma AreaStep(p: seq<int>, floors: Floors, n: nat, m: nat)
    requires Table(p)
    ensures Area(p, floors, n + 1, m) == Area(p, floors, n, m) + [Row(p, floors, n, m)]
  {
  }

  /** An area holds `n` rows, row i at index i, each of `m` samples whose
      corners are those of the cell sample (i, j) falls in. */
  lemma {:induction false} AreaEntries(p: seq<int>, floors: Floors, n: nat, m: nat)
    requires Table(p)
    ensures |Area(p, floors, n, m)| == n
    ensures forall i :: 0 <= i < n ==> Area(p, floors, n, m)[i] == Row(p, floors, i, m)
  {
    if n > 0 {
      AreaEntries(p, floors, n - 1, m);
    }
  }

  /** One row of `generateArea`: samples j = 0 .. cols - 1 of row i. */
  method SampleRow(n: Noise, i: nat, cols: nat, floors: Floors) returns (row: seq<Corners>, r: Noise)
    requires NoiseMachine(n.machine) && Table(n.permutation)
    ensures NoiseMachine(r.machine) && r == n.(machine := r.machine)
    ensures row == Row(n.permutation, floors, i, cols)
    ensures GetCurrentState(r) == if cols > 0 then Settled(GetCurrentState(n)) else GetCurrentState(n)
  {
    row, r := [], n;
    var j: nat := 0;
    while j < cols
      invariant j <= cols
      invariant row == Row(n.permutation, floors, i, j)
      invariant NoiseMachine(r.machine) && r == n.(machine := r.machine)
      invariant GetCurrentState(r) == if j > 0 then Settled(GetCurrentState(n)) else GetCurrentState(n)
    {
      var fl := floors(i, j);
      var s := Sample(r, fl.0, fl.1);
      RowStep(n.permutation, floors, i, j);
      row, r := row + [s.corners], s.noise;
      j := j + 1;
    }
  }

  /** `generateArea` with resolution (rx, ry): the IDLE to
      GENERATING_GRADIENTS step, then rows i = 0..rx of samples j = 0..ry,
      then an attempt at IDLE to FINISHED, which is never registered and so
      never taken. A resolution below zero on either axis takes no sample;
      one of `INT_MAX` on an axis whose loop runs would overflow its `++`. */
  method GenerateArea(n: Noise, rx: Int32, ry: Int32, floors: Floors)
    returns (noiseMap: seq<seq<Corners>>, r: Noise)
    requires Valid(n)
    requires rx < INT32_MAX && (rx >= 0 ==> ry < INT32_MAX)
    ensures Valid(r) && r == n.(machine := r.machine)
    ensures noiseMap == Area(n.permutation, floors, CG.Span(0, rx), CG.Span(0, ry))
    ensures GetCurrentState(n) == FINISHED ==> GetCurrentState(r) == FINISHED
    ensures GetCurrentState(n) != FINISHED && rx >= 0 && ry >= 0 ==> GetCurrentState(r) == IDLE
    ensures !(rx >= 0 && ry >= 0) ==>
              GetCurrentState(r) == (if GetCurrentState(n) == IDLE then GENERATING_GRADIENTS else GetCurrentState(n))
  {
    MachineValid(n.machine);
    r := n.(machine := Advance(n.machine, IDLE, GENERATING_GRADIENTS).machine);
    var start := GetCurrentState(r);
    var rows, cols := CG.Span(0, rx), CG.Span(0, ry);
    noiseMap := [];
    var i: nat := 0;
    while i < rows
      invariant i <= rows && noiseMap == Area(n.permutation, floors, i, cols)
      invariant NoiseMachine(r.machine) && r == n.(machine := r.machine)
      invariant GetCurrentState(r) == if i > 0 && cols > 0 then Settled(start) else start
    {
      var row;
      assert r.permutation == n.permutation;
      row, r := SampleRow(r, i, cols, floors);
      AreaStep(n.permutation, floors, i, cols);
      noiseMap := noiseMap + [row];
      i := i + 1;
    }
    r := FinishArea(r);
  }

  /** The last step of `generateArea`: from IDLE, FINISHED is not
      registered, so the machine stays where it is. */
  function FinishArea(n: Noise): (r: Noise)
    requires NoiseMachine(n.machine)
    ensures r == n
  {
    MachineValid(n.machine);
    TransitionFacts();
    n.(machine := Advance(n.machine, IDLE, FINISHED).machine)
  }

  /** The states a noise can be observed in: IDLE and GENERATING_GRADIENTS
      only. */
  ghost predicate Resting(n: Noise) {
    Valid(n) && GetCurrentState(n) in {IDLE, GENERATING_GRADIENTS}
  }

  /** Every operation leaves a resting noise resting, so `getCurrentState`
      never reports INTERPOLATING or FINISHED: a sample passes through
      INTERPOLATING and leaves it within the same call, and the one
      transition to FINISHED ever attempted, from IDLE at the end of
      `generateArea`, was never registered. */
  lemma RestingKept(n: Noise, seed: Int64, fx: Int32, fy: Int32, s: M.Snapshot)
    requires Resting(n) && s.Valid()
    ensures Resting(New(seed))
    ensures Resting(Sample(n, fx, fy).noise)
    ensures Resting(SetSeed(n, seed))
    ensures Resting(Reset(n))
    ensures Resting(LoadFromSnapshot(n, s).noise)
  {
  }

  // ---- Memento ----

  /** `_saveToSnapshot`: the generator's seed as a `long long`, then the
      gradient buffer's contents as a string. */
  function SaveToSnapshot(n: Noise, s: M.Snapshot): (r: M.Snapshot)
    requires Valid(n) && s.Valid()
    ensures r.Valid()
    ensures r.Unread() == s.Unread() + EncodeInt64(n.rng.seed) + DB.EncodeString(DB.Str(n.gradientBuffer))
  {
    M.SaveString(M.Snapshot(DB.WriteLongLong(s.buffer, n.rng.seed)), DB.Str(n.gradientBuffer))
  }

  datatype Restored = Restored(result: Result<(), DB.Error>, noise: Noise, snapshot: M.Snapshot)

  /** The second half of `_loadFromSnapshot`, once the generator has the
      seed: the gradient string into the cleared buffer, then the table
      rebuilt; a short snapshot throws with neither done. */
  function LoadGradients(n: Noise, seed: Int64, s: M.Snapshot): (r: Restored)
    requires Valid(n) && s.Valid()
    ensures Valid(r.noise) && r.snapshot.Valid() && r.noise.machine == n.machine && r.noise.rng == n.rng
    ensures r.result.Err? ==> r.noise == n
    ensures r.result.Ok? <==>
              var u := s.Unread();
              8 <= |u| && 8 + DecodeLE(u[..8]) <= |u|
    ensures r.result.Ok? ==>
              var u := s.Unread();
              && 8 <= |u|
              && var len := DecodeLE(u[..8]);
              && 8 + len <= |u|
              && DB.Str(r.noise.gradientBuffer) == u[8..8 + len]
              && r.snapshot.Unread() == u[8 + len..]
              && r.noise.permutation == Permutation(seed)
  {
    var str := M.LoadString(s);
    match str.result
    case Err(e) => Restored(Err(e), n, str.state)
    case Ok(data) =>
      Pow256Widths();
      var buffer := DB.Append(DB.Clear(n.gradientBuffer), data);
      Restored(Ok(()), n.(gradientBuffer := buffer, permutation := Permutation(seed)), str.state)
  }

  /** `_loadFromSnapshot`: reads the seed and gives it to the generator,
      then reads the gradient string into the cleared buffer and rebuilds
      the table. A snapshot too short for the seed throws before anything
      changes; one too short for the string throws after the seed was set,
      leaving the old gradient data and a table that is not the new
      seed's. */
  function LoadFromSnapshot(n: Noise, s: M.Snapshot): (r: Restored)
    requires Valid(n) && s.Valid()
    ensures Valid(r.noise) && r.snapshot.Valid() && r.noise.machine == n.machine
    ensures |s.Unread()| < 8 ==> r == Restored(Err(DB.OutOfBounds), n, s)
    ensures |s.Unread()| >= 8 ==> r.noise.rng.seed == DecodeInt64(s.Unread()[..8])
    ensures r.result.Err? ==>
              r.noise.gradientBuffer == n.gradientBuffer && r.noise.permutation == n.permutation
    ensures r.result.Ok? ==> |s.Unread()| >= 8 && Consistent(r.noise)
    ensures r.result.Ok? <==>
              var u := s.Unread();
              16 <= |u| && 16 + DecodeLE(u[8..16]) <= |u|
  {
    var seed := DB.ReadLongLong(s.buffer);
    match seed.result
    case Err(e) => Restored(Err(e), n, M.Snapshot(seed.state))
    case Ok(v) =>
      var s1 := M.Snapshot(seed.state);
      var u := s.Unread();
      assert s1.Unread() == u[8..];
      assert |u| >= 16 ==> u[8..][..8] == u[8..16];
      LoadGradients(n.(rng := CG.SetSeed(n.rng, v).gen), v, s1)
  }

  /** A load that succeeds has read the seed, then a whole string whose
      bytes are the new gradient data, and stops right after it. */
  lemma LoadedGradients(n: Noise, s: M.Snapshot)
    requires Valid(n) && s.Valid()
    ensures var r := LoadFromSnapshot(n, s);
            r.result.Ok? ==>
              var u := s.Unread();
              && 16 <= |u|
              && var len := DecodeLE(u[8..16]);
              && 16 + len <= |u|
              && DB.Str(r.noise.gradientBuffer) == u[16..16 + len]
              && r.snapshot.Unread() == u[16 + len..]
  {
    var u := s.Unread();
    var seed := DB.ReadLongLong(s.buffer);
    if seed.result.Ok? {
      var s1 := M.Snapshot(seed.state);
      assert s1.Unread() == u[8..];
      if |u| >= 16 {
        assert u[8..][..8] == u[8..16];
      }
    }
  }

  /** `Memento::save`: the saves into a new snapshot. */
  function Save(n: Noise): (r: M.Snapshot)
    requires Valid(n)
    ensures r.Valid() && r.Unread() == EncodeInt64(n.rng.seed) + DB.EncodeString(DB.Str(n.gradientBuffer))
  {
    var r := SaveToSnapshot(n, M.New());
    assert [] + EncodeInt64(n.rng.seed) == EncodeInt64(n.rng.seed);
    r
  }

  /** `Memento::load`: the loads from a copy of the snapshot, so the
      snapshot handed in is left as it was. */
  function Load(n: Noise, s: M.Snapshot): (r: Step<(), DB.Error, Noise>)
    requires Valid(n) && s.Valid()
    ensures Valid(r.state) && r.state.machine == n.machine
  {
    var t := LoadFromSnapshot(n, M.Assign(s, s));
    Step(t.result, t.noise)
  }

  /** Saving one noise and loading the snapshot into another gives the
      second the first one's seed, table and gradient data; its machine
      stays as it was. */
  lemma SaveThenLoad(n: Noise, other: Noise)
    requires Valid(n) && Consistent(n) && Valid(other)
    ensures var r := Load(other, Save(n));
            && r.result.Ok? && Consistent(r.state)
            && r.state.rng.seed == n.rng.seed && r.state.permutation == n.permutation
            && DB.Str(r.state.gradientBuffer) == DB.Str(n.gradientBuffer)
            && r.state.machine == other.machine
  {
    var s := Save(n);
    var str := DB.Str(n.gradientBuffer);
    var u := s.Unread();
    assert u == EncodeInt64(n.rng.seed) + DB.EncodeString(str);
    DB.ReadLongLongWritten(s.buffer, n.rng.seed, DB.EncodeString(str));
    var s1 := M.Snapshot(DB.ReadLongLong(s.buffer).state);
    assert s1.Unread() == DB.EncodeString(str) + [];
    DB.ReadStringWritten(s1.buffer, str, []);
  }
}
