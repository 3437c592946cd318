/**
 The class `Ising` of app/utils/model.py: a lattice of integer spins held in a
 two-dimensional array that `evolve_one` updates in place, and a list of
 observation records that `evolve` appends to. The random draws of the source
 (the initial grid, the chosen cell, the acceptance test) are inputs here.
 */
module IsingModel {
  import opened Lattice

  datatype Option<T> = None | Some(value: T)

  /** One record appended to `observables`. `state` is the lattice array itself,
      not a copy of it, exactly as the source stores `self.state`. */
  datatype Observation = Observation(step: int, energy: real, state: array2<int>)

  /** The construction dictionary; a key that is absent is None. */
  datatype Params = Params(
    width: Option<int>,
    height: Option<int>,
    states: Option<seq<int>>,
    maxSteps: Option<int>,
    observables: Option<seq<Observation>>)

  /** How `evolve` ends: normally, or with the ZeroDivisionError that
      `steps / observe_counts` raises when `observe_counts` is 0. */
  datatype EvolveResult = Done | ZeroDivisionError

  /** The top-left h x w window of an array as a grid value. */
  function Snapshot(a: array2<int>, h: int, w: int): (g: Grid)
    reads a
    requires 0 < h <= a.Length0 && 0 < w <= a.Length1
    ensures IsGrid(g) && Height(g) == h && Width(g) == w
    ensures forall i, j :: 0 <= i < h && 0 <= j < w ==> g[i][j] == a[i, j]
  {
    seq(h, i reads a requires 0 <= i < h => seq(w, j reads a requires 0 <= j < w => a[i, j]))
  }

  /** `int(steps / observe_counts)`: the quotient truncated toward zero. */
  function TruncDiv(a: int, b: int): int
    requires b != 0
  {
    var q := (if a < 0 then -a else a) / (if b < 0 then -b else b);
    if (a < 0) == (b < 0) then q else -q
  }

  /** The floor quotient brackets its dividend: `b * (a / b) <= a < b * (a / b + 1)`. */
  lemma FloorBounds(a: int, b: int)
    requires b > 0
    ensures (a / b) * b <= a < (a / b + 1) * b
  {
    var q, m := a / b, a % b;
    assert a == b * q + m && 0 <= m < b;
    assert (q + 1) * b == q * b + b;
  }

  /** For a non-negative dividend and a positive divisor, `int()` of the
      quotient is the floor quotient, which brackets the dividend. */
  lemma TruncDivFloor(a: int, b: int)
    requires b != 0
    ensures 0 <= a && 0 < b ==> TruncDiv(a, b) == a / b && (a / b) * b <= a < (a / b + 1) * b
  {
    if 0 <= a && 0 < b {
      FloorBounds(a, b);
    }
  }

  /** Fewer steps than observations give the quotient 0. */
  lemma FloorBelowDivisor(a: int, b: int)
    requires b != 0
    ensures 0 <= a < b ==> a / b == 0
  {
  }

  /** At least as many steps as observations give a quotient of at least 1. */
  lemma FloorFromDivisor(a: int, b: int)
    requires b != 0
    ensures 0 < b <= a ==> a / b >= 1
  {
    if 0 < b <= a {
      var q, m := a / b, a % b;
      assert a == b * q + m && m < b;
    }
  }

  /** When exactly one of the two is negative, the truncated quotient is at
      most 0. */
  lemma TruncDivMixedSigns(a: int, b: int)
    requires b != 0
    ensures (a < 0) != (b < 0) ==> TruncDiv(a, b) <= 0
  {
    var n, d := if a < 0 then -a else a, if b < 0 then -b else b;
    assert n / d >= 0;
  }

  /** The sampling interval of `evolve`: the truncated quotient, raised to 1
      when it is smaller. For a non-negative step count and a positive number
      of observations it is the floor of their quotient, but at least 1; when
      exactly one of the two is negative the quotient is at most 0, and the
      interval is 1. */
  function ObserveInterval(steps: int, counts: int): (r: int)
    requires counts != 0
    ensures r >= 1
    ensures 0 <= steps < counts ==> r == 1
    ensures 0 < counts <= steps ==> r * counts <= steps < (r + 1) * counts
    ensures steps >= 0 && counts < 0 ==> r == 1
    ensures steps < 0 && counts > 0 ==> r == 1
  {
    var q := TruncDiv(steps, counts);
    TruncDivFloor(steps, counts);
    FloorBelowDivisor(steps, counts);
    FloorFromDivisor(steps, counts);
    TruncDivMixedSigns(steps, counts);
    if q < 1 then 1 else q
  }

  /** The sampling intervals the defaults give: 100 steps and 10 observations
      give 10; 5 steps and 10 observations give 1. */
  lemma DefaultIntervals()
    ensures ObserveInterval(100, 10) == 10
    ensures ObserveInterval(5, 10) == 1
  {
  }

  /** The records `evolve` appends for the draws ds, starting from g: one per
      step, numbered from 0, each holding the energy right after its step and
      the lattice array arr itself. */
  function Trace(g: Grid, ds: seq<Draw>, arr: array2<int>): (r: seq<Observation>)
    requires IsGrid(g) && DrawsFit(g, ds)
    ensures |r| == |ds|
    ensures forall k :: 0 <= k < |r| ==> r[k].step == k && r[k].state == arr
    decreases |ds|
  {
    if ds == [] then []
    else
      var prev := ds[..|ds| - 1];
      assert DrawsFit(g, prev);
      Trace(g, prev, arr) + [Observation(|ds| - 1, ObservedEnergy(Run(g, ds)), arr)]
  }

  /** Record k of a trace holds the energy of the lattice right after step k. */
  lemma {:induction false} TraceEnergy(g: Grid, ds: seq<Draw>, arr: array2<int>, k: nat)
    requires IsGrid(g) && DrawsFit(g, ds) && k < |ds|
    ensures DrawsFit(g, ds[..k + 1])
    ensures Trace(g, ds, arr)[k].energy == ObservedEnergy(Run(g, ds[..k + 1]))
    decreases |ds|
  {
    var prev := ds[..|ds| - 1];
    assert DrawsFit(g, prev);
    if k == |ds| - 1 {
      assert ds[..k + 1] == ds;
    } else {
      TraceEnergy(g, prev, arr, k);
      assert prev[..k + 1] == ds[..k + 1];
    }
  }

  /** Running one more draw from g takes the grid reached after the first i
      draws one step further. */
  lemma RunExtend(g: Grid, ds: seq<Draw>, i: nat)
    requires IsGrid(g) && DrawsFit(g, ds) && i < |ds|
    ensures DrawsFit(g, ds[..i]) && DrawsFit(g, ds[..i + 1])
    ensures InGrid(Run(g, ds[..i]), ds[i].row, ds[i].col)
    ensures Run(g, ds[..i + 1]) == Step(Run(g, ds[..i]), ds[i])
  {
    assert ds[..i + 1][..i] == ds[..i];
  }

  /** Running one more draw appends one more record, holding the energy of
      the grid it reached, after the records `before` that were there already. */
  lemma TraceExtend(g: Grid, ds: seq<Draw>, i: nat, arr: array2<int>, before: seq<Observation>, next: Grid)
    requires IsGrid(g) && DrawsFit(g, ds) && i < |ds|
    requires DrawsFit(g, ds[..i]) && InGrid(Run(g, ds[..i]), ds[i].row, ds[i].col)
    requires next == Step(Run(g, ds[..i]), ds[i])
    ensures DrawsFit(g, ds[..i + 1])
    ensures next == Run(g, ds[..i + 1])
    ensures before + Trace(g, ds[..i + 1], arr) ==
      (before + Trace(g, ds[..i], arr)) + [Observation(i, ObservedEnergy(next), arr)]
  {
    RunExtend(g, ds, i);
    var t := ds[..i + 1];
    assert t[..|t| - 1] == ds[..i];
    var done, o := Trace(g, ds[..i], arr), Observation(i, ObservedEnergy(next), arr);
    assert Trace(g, t, arr) == done + [o];
    assert before + (done + [o]) == (before + done) + [o];
  }

  /** The number of steps `evolve` runs: `range(steps)` is empty for a
      negative count, and a missing count means 100. */
  function StepCount(steps: Option<int>): nat {
    var n := if steps.Some? then steps.value else 100;
    if n < 0 then 0 else n
  }

  class Ising {
    var width: int
    var height: int
    var states: seq<int>
    var maxSteps: int
    var observables: seq<Observation>
    /** Null until `initialize` has stored a lattice. */
    var state: array2?<int>
    /** The lattice as a grid value: the top-left height x width window of
        `state`, kept in step with it by every method. */
    ghost var grid: Lattice.Grid

    /** `__init__`: every parameter falls back to its default when it is
        absent or falsy, so a width or height of 0 and an empty list of spin
        values or of observables are replaced too. */
    constructor (params: Params)
      ensures width == (if params.width.Some? && params.width.value != 0 then params.width.value else 20)
      ensures height == (if params.height.Some? && params.height.value != 0 then params.height.value else 20)
      ensures states == (if params.states.Some? && params.states.value != [] then params.states.value else [-1, 1])
      ensures maxSteps == (if params.maxSteps.Some? && params.maxSteps.value != 0 then params.maxSteps.value else 100000)
      ensures observables == (if params.observables.Some? && params.observables.value != [] then params.observables.value else [])
      ensures state == null
    {
      width := if params.width.Some? && params.width.value != 0 then params.width.value else 20;
      height := if params.height.Some? && params.height.value != 0 then params.height.value else 20;
      states := if params.states.Some? && params.states.value != [] then params.states.value else [-1, 1];
      maxSteps := if params.maxSteps.Some? && params.maxSteps.value != 0 then params.maxSteps.value else 100000;
      observables := if params.observables.Some? && params.observables.value != [] then params.observables.value else [];
      state := null;
      grid := [];
    }

    /** A lattice is stored, covers every coordinate the methods visit, and
        `grid` shows its top-left height x width window. */
    ghost predicate Valid()
      reads this`state, this`height, this`width, this`grid, state
    {
      && state != null && 0 < height <= state.Length0 && 0 < width <= state.Length1
      && IsGrid(grid) && Height(grid) == height && Width(grid) == width
      && forall a, b :: 0 <= a < height && 0 <= b < width ==> grid[a][b] == state[a, b]
    }

    /** `initialize`: stores the given lattice as it is, or, when none is
        given, the lattice `np.random.choice` drew (passed in as `drawn`: a
        height x width array of values taken from `states`). The source does
        not check the shape of a given lattice; the other methods need it to
        cover height x width. */
    method Initialize(given: Option<array2<int>>, drawn: array2<int>)
      requires given.None? ==> drawn.Length0 == height && drawn.Length1 == width
      requires given.None? ==>
        forall a, b :: 0 <= a < drawn.Length0 && 0 <= b < drawn.Length1 ==> drawn[a, b] in states
      modifies this`state, this`grid
      ensures state == (if given.Some? then given.value else drawn)
      ensures 0 < height <= state.Length0 && 0 < width <= state.Length1 ==>
        Valid() && grid == Snapshot(state, height, width)
    {
      if given.None? {
        state := drawn;
      } else {
        state := given.value;
      }
      if 0 < height <= state.Length0 && 0 < width <= state.Length1 {
        grid := Snapshot(state, height, width);
      }
    }

    /** `_neighbours`: the four spins at the wrapped coordinates up, down,
        left and right of (i, j), in that order. */
    method Neighbours(i: int, j: int) returns (ns: seq<int>)
      requires Valid() && 0 <= i < height && 0 <= j < width
      ensures var c := NeighbourCoords(i, j, height, width);
        |ns| == 4 && forall k :: 0 <= k < 4 ==> ns[k] == state[c[k].0, c[k].1]
      ensures ns == NeighbourValues(grid, i, j)
    {
      var c := NeighbourCoords(i, j, height, width);
      ns := [];
      for k := 0 to 4
        invariant |ns| == k
        invariant forall m :: 0 <= m < k ==> ns[m] == state[c[m].0, c[m].1]
      {
        ns := ns + [state[c[k].0, c[k].1]];
      }
    }

    /** `delta_energy`: twice the spin at (i, j) times the sum of its four
        neighbours, the energy cost of flipping it; the lattice is not changed. */
    method DeltaEnergy(i: int, j: int) returns (d: int)
      requires Valid() && 0 <= i < height && 0 <= j < width
      ensures var c := NeighbourCoords(i, j, height, width);
        d == 2 * state[i, j] *
          (state[c[0].0, c[0].1] + state[c[1].0, c[1].1] + state[c[2].0, c[2].1] + state[c[3].0, c[3].1])
      ensures d == Delta(grid, i, j)
    {
      var ns := Neighbours(i, j);
      var coordState := state[i, j];
      d := 2 * coordState * Sum(ns);
      NeighbourSum(grid, i, j);
    }

    /** `evolve_one`: the drawn cell is negated when flipping it lowers the
        energy or the draw accepts the flip, and written back unchanged
        otherwise; no other cell of the array changes. */
    method EvolveOne(d: Draw)
      requires Valid() && 0 <= d.row < height && 0 <= d.col < width
      modifies this`grid, state
      ensures Valid()
      ensures grid == Step(old(grid), d)
      ensures state[d.row, d.col] ==
        if Accepts(old(grid), d) then -old(state[d.row, d.col]) else old(state[d.row, d.col])
      ensures forall a, b :: 0 <= a < state.Length0 && 0 <= b < state.Length1 && (a, b) != (d.row, d.col) ==>
        state[a, b] == old(state[a, b])
    {
      var current := state[d.row, d.col];
      var deltaE := DeltaEnergy(d.row, d.col);
      var next;
      if deltaE < 0 || d.accept {
        next := -1 * current;
      } else {
        next := current;
      }
      state[d.row, d.col] := next;
      StepChangesOneCell(grid, d);
      grid := Step(grid, d);
    }

    /** `evolve`: fills in the defaults, computes the sampling interval and
        runs the loop. A 0 for `observe_counts` raises before anything
        changes. */
    method Evolve(steps: Option<int>, observeCounts: Option<int>, draws: seq<Draw>) returns (r: EvolveResult)
      requires Valid()
      requires |draws| == StepCount(steps)
      requires DrawsFit(grid, draws)
      modifies this`observables, this`grid, state
      ensures Valid()
      ensures r == ZeroDivisionError <==> observeCounts == Some(0)
      ensures r == ZeroDivisionError ==> grid == old(grid) && observables == old(observables)
      ensures r == ZeroDivisionError ==> unchanged(state)
      ensures forall a, b :: 0 <= a < state.Length0 && 0 <= b < state.Length1 && !(a < height && b < width) ==>
        state[a, b] == old(state[a, b])
      ensures r == Done ==> grid == Run(old(grid), draws)
      ensures r == Done ==> observables == old(observables) + Trace(old(grid), draws, state)
    {
      var n := if steps.Some? then steps.value else 100;
      var counts := if observeCounts.Some? then observeCounts.value else 10;
      if counts == 0 {
        return ZeroDivisionError;
      }
      var observeInterval := ObserveInterval(n, counts);
      Sweep(n, observeInterval, draws);
      return Done;
    }

    /** The loop of `evolve`: one `evolve_one` per draw. Because
        `observe_count` stays 0, every step appends a record, whatever the
        interval; the records already in `observables` stay in front. */
    method Sweep(n: int, observeInterval: int, draws: seq<Draw>)
      requires Valid() && observeInterval >= 1
      requires |draws| == (if n < 0 then 0 else n)
      requires DrawsFit(grid, draws)
      modifies this`observables, this`grid, state
      ensures Valid()
      ensures grid == Run(old(grid), draws)
      ensures observables == old(observables) + Trace(old(grid), draws, state)
      ensures forall a, b :: 0 <= a < state.Length0 && 0 <= b < state.Length1 && !(a < height && b < width) ==>
        state[a, b] == old(state[a, b])
    {
      ghost var g0 := grid;
      ghost var before := observables;
      var step := 0;
      var observeCount := 0;
      var i := 0;
      assert draws[..0] == [];
      while i < n
        invariant 0 <= i <= |draws| && (i < n ==> i < |draws|) && (n >= 0 ==> i <= n)
        invariant step == i && observeCount == 0
        invariant Valid() && DrawsFit(g0, draws[..i])
        invariant grid == Run(g0, draws[..i])
        invariant observables == before + Trace(g0, draws[..i], state)
        invariant forall a, b :: 0 <= a < state.Length0 && 0 <= b < state.Length1 && !(a < height && b < width) ==>
          state[a, b] == old(state[a, b])
      {
        RunExtend(g0, draws, i);
        EvolveOne(draws[i]);
        // observe_count is never incremented, so this test always holds
        if observeCount % observeInterval == 0 {
          Record(step);
        }
        TraceExtend(g0, draws, i, state, before, grid);
        step := step + 1;
        i := i + 1;
      }
      assert draws[..i] == draws;
    }

    /** The append in `evolve`: the record `observe` returns goes at the end
        of `observables`. */
    method Record(step: int)
      requires Valid()
      modifies this`observables
      ensures Valid()
      ensures observables == old(observables) + [Observation(step, ObservedEnergy(grid), state)]
    {
      var o := Observe(step);
      observables := observables + [o];
    }

    /** `observe`: the step, the current observed energy, and the lattice
        array itself. */
    method Observe(step: int) returns (o: Observation)
      requires Valid()
      ensures o.step == step && o.state == state
      ensures o.energy == ObservedEnergy(grid)
    {
      var e := ObserveEnergy();
      o := Observation(step, e, state);
    }

    /** The term the energy loop adds for (i, j), read off the array with
        Python's `%` for the wrapped indices, is the term `RowTerms` holds. */
    lemma SiteTermOfArray(i: int, j: int, magIJ: int, magNeighbours: int)
      requires Valid() && 0 <= i < height && 0 <= j < width
      requires magIJ == state[i, j]
      requires var ip1, im1, jp1 := (i + 1) % height, (i - 1) % height, (j + 1) % width;
        magNeighbours == state[ip1, j] + state[i, jp1] + state[im1, j] + state[i, jp1]
      ensures RowTerms(grid, i)[j] == -magIJ * magNeighbours
    {
    }

    /** `_observe__energy`: for each row, adds every site's term (with the
        right-hand neighbour counted twice) and then divides the running
        total by 4. The inner loop is `AddRow`. */
    method ObserveEnergy() returns (total: real)
      requires Valid()
      ensures total == ObservedEnergy(grid)
      ensures total == WeightedRows(grid, height, height)
    {
      total := 0.0;
      for i := 0 to height
        invariant total == EnergyUpTo(grid, i)
      {
        total := AddRow(i, total);
        total := total / 4.0;
      }
      EnergyRowWeights(grid, height);
    }

    /** The inner loop of `_observe__energy`: adds the term of every site of
        row i to the running total. */
    method AddRow(i: int, start: real) returns (total: real)
      requires Valid() && 0 <= i < height
      ensures total == start + RowSum(grid, i) as real
    {
      ghost var terms := RowTerms(grid, i);
      ghost var acc := 0;
      total := start;
      for j := 0 to width
        invariant acc == Sum(terms[..j])
        invariant total == start + acc as real
      {
        var magIJ := state[i, j];
        var ip1 := (i + 1) % height;
        var im1 := (i - 1) % height;
        var jp1 := (j + 1) % width;
        var jm1 := (j - 1) % width;  // computed, never used
        var magNeighbours := state[ip1, j] + state[i, jp1] + state[im1, j] + state[i, jp1];
        SiteTermOfArray(i, j, magIJ, magNeighbours);
        SumSnoc(terms, j);
        total := total + (-magIJ * magNeighbours) as real;
        acc := acc + terms[j];
      }
      assert terms[..width] == terms;
    }
  }
}
