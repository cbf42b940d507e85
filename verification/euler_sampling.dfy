/**
 The stepping engine of the Euler–Maruyama sampler (`_sample`,
 `_while_loop`, `_for_loop` and `_euler_step` in
 tf_quant_finance/models/euler_sampling.py).

 The per-path state (all sample paths at one grid time) is an abstract type
 `S`, and one Euler increment is an abstract `update(t, dt, state, dw)`:
 drift and volatility evaluated at time `t`, the step length `dt` and the
 unscaled normal draw `dw`. The code evaluates drift and volatility at the
 END of the step, `grid[i + 1]`, and that is what `StateAt` and `EulerStep`
 pass as `t`.
 */
module EulerSampling {
  import opened Sequences
  import opened TimeGrid
  import opened Draws

  /** `dt = times[1:] - times[:-1]`: one positive length per step, and the
      step count `steps_num` is one less than the grid size. */
  function Increments(grid: seq<real>): (dt: seq<real>)
    requires |grid| >= 1
    ensures |dt| == |grid| - 1
    ensures StrictlyIncreasing(grid) ==> forall i :: 0 <= i < |dt| ==> dt[i] > 0.0
  {
    seq(|grid| - 1, i requires 0 <= i < |grid| - 1 => grid[i + 1] - grid[i])
  }

  /** The first `n` step lengths add up to the time of grid point `n`
      measured from the start of the grid. */
  lemma IncrementsTelescope(grid: seq<real>, n: nat)
    requires n < |grid|
    ensures grid[0] + Sum(Increments(grid)[..n]) == grid[n]
  {
    SumTelescopes(grid, Increments(grid), n);
  }

  /** `maximum_iterations` of the bulk loop: `int(1 / time_step)` plus the
      grid size. It always exceeds the number of steps, so it never cuts
      the loop short. */
  function MaxIterations(timeStep: real, gridSize: nat): (cap: int)
    requires timeStep > 0.0
    ensures cap > gridSize - 1
  {
    (1.0 / timeStep).Floor + gridSize
  }

  /** Everything the drivers need: the grid, its keep-mask, the draw
      source, the abstract Euler update and the initial state (already
      broadcast over the sample paths). */
  datatype Engine<!S, !D> = Engine(
    grid: seq<real>,
    keepMask: seq<bool>,
    draws: DrawSource<D>,
    lazyDraw: nat -> D,
    update: (real, real, S, D) -> S,
    initialState: S)
  {
    predicate Valid() {
      && |grid| >= 1
      && |keepMask| == |grid|
      && (draws.Precomputed? ==> |draws.normalDraws| == |grid| - 1)
    }

    function StepsNum(): nat
      requires Valid()
    {
      |grid| - 1
    }

    /** The draw consumed by step `i`. */
    function StepDraw(i: nat): D
      requires Valid() && i < StepsNum()
    {
      DrawAt(draws, i, lazyDraw)
    }

    /** The state of the Euler scheme at grid position `n`, starting from
        the initial state at position 0: the reference path both drivers
        must follow. */
    function StateAt(n: nat): S
      requires Valid() && n < |grid|
    {
      if n == 0 then initialState
      else update(grid[n], Increments(grid)[n - 1], StateAt(n - 1), StepDraw(n - 1))
    }
  }

  /** The loop variables threaded through the bulk loop:
      `(i, written_count, current_state, result)`. */
  datatype Carry<S> = Carry(i: nat, written: nat, state: S, result: seq<S>)

  /** `utils.maybe_update_along_axis`: replace slot `ind` when `doUpdate`
      holds, otherwise leave the buffer as it is. */
  function MaybeUpdate<S>(result: seq<S>, doUpdate: bool, ind: nat, v: S): (r: seq<S>)
    requires doUpdate ==> ind < |result|
    ensures |r| == |result|
    ensures forall k :: 0 <= k < |r| && (k != ind || !doUpdate) ==> r[k] == result[k]
    ensures doUpdate ==> r[ind] == v
  {
    if doUpdate then result[ind := v] else result
  }

  /** `_euler_step`: advance the state one grid step and, when the grid
      point reached is a requested one, write it into the next free output
      slot. */
  function EulerStep<S, D>(e: Engine<S, D>, c: Carry<S>): (r: Carry<S>)
    requires e.Valid() && c.i < e.StepsNum()
    requires e.keepMask[c.i + 1] ==> c.written < |c.result|
    ensures r.i == c.i + 1
    ensures c.state == e.StateAt(c.i) ==> r.state == e.StateAt(c.i + 1)
    ensures r.written == c.written + (if e.keepMask[c.i + 1] then 1 else 0)
    ensures |r.result| == |c.result|
    ensures forall k :: 0 <= k < |c.result| && k != c.written ==> r.result[k] == c.result[k]
    ensures e.keepMask[c.i + 1] ==> r.result[c.written] == r.state
    ensures !e.keepMask[c.i + 1] ==> r.result == c.result
  {
    var i := c.i;
    var dw := e.StepDraw(i);
    var next := e.update(e.grid[i + 1], Increments(e.grid)[i], c.state, dw);
    var keep := e.keepMask[i + 1];
    Carry(i + 1, c.written + (if keep then 1 else 0), next, MaybeUpdate(c.result, keep, c.written, next))
  }

  /** Every kept grid point up to `upto` sits, with its reference state, in
      the slot numbered by the kept points before it, and that slot lies
      below `bound`. */
  ghost predicate SlotsHold<S, D>(e: Engine<S, D>, upto: nat, bound: nat, result: seq<S>)
    requires e.Valid()
  {
    forall j {:trigger CountTrue(e.keepMask[..j])} :: 0 <= j <= upto && j < |e.grid| && e.keepMask[j] ==>
      CountTrue(e.keepMask[..j]) < bound && CountTrue(e.keepMask[..j]) < |result|
      && result[CountTrue(e.keepMask[..j])] == e.StateAt(j)
  }

  /** What the bulk loop keeps true after `c.i` steps: the cursor counts
      the kept grid points `0..c.i`, the state is the reference state at
      `c.i`, and every kept point so far sits in the slot numbered by the
      kept points before it, below the cursor. */
  ghost predicate WriteInvariant<S, D>(e: Engine<S, D>, c: Carry<S>, numRequested: nat)
    requires e.Valid()
  {
    && c.i <= e.StepsNum()
    && c.written == CountTrue(e.keepMask[..c.i + 1])
    && c.state == e.StateAt(c.i)
    && |c.result| == numRequested
    && c.written <= numRequested
    && SlotsHold(e, c.i, c.written, c.result)
  }

  /** Writing at or above the bound, without moving the bound down, leaves
      the slots written so far in place. */
  lemma SlotsSurviveWrite<S, D>(e: Engine<S, D>, upto: nat, bound: nat, newBound: nat, result: seq<S>, next: seq<S>)
    requires e.Valid() && SlotsHold(e, upto, bound, result)
    requires bound <= newBound && |next| == |result|
    requires forall k :: 0 <= k < bound && k < |result| ==> next[k] == result[k]
    ensures SlotsHold(e, upto, newBound, next)
  {
    forall j | 0 <= j <= upto && j < |e.grid| && e.keepMask[j]
      ensures CountTrue(e.keepMask[..j]) < newBound && CountTrue(e.keepMask[..j]) < |next|
              && next[CountTrue(e.keepMask[..j])] == e.StateAt(j)
    {
      assert result[CountTrue(e.keepMask[..j])] == e.StateAt(j);
    }
  }

  /** One more grid point: when it is kept, its state must sit in the slot
      the cursor points at, and the cursor moves past it. */
  lemma SlotsExtend<S, D>(e: Engine<S, D>, upto: nat, bound: nat, result: seq<S>)
    requires e.Valid() && upto + 1 < |e.grid|
    requires bound == CountTrue(e.keepMask[..upto + 1])
    requires SlotsHold(e, upto, bound, result)
    requires e.keepMask[upto + 1] ==> bound < |result| && result[bound] == e.StateAt(upto + 1)
    ensures SlotsHold(e, upto + 1, bound + (if e.keepMask[upto + 1] then 1 else 0), result)
  {
    var mask := e.keepMask;
    CountTrueStep(mask, upto + 1);
    forall j | 0 <= j <= upto + 1 && j < |e.grid| && mask[j]
      ensures CountTrue(mask[..j]) < bound + (if mask[upto + 1] then 1 else 0) && CountTrue(mask[..j]) < |result|
              && result[CountTrue(mask[..j])] == e.StateAt(j)
    {
      if j <= upto {
        assert result[CountTrue(mask[..j])] == e.StateAt(j);
      }
    }
  }

  /** The slots after one step: the old ones survive the write at the
      cursor, and the new point, when kept, sits at the cursor. */
  lemma SlotsAfterWrite<S, D>(e: Engine<S, D>, c: Carry<S>, r: Carry<S>)
    requires e.Valid() && c.i < e.StepsNum()
    requires c.written == CountTrue(e.keepMask[..c.i + 1])
    requires SlotsHold(e, c.i, c.written, c.result)
    requires r.i == c.i + 1
    requires r.written == c.written + (if e.keepMask[c.i + 1] then 1 else 0)
    requires |r.result| == |c.result|
    requires forall k :: 0 <= k < |c.result| && k != c.written ==> r.result[k] == c.result[k]
    requires e.keepMask[c.i + 1] ==> c.written < |c.result| && r.result[c.written] == e.StateAt(c.i + 1)
    ensures SlotsHold(e, r.i, r.written, r.result)
  {
    SlotsSurviveWrite(e, c.i, c.written, c.written, c.result, r.result);
    SlotsExtend(e, c.i, c.written, r.result);
  }

  /** A step that advances the reference path by one grid point, moves the
      cursor past the new point exactly when it is kept, writes only slot
      `c.written` and writes the new state there keeps the write invariant. */
  lemma WriteKeepsInvariant<S, D>(e: Engine<S, D>, c: Carry<S>, r: Carry<S>, numRequested: nat)
    requires e.Valid() && CountTrue(e.keepMask) == numRequested
    requires WriteInvariant(e, c, numRequested) && c.i < e.StepsNum()
    requires r.i == c.i + 1 && r.state == e.StateAt(c.i + 1)
    requires r.written == c.written + (if e.keepMask[c.i + 1] then 1 else 0)
    requires |r.result| == |c.result|
    requires forall k :: 0 <= k < |c.result| && k != c.written ==> r.result[k] == c.result[k]
    requires e.keepMask[c.i + 1] ==> c.written < |c.result| && r.result[c.written] == r.state
    ensures WriteInvariant(e, r, numRequested)
  {
    CountTrueStep(e.keepMask, c.i + 1);
    CountTrueAtMostTotal(e.keepMask, c.i + 2);
    SlotsAfterWrite(e, c, r);
  }

  /** While kept grid points remain, the cursor points inside the buffer:
      the write of the next kept point never falls off its end. */
  lemma CursorInRange<S, D>(e: Engine<S, D>, c: Carry<S>, numRequested: nat)
    requires e.Valid() && CountTrue(e.keepMask) == numRequested
    requires WriteInvariant(e, c, numRequested) && c.i < e.StepsNum()
    ensures e.keepMask[c.i + 1] ==> c.written < |c.result|
  {
    if e.keepMask[c.i + 1] {
      CountTrueBelowTotal(e.keepMask, c.i + 1);
    }
  }

  /** One `_euler_step` keeps the write invariant. */
  lemma StepKeepsWriteInvariant<S, D>(e: Engine<S, D>, c: Carry<S>, numRequested: nat)
    requires e.Valid() && CountTrue(e.keepMask) == numRequested
    requires WriteInvariant(e, c, numRequested) && c.i < e.StepsNum()
    ensures e.keepMask[c.i + 1] ==> c.written < |c.result|
    ensures WriteInvariant(e, EulerStep(e, c), numRequested)
  {
    CursorInRange(e, c, numRequested);
    WriteKeepsInvariant(e, c, EulerStep(e, c), numRequested);
  }

  /** `_while_loop`: the bulk driver. Slot 0 takes the initial state when
      position 0 is kept, then every step writes the kept grid points in
      order. Besides the output it returns the final write cursor and the
      number of iterations run. */
  method WhileLoop<S, D>(e: Engine<S, D>, zero: S, numRequested: nat, timeStep: real)
    returns (result: seq<S>, written: nat, iterations: nat)
    requires e.Valid() && timeStep > 0.0
    requires CountTrue(e.keepMask) == numRequested
    ensures iterations == e.StepsNum()
    ensures written == numRequested
    ensures |result| == numRequested
    ensures forall j {:trigger CountTrue(e.keepMask[..j])} :: 0 <= j < |e.grid| && e.keepMask[j] ==>
              CountTrue(e.keepMask[..j]) < numRequested && result[CountTrue(e.keepMask[..j])] == e.StateAt(j)
  {
    var mask := e.keepMask;
    var cap := MaxIterations(timeStep, |e.grid|);
    var buffer := seq(numRequested, _ => zero);
    assert mask[..|mask|] == mask;
    CountTrueMonotone(mask, 1, |mask|);
    CountTrueStep(mask, 0);
    buffer := MaybeUpdate(buffer, mask[0], 0, e.initialState);
    var c := Carry(0, if mask[0] then 1 else 0, e.initialState, buffer);
    while c.i < e.StepsNum() && c.i < cap
      invariant WriteInvariant(e, c, numRequested)
      decreases e.StepsNum() - c.i
    {
      StepKeepsWriteInvariant(e, c, numRequested);
      c := EulerStep(e, c);
    }
    assert c.i + 1 == |mask|;
    forall j | 0 <= j < |e.grid| && mask[j]
      ensures CountTrue(mask[..j]) < numRequested && c.result[CountTrue(mask[..j])] == e.StateAt(j)
    {
      assert c.result[CountTrue(mask[..j])] == e.StateAt(j);
    }
    result, written, iterations := c.result, c.written, c.i;
  }

  /** The step `_for_loop` runs: `_euler_step` on a throw-away cursor and
      buffer, keeping only the new state; like the bulk step it advances
      the reference path by one grid point. */
  function SensitivityStep<S, D>(e: Engine<S, D>, i: nat, state: S): (next: S)
    requires e.Valid() && i < e.StepsNum()
    ensures state == e.StateAt(i) ==> next == e.StateAt(i + 1)
  {
    EulerStep(e, Carry(i, 0, state, [state])).state
  }

  /** The state after `n` iterations of the sensitivity driver's body. */
  function ForLoopState<S, D>(e: Engine<S, D>, n: nat): (s: S)
    requires e.Valid() && n < |e.grid|
    ensures s == e.StateAt(n)
  {
    if n == 0 then e.initialState else SensitivityStep(e, n - 1, ForLoopState(e, n - 1))
  }

  /** `iter_nums` of `_for_loop`: `steps_num` for a single requested time,
      `time_indices` otherwise. For a grid built by `PrepareGrid` both
      choices name the same iteration counts. */
  function IterNums(timeIndices: seq<nat>, stepsNum: nat): seq<nat>
  {
    if |timeIndices| == 1 then [stepsNum] else timeIndices
  }

  lemma IterNumsAreTimeIndices(times: seq<real>, timeStep: real)
    requires ValidTimes(times) && timeStep > 0.0
    ensures var p := PrepareGrid(times, timeStep);
            IterNums(p.timeIndices, |p.grid| - 1) == p.timeIndices
  {
    var p := PrepareGrid(times, timeStep);
    PlanSlots(times, timeStep);
    if |p.timeIndices| == 1 {
      assert p.timeIndices == [p.timeIndices[0]];
    }
  }

  /** `_for_loop`: the sensitivity driver, read as the state reached after
      each requested number of iterations. */
  function ForLoop<S, D>(e: Engine<S, D>, iterNums: seq<nat>): (out: seq<S>)
    requires e.Valid()
    requires forall k :: 0 <= k < |iterNums| ==> iterNums[k] < |e.grid|
    ensures |out| == |iterNums|
    ensures forall k :: 0 <= k < |iterNums| ==> out[k] == e.StateAt(iterNums[k])
  {
    seq(|iterNums|, k requires 0 <= k < |iterNums| => ForLoopState(e, iterNums[k]))
  }

  /** The engine `_sample` sets up for a grid plan. */
  function Setup<S, D>(
    plan: GridPlan, precompute: bool, rt: RandomType,
    generated: nat -> D, lazyDraw: nat -> D, update: (real, real, S, D) -> S, init: S): (e: Engine<S, D>)
    requires |plan.grid| >= 1 && |plan.keepMask| == |plan.grid|
    ensures e.Valid() && e.grid == plan.grid && e.keepMask == plan.keepMask && e.initialState == init
  {
    Engine(plan.grid, plan.keepMask, ConfigureDraws(precompute, rt, |plan.grid| - 1, generated), lazyDraw, update, init)
  }

  /** The bulk driver's slot numbering (kept points before a grid point)
      puts the `k`-th time index into slot `k`. */
  lemma SlotsFollowTimeIndices<S, D>(e: Engine<S, D>, ti: seq<nat>, out: seq<S>)
    requires e.Valid() && |out| == |ti|
    requires forall k :: 0 <= k < |ti| ==> ti[k] < |e.grid| && e.keepMask[ti[k]]
    requires forall k {:trigger CountTrue(e.keepMask[..ti[k]])} :: 0 <= k < |ti| ==> CountTrue(e.keepMask[..ti[k]]) == k
    requires forall j {:trigger CountTrue(e.keepMask[..j])} :: 0 <= j < |e.grid| && e.keepMask[j] ==>
               CountTrue(e.keepMask[..j]) < |out| && out[CountTrue(e.keepMask[..j])] == e.StateAt(j)
    ensures forall k :: 0 <= k < |ti| ==> out[k] == e.StateAt(ti[k])
  {
    forall k | 0 <= k < |ti|
      ensures out[k] == e.StateAt(ti[k])
    {
      var j := ti[k];
      assert out[CountTrue(e.keepMask[..j])] == e.StateAt(j);
    }
  }

  /** The driver choice of `_sample`: the bulk loop when no parameters are
      watched, the sensitivity loop otherwise. Given time indices that are
      the kept grid points in order, ending at the last grid point, both
      drivers return the reference state at every time index. */
  method RunDriver<S, D>(e: Engine<S, D>, ti: seq<nat>, zero: S, timeStep: real, watchParams: bool)
    returns (out: seq<S>)
    requires e.Valid() && timeStep > 0.0
    requires |ti| >= 1 && ti[|ti| - 1] == e.StepsNum()
    requires CountTrue(e.keepMask) == |ti|
    requires forall k :: 0 <= k < |ti| ==> ti[k] < |e.grid| && e.keepMask[ti[k]]
    requires forall k {:trigger CountTrue(e.keepMask[..ti[k]])} :: 0 <= k < |ti| ==> CountTrue(e.keepMask[..ti[k]]) == k
    ensures |out| == |ti|
    ensures forall k :: 0 <= k < |ti| ==> out[k] == e.StateAt(ti[k])
  {
    if !watchParams {
      var written, iterations;
      out, written, iterations := WhileLoop(e, zero, |ti|, timeStep);
      SlotsFollowTimeIndices(e, ti, out);
    } else {
      if |ti| == 1 {
        assert ti == [e.StepsNum()];
      }
      out := ForLoop(e, IterNums(ti, e.StepsNum()));
    }
  }

  /** `sample`: build the grid, choose the draw source and run the bulk
      driver, or the sensitivity driver when parameters are watched. Either
      way slot `k` of the output holds the Euler state at the grid point
      equal to the `k`-th requested time. */
  method Sample<S, D>(
    times: seq<real>, timeStep: real, init: S, zero: S,
    rt: RandomType, precompute: bool, watchParams: bool,
    generated: nat -> D, lazyDraw: nat -> D, update: (real, real, S, D) -> S)
    returns (out: seq<S>)
    requires ValidTimes(times) && timeStep > 0.0
    ensures |out| == |times|
    ensures var p := PrepareGrid(times, timeStep);
            var e := Setup(p, precompute, rt, generated, lazyDraw, update, init);
            forall k :: 0 <= k < |times| ==>
              p.grid[p.timeIndices[k]] == times[k] && out[k] == e.StateAt(p.timeIndices[k])
  {
    var p := PrepareGrid(times, timeStep);
    var e := Setup(p, precompute, rt, generated, lazyDraw, update, init);
    PlanSlots(times, timeStep);
    out := RunDriver(e, p.timeIndices, zero, timeStep, watchParams);
  }
}
