/**
 The simulation time grid of the Euler sampler (`_prepare_grid` in
 tf_quant_finance/models/euler_sampling.py): the requested observation times
 are merged with the uniform points `0, h, 2h, ...` below the last requested
 time, duplicates are removed, the result is sorted, every requested time is
 located with a left `searchsorted`, and a keep-mask flags those positions.

 Times are exact reals, so the float32 cast before the sort and the rounding
 of `tf.range` do not arise here.
 */
module TimeGrid {
  import opened Sequences

  /** The caller's side of the contract: at least one requested time, in
      strictly increasing order, none before the start of the process. */
  predicate ValidTimes(times: seq<real>) {
    && |times| >= 1
    && StrictlyIncreasing(times)
    && 0.0 <= times[0]
  }

  /** `grid` holds exactly the requested times and the uniform points with
      step `h` below the last requested time. */
  ghost predicate MergedFrom(grid: seq<real>, times: seq<real>, h: real)
    requires |times| >= 1 && h > 0.0
  {
    forall x :: x in grid <==> x in times || x in Uniform(times[|times| - 1], h)
  }

  /** `(grid, keep_mask, time_indices)` as returned by `_prepare_grid`. */
  datatype GridPlan = GridPlan(grid: seq<real>, keepMask: seq<bool>, timeIndices: seq<nat>)

  /** The `k`-th point of the uniform grid with step `h`. */
  function Point(k: nat, h: real): real {
    k as real * h
  }

  /** Smallest integer not below `x`. */
  function Ceil(x: real): (c: int)
    ensures c as real - 1.0 < x <= c as real
  {
    -((-x).Floor)
  }

  lemma ScaleLess(a: real, b: real, h: real)
    requires h > 0.0
    ensures a * h < b * h <==> a < b
  {
    assert (b - a) * h == b * h - a * h;
    if a < b {
      assert (b - a) * h > 0.0;
    } else {
      assert (a - b) * h >= 0.0;
    }
  }

  lemma PointIncreasing(i: nat, j: nat, h: real)
    requires i < j && h > 0.0
    ensures Point(i, h) < Point(j, h)
  {
    ScaleLess(i as real, j as real, h);
  }

  /** `tf.range(0, limit, h)`: every multiple of `h` from 0 up to, but
      excluding, `limit`, in increasing order. */
  function Uniform(limit: real, h: real): (r: seq<real>)
    requires h > 0.0
    ensures forall k :: 0 <= k < |r| ==> r[k] == Point(k, h)
    ensures forall k: nat :: k < |r| <==> Point(k, h) < limit
    ensures StrictlyIncreasing(r)
  {
    var n: nat := if limit <= 0.0 then 0 else Ceil(limit / h);
    var r := seq(n, k requires 0 <= k < n => Point(k, h));
    assert forall k: nat :: k < |r| <==> Point(k, h) < limit by {
      forall k: nat
        ensures k < |r| <==> Point(k, h) < limit
      {
        if limit > 0.0 {
          var q := limit / h;
          assert q * h == limit;
          ScaleLess(k as real, q, h);
        } else {
          assert Point(k, h) >= 0.0;
        }
      }
    }
    assert StrictlyIncreasing(r) by {
      forall i, j | 0 <= i < j < |r|
        ensures r[i] < r[j]
      {
        assert r[i] == Point(i, h) && r[j] == Point(j, h);
        PointIncreasing(i, j, h);
      }
    }
    r
  }

  /** `tf.unique(s).y`: the values of `s` with repeats dropped, each kept
      at its first occurrence. */
  function Unique(s: seq<real>): (r: seq<real>)
    ensures Distinct(r)
    ensures forall x :: x in r <==> x in s
    ensures |r| <= |s|
    decreases |s|
  {
    if |s| == 0 then []
    else
      var u := Unique(s[..|s| - 1]);
      var x := s[|s| - 1];
      assert s == s[..|s| - 1] + [x];
      if x in u then u else u + [x]
  }

  /** Removing repeats from a sequence that has none changes nothing. */
  lemma {:induction false} UniqueOfDistinct(s: seq<real>)
    requires Distinct(s)
    ensures Unique(s) == s
    decreases |s|
  {
    if |s| > 0 {
      UniqueOfDistinct(s[..|s| - 1]);
      assert s == s[..|s| - 1] + [s[|s| - 1]];
    }
  }

  /** Places `x` into a strictly increasing sequence that lacks it. */
  function Insert(x: real, s: seq<real>): (r: seq<real>)
    requires StrictlyIncreasing(s) && x !in s
    ensures StrictlyIncreasing(r)
    ensures forall y :: y in r <==> y == x || y in s
    ensures |r| == |s| + 1
    decreases |s|
  {
    if |s| == 0 || x < s[0] then [x] + s
    else
      var t := Insert(x, s[1..]);
      assert forall j :: 0 <= j < |t| ==> s[0] < t[j] by {
        forall j | 0 <= j < |t|
          ensures s[0] < t[j]
        {
          assert t[j] in t;
        }
      }
      assert s == [s[0]] + s[1..];
      [s[0]] + t
  }

  /** The `argsort` + `gather` of `_prepare_grid`: the values of a
      repeat-free sequence in ascending order. */
  function SortAscending(s: seq<real>): (r: seq<real>)
    requires Distinct(s)
    ensures StrictlyIncreasing(r)
    ensures forall x :: x in r <==> x in s
    ensures |r| == |s|
    decreases |s|
  {
    if |s| == 0 then []
    else
      var p := s[..|s| - 1];
      var x := s[|s| - 1];
      assert s == p + [x];
      assert x !in p by {
        forall i | 0 <= i < |p|
          ensures p[i] != x
        {
          assert s[i] != s[|s| - 1];
        }
      }
      Insert(x, SortAscending(p))
  }

  /** Sorting is the identity on an already ascending sequence. */
  lemma SortAscendingOfSorted(s: seq<real>)
    requires StrictlyIncreasing(s)
    ensures Distinct(s) && SortAscending(s) == s
  {
    SortedByElements(SortAscending(s), s);
  }

  /** Left `searchsorted`: the first position whose value is not below `t`,
      that is, the number of values below `t`. */
  function SearchLeft(a: seq<real>, t: real): (m: nat)
    requires NonDecreasing(a)
    ensures m <= |a|
    ensures forall j :: 0 <= j < m ==> a[j] < t
    ensures forall j :: m <= j < |a| ==> t <= a[j]
  {
    SearchFrom(a, t, 0)
  }

  /** The scan behind `SearchLeft`, from position `lo` on, every value
      before `lo` being already known to lie below `t`. */
  function SearchFrom(a: seq<real>, t: real, lo: nat): (m: nat)
    requires NonDecreasing(a) && lo <= |a|
    requires forall j :: 0 <= j < lo ==> a[j] < t
    ensures lo <= m <= |a|
    ensures forall j :: 0 <= j < m ==> a[j] < t
    ensures forall j :: m <= j < |a| ==> t <= a[j]
    decreases |a| - lo
  {
    if lo == |a| || t <= a[lo] then lo
    else SearchFrom(a, t, lo + 1)
  }

  /** On a strictly ascending sequence that contains the key, the left
      search lands on the key itself. */
  lemma SearchLeftFinds(a: seq<real>, t: real)
    requires StrictlyIncreasing(a) && t in a
    ensures SearchLeft(a, t) < |a| && a[SearchLeft(a, t)] == t
  {
    var p :| 0 <= p < |a| && a[p] == t;
  }

  /** The merged grid of `_prepare_grid`: the requested times concatenated
      with the uniform points below the last one, repeats removed, sorted. */
  function MergeGrid(times: seq<real>, h: real): (grid: seq<real>)
    requires ValidTimes(times) && h > 0.0
    ensures StrictlyIncreasing(grid)
    ensures MergedFrom(grid, times, h)
    ensures |grid| >= 1
    ensures grid[0] == 0.0
    ensures grid[|grid| - 1] == times[|times| - 1]
  {
    var last := times[|times| - 1];
    var u := Uniform(last, h);
    var grid := SortAscending(Unique(times + u));
    assert forall x :: x in times + u <==> x in times || x in u;
    MergedValuesInRange(times, h, grid);
    SortedEnds(grid, 0.0, last);
    grid
  }

  /** Every merged value lies between 0 and the last requested time, and
      both ends occur. */
  lemma MergedValuesInRange(times: seq<real>, h: real, grid: seq<real>)
    requires ValidTimes(times) && h > 0.0
    requires forall x :: x in grid <==> x in times || x in Uniform(times[|times| - 1], h)
    ensures forall j :: 0 <= j < |grid| ==> 0.0 <= grid[j] <= times[|times| - 1]
    ensures 0.0 in grid && times[|times| - 1] in grid
  {
    var last := times[|times| - 1];
    var u := Uniform(last, h);
    forall j | 0 <= j < |grid|
      ensures 0.0 <= grid[j] <= last
    {
      assert grid[j] in grid;
      if grid[j] in u {
        var k :| 0 <= k < |u| && u[k] == grid[j];
        assert Point(k, h) < last;
      } else {
        var k :| 0 <= k < |times| && times[k] == grid[j];
        assert times[0] <= times[k] <= last;
      }
    }
    if last > 0.0 {
      assert Point(0, h) < last;
      assert u[0] == 0.0 && u[0] in u;
    } else {
      assert times[0] == 0.0 && times[0] in times;
    }
    assert last in times;
  }

  /** In an ascending sequence whose values lie in `[lo, hi]` and include
      both bounds, the first value is `lo` and the last is `hi`. */
  lemma SortedEnds(s: seq<real>, lo: real, hi: real)
    requires StrictlyIncreasing(s)
    requires forall j :: 0 <= j < |s| ==> lo <= s[j] <= hi
    requires lo in s && hi in s
    ensures |s| >= 1 && s[0] == lo && s[|s| - 1] == hi
  {
    var a :| 0 <= a < |s| && s[a] == lo;
    var b :| 0 <= b < |s| && s[b] == hi;
  }

  /** `time_indices`: the left `searchsorted` position of every requested
      time in the grid. */
  function TimeIndices(grid: seq<real>, times: seq<real>): (ti: seq<nat>)
    requires StrictlyIncreasing(grid) && StrictlyIncreasing(times)
    requires forall k :: 0 <= k < |times| ==> times[k] in grid
    ensures |ti| == |times|
    ensures forall k :: 0 <= k < |ti| ==> ti[k] < |grid| && grid[ti[k]] == times[k]
    ensures IncreasingIndices(ti)
  {
    var ti := seq(|times|, k requires 0 <= k < |times| => SearchLeft(grid, times[k]));
    forall k | 0 <= k < |ti|
      ensures ti[k] < |grid| && grid[ti[k]] == times[k]
    {
      SearchLeftFinds(grid, times[k]);
    }
    ti
  }

  /** `keep_mask`: the dense form of the sparse tensor that is `true` at the
      positions in `ti` and `false` elsewhere. */
  function KeepMask(n: nat, ti: seq<nat>): (m: seq<bool>)
    requires IncreasingIndices(ti)
    requires forall k :: 0 <= k < |ti| ==> ti[k] < n
    ensures |m| == n
    ensures forall j {:trigger j in ti} :: 0 <= j < n ==> (m[j] <==> j in ti)
    ensures CountTrue(m) == |ti|
    ensures forall k {:trigger CountTrue(m[..ti[k]])} :: 0 <= k < |ti| ==> CountTrue(m[..ti[k]]) == k
  {
    var m := seq(n, j requires 0 <= j < n => j in ti);
    forall j | 0 <= j <= n
      ensures CountTrue(m[..j]) == NumBelow(ti, j)
    {
      MaskPrefixCount(m, ti, j);
    }
    NumBelowSplit(ti, |ti|, n);
    assert m[..n] == m;
    forall k | 0 <= k < |ti|
      ensures CountTrue(m[..ti[k]]) == k
    {
      NumBelowSplit(ti, k, ti[k]);
    }
    m
  }

  /** The `true`s of a membership mask among its first `j` entries are the
      indices below `j`. */
  lemma {:induction false} MaskPrefixCount(m: seq<bool>, ti: seq<nat>, j: nat)
    requires IncreasingIndices(ti)
    requires j <= |m|
    requires forall i :: 0 <= i < |m| ==> (m[i] <==> i in ti)
    ensures CountTrue(m[..j]) == NumBelow(ti, j)
    decreases j
  {
    if j == 0 {
      NumBelowSplit(ti, 0, 0);
    } else {
      MaskPrefixCount(m, ti, j - 1);
      CountTrueStep(m, j - 1);
      NumBelowStep(ti, j - 1);
    }
  }

  /** `_prepare_grid`: the merged grid, the keep-mask and the position of
      every requested time in the grid. Its guarantees are stated by
      `MergeGrid` (the grid itself), `PrepareGridIndices`,
      `PrepareGridMask`, `PrepareGridCursor` and `PrepareGridStart`; the
      shapes are stated here. */
  function PrepareGrid(times: seq<real>, timeStep: real): (p: GridPlan)
    requires ValidTimes(times) && timeStep > 0.0
    ensures |p.grid| >= 1 && |p.keepMask| == |p.grid| && |p.timeIndices| == |times|
  {
    var grid := MergeGrid(times, timeStep);
    var ti := TimeIndices(grid, times);
    var mask := KeepMask(|grid|, ti);
    GridPlan(grid, mask, ti)
  }

  /** `grid[time_indices[k]] == times[k]`, the indices strictly increase,
      and the last one is the last grid position. */
  lemma PrepareGridIndices(times: seq<real>, timeStep: real)
    requires ValidTimes(times) && timeStep > 0.0
    ensures var p := PrepareGrid(times, timeStep); IncreasingIndices(p.timeIndices)
    ensures var p := PrepareGrid(times, timeStep);
      forall k :: 0 <= k < |times| ==> p.timeIndices[k] < |p.grid| && p.grid[p.timeIndices[k]] == times[k]
    ensures var p := PrepareGrid(times, timeStep); p.timeIndices[|times| - 1] == |p.grid| - 1
  {
    TimeIndicesEnds(MergeGrid(times, timeStep), times);
  }

  /** The keep-mask is true exactly at the time indices and has one `true`
      per requested time. */
  lemma PrepareGridMask(times: seq<real>, timeStep: real)
    requires ValidTimes(times) && timeStep > 0.0
    ensures var p := PrepareGrid(times, timeStep);
      forall j {:trigger j in p.timeIndices} :: 0 <= j < |p.grid| ==> (p.keepMask[j] <==> j in p.timeIndices)
    ensures var p := PrepareGrid(times, timeStep); CountTrue(p.keepMask) == |times|
  {
  }

  /** Exactly `k` kept grid points come before the `k`-th time index: the
      write cursor of the bulk loop reaches slot `k` there. */
  lemma PrepareGridCursor(times: seq<real>, timeStep: real)
    requires ValidTimes(times) && timeStep > 0.0
    ensures var p := PrepareGrid(times, timeStep);
      forall k {:trigger CountTrue(p.keepMask[..p.timeIndices[k]])} :: 0 <= k < |times| ==>
        CountTrue(p.keepMask[..p.timeIndices[k]]) == k
  {
  }

  /** The first grid point is kept exactly when time 0 is requested. */
  lemma PrepareGridStart(times: seq<real>, timeStep: real)
    requires ValidTimes(times) && timeStep > 0.0
    ensures PrepareGrid(times, timeStep).keepMask[0] <==> times[0] == 0.0
  {
    TimeIndicesEnds(MergeGrid(times, timeStep), times);
  }

  /** The part of the guarantees the drivers rely on: the `k`-th requested
      time sits at a kept grid point with exactly `k` kept points before it,
      and the last one at the end of the grid. */
  lemma PlanSlots(times: seq<real>, timeStep: real)
    requires ValidTimes(times) && timeStep > 0.0
    ensures var p := PrepareGrid(times, timeStep); p.timeIndices[|times| - 1] == |p.grid| - 1
    ensures var p := PrepareGrid(times, timeStep); CountTrue(p.keepMask) == |times|
    ensures var p := PrepareGrid(times, timeStep);
      forall k :: 0 <= k < |times| ==>
        p.timeIndices[k] < |p.grid| && p.grid[p.timeIndices[k]] == times[k] && p.keepMask[p.timeIndices[k]]
    ensures var p := PrepareGrid(times, timeStep);
      forall k {:trigger CountTrue(p.keepMask[..p.timeIndices[k]])} :: 0 <= k < |times| ==>
        CountTrue(p.keepMask[..p.timeIndices[k]]) == k
  {
    PrepareGridIndices(times, timeStep);
    PrepareGridMask(times, timeStep);
    PrepareGridCursor(times, timeStep);
  }

  /** The last requested time sits at the end of the grid, and position 0
      is a requested one exactly when time 0 was requested. */
  lemma EndpointIndices(grid: seq<real>, times: seq<real>, ti: seq<nat>)
    requires ValidTimes(times) && StrictlyIncreasing(grid) && |grid| >= 1
    requires grid[0] == 0.0 && grid[|grid| - 1] == times[|times| - 1]
    requires |ti| == |times|
    requires forall k :: 0 <= k < |ti| ==> ti[k] < |grid| && grid[ti[k]] == times[k]
    ensures ti[|ti| - 1] == |grid| - 1
    ensures 0 in ti <==> times[0] == 0.0
  {
    assert 0 in ti ==> ti[0] == 0;
  }

  /** `EndpointIndices` for the indices `TimeIndices` computes, on any grid
      of the shape `MergeGrid` builds. */
  lemma TimeIndicesEnds(grid: seq<real>, times: seq<real>)
    requires ValidTimes(times) && StrictlyIncreasing(grid) && |grid| >= 1
    requires grid[0] == 0.0 && grid[|grid| - 1] == times[|times| - 1]
    requires forall k :: 0 <= k < |times| ==> times[k] in grid
    ensures var ti := TimeIndices(grid, times); ti[|ti| - 1] == |grid| - 1
    ensures 0 in TimeIndices(grid, times) <==> times[0] == 0.0
  {
    EndpointIndices(grid, times, TimeIndices(grid, times));
  }

  /** When every requested time before the last already lies on the uniform
      grid, the merged grid adds nothing but the last requested time: no
      point is duplicated. */
  lemma AlignedTimesAddNothing(times: seq<real>, timeStep: real)
    requires ValidTimes(times) && timeStep > 0.0
    requires forall k :: 0 <= k < |times| - 1 ==> times[k] in Uniform(times[|times| - 1], timeStep)
    ensures MergeGrid(times, timeStep) == Uniform(times[|times| - 1], timeStep) + [times[|times| - 1]]
  {
    var last := times[|times| - 1];
    var u := Uniform(last, timeStep);
    var expected := u + [last];
    assert StrictlyIncreasing(expected) by {
      forall i, j | 0 <= i < j < |expected|
        ensures expected[i] < expected[j]
      {
        if j == |u| {
          assert Point(i, timeStep) < last;
        }
      }
    }
    forall x
      ensures x in MergeGrid(times, timeStep) <==> x in expected
    {
      if x in times {
        var k :| 0 <= k < |times| && times[k] == x;
        if k < |times| - 1 {
          assert x in u;
        }
      }
    }
    SortedByElements(MergeGrid(times, timeStep), expected);
  }
}
