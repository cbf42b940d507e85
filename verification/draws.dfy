/**
 Where the Brownian increments of each Euler step come from (`_sample` and
 `_euler_step` in tf_quant_finance/models/euler_sampling.py). The generators
 themselves are outside this model: a precomputing generator is an indexed
 source `generated`, the per-step generator an indexed source `lazyDraw`, both
 yielding unscaled standard normal draws of an abstract type `D`.
 */
module Draws {

  /** The random number generators the sampler accepts. A missing
      `random_type` behaves as `Pseudo`. */
  datatype RandomType =
    | Pseudo
    | PseudoAntithetic
    | Stateless
    | StatelessAntithetic
    | Sobol
    | Halton
    | HaltonRandomized

  /** The static policy table: generators whose whole sequence of draws has
      to be produced up front (low-discrepancy sequences, and stateless
      generators so that calls with different seeds stay independent). */
  predicate NeedsWholeSequence(rt: RandomType) {
    match rt
    case Sobol | Halton | HaltonRandomized | Stateless | StatelessAntithetic => true
    case Pseudo | PseudoAntithetic => false
  }

  /** Exactly one of `normal_draws` and `wiener_mean` is set: either every
      step's draw is precomputed, or each step draws afresh around the zero
      `wiener_mean`. */
  datatype DrawSource<D> = Precomputed(normalDraws: seq<D>) | PerStep

  /** The branch of `_sample` that decides between the two sources. */
  function ConfigureDraws<D>(precompute: bool, rt: RandomType, stepsNum: nat, generated: nat -> D): (src: DrawSource<D>)
    ensures src.Precomputed? <==> precompute || (rt != Pseudo && rt != PseudoAntithetic)
    ensures src.Precomputed? ==> |src.normalDraws| == stepsNum
    ensures src.Precomputed? ==> forall i :: 0 <= i < stepsNum ==> src.normalDraws[i] == generated(i)
  {
    if precompute || NeedsWholeSequence(rt) then
      Precomputed(seq(stepsNum, i requires 0 <= i < stepsNum => generated(i)))
    else
      PerStep
  }

  /** The draw `dw` of step `i`: `normal_draws[i]` when precomputed,
      otherwise a fresh draw. */
  function DrawAt<D>(src: DrawSource<D>, i: nat, lazyDraw: nat -> D): D
    requires src.Precomputed? ==> i < |src.normalDraws|
  {
    match src
    case Precomputed(draws) => draws[i]
    case PerStep => lazyDraw(i)
  }

  /** Under the policy, step `i` uses the precomputed draw when the flag is
      set or the generator needs its whole sequence, and a fresh draw only
      for the pseudo-random generators with the flag cleared. */
  lemma DrawPolicy<D>(precompute: bool, rt: RandomType, stepsNum: nat, generated: nat -> D, lazyDraw: nat -> D, i: nat)
    requires i < stepsNum
    ensures var src := ConfigureDraws(precompute, rt, stepsNum, generated);
            DrawAt(src, i, lazyDraw) == if precompute || NeedsWholeSequence(rt) then generated(i) else lazyDraw(i)
  {
  }
}
