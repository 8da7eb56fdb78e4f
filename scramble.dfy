/**
 * The text-scramble animation `UI.scramble(element, targetText)`.
 *
 * A periodic timer redraws the element on every tick. Position `i` of the
 * frame shows the true character when `i < iteration` and a random alphabet
 * character otherwise; the tick then stops the timer and resolves the
 * promise when `iteration >= |targetText|`, and in any case adds 1/3 to
 * `iteration`. The counter is an exact rational here (`real` in Dafny), and
 * the random draws come from an oracle: one alphabet index per position.
 */
module Scramble {

  /** The characters a hidden position may show. */
  const Alphabet: string := "ABCDEFGHIJKLMNOPQRSTUVWXYZ0123456789@#$%&"

  /** A random draw: an index into Alphabet. */
  type Draw = d: int | 0 <= d < 41

  /** The value of the counter after `ticks` ticks: `ticks` times 1/3. */
  function Iteration(ticks: nat): (iteration: real)
    ensures iteration >= 0.0 && 3.0 * iteration == ticks as real
  {
    ticks as real / 3.0
  }

  /** The text one tick writes, with counter `iteration` and oracle `draws`. */
  function Frame(target: string, iteration: real, draws: seq<Draw>): (frame: string)
    requires |draws| == |target|
    ensures |frame| == |target|
    ensures forall i :: 0 <= i < |target| && (i as real) < iteration ==> frame[i] == target[i]
    ensures forall i :: 0 <= i < |target| && iteration <= i as real ==> frame[i] in Alphabet
  {
    seq(|target|, i requires 0 <= i < |target| =>
      if (i as real) < iteration then target[i] else Alphabet[draws[i]])
  }

  /** The number of revealed positions after `ticks` ticks: ceil(ticks / 3), at most n. */
  function Shown(n: nat, ticks: nat): (k: nat)
    ensures k <= n && 3 * k <= ticks + 2
    ensures k < n ==> ticks <= 3 * k
  {
    if (ticks + 2) / 3 < n then (ticks + 2) / 3 else n
  }

  /** Position i is revealed at tick t exactly when 3 * i < t. */
  lemma RevealRule(i: nat, ticks: nat)
    ensures (i as real) < Iteration(ticks) <==> 3 * i < ticks
  {
  }

  /** The tick stops the timer exactly when 3 * |target| ticks have already run. */
  lemma StopRule(n: nat, ticks: nat)
    ensures Iteration(ticks) >= n as real <==> ticks >= 3 * n
  {
  }

  /** At tick t the frame is target[..Shown] followed by alphabet characters. */
  lemma RevealedPrefix(target: string, ticks: nat, draws: seq<Draw>)
    requires |draws| == |target|
    ensures Shown(|target|, ticks) <= |target|
    ensures Frame(target, Iteration(ticks), draws)[..Shown(|target|, ticks)]
         == target[..Shown(|target|, ticks)]
    ensures forall i :: Shown(|target|, ticks) <= i < |target| ==>
              Frame(target, Iteration(ticks), draws)[i] in Alphabet
  {
  }

  /** Each tick reveals at most one more position, and never hides one. */
  lemma ShownStep(n: nat, ticks: nat)
    ensures Shown(n, ticks) <= Shown(n, ticks + 1) <= Shown(n, ticks) + 1
  {
  }

  /** A position revealed at some tick shows its true character at every later tick. */
  lemma RevealMonotone(target: string, t1: nat, t2: nat, d1: seq<Draw>, d2: seq<Draw>, i: nat)
    requires |d1| == |target| && |d2| == |target|
    requires t1 <= t2 && i < |target| && 3 * i < t1
    ensures Frame(target, Iteration(t1), d1)[i] == target[i]
    ensures Frame(target, Iteration(t2), d2)[i] == target[i]
  {
  }

  /** Every position is revealed from tick 3 * |target| - 2 on. */
  lemma AllShown(n: nat, ticks: nat)
    ensures Shown(n, ticks) == n <==> ticks + 2 >= 3 * n
  {
  }

  /** The frame of the stopping tick is the target itself. */
  lemma FinalFrame(target: string, iteration: real, draws: seq<Draw>)
    requires |draws| == |target|
    requires iteration >= |target| as real
    ensures Frame(target, iteration, draws) == target
  {
  }

  /**
   * One scramble job: the element it writes to, the reveal counter, and
   * whether the interval is still running and how often the promise was
   * resolved.
   */
  class Scrambler {
    const target: string
    var iteration: real
    var display: string
    var running: bool
    var resolved: nat
    ghost var ticks: nat

    ghost predicate Valid()
      reads this
    {
      iteration == Iteration(ticks)
      && running == (ticks <= 3 * |target|)
      && resolved == (if running then 0 else 1)
    }

    /** Starts the interval on an element that currently shows `initial`. */
    constructor (initial: string, targetText: string)
      ensures Valid()
      ensures target == targetText && display == initial
      ensures iteration == 0.0 && ticks == 0 && running && resolved == 0
    {
      target := targetText;
      iteration := 0.0;
      display := initial;
      running := true;
      resolved := 0;
      ticks := 0;
    }

    /** One timer callback: redraw, maybe stop and resolve, then advance the counter. */
    method Tick(draws: seq<Draw>) returns (completed: bool)
      requires Valid() && running
      requires |draws| == |target|
      modifies this
      ensures Valid()
      ensures ticks == old(ticks) + 1 && iteration == old(iteration) + 1.0 / 3.0
      ensures display == Frame(target, old(iteration), draws)
      ensures completed <==> old(ticks) == 3 * |target|
      ensures completed ==> display == target
      ensures running == !completed
      ensures resolved == old(resolved) + (if completed then 1 else 0)
    {
      display := Frame(target, iteration, draws);
      completed := iteration >= |target| as real;
      StopRule(|target|, ticks);
      if completed {
        FinalFrame(target, iteration, draws);
        running := false;
        resolved := resolved + 1;
      }
      iteration := iteration + 1.0 / 3.0;
      ticks := ticks + 1;
    }
  }

  /**
   * A whole scramble: ticks until the interval is cleared, with `oracle[k]`
   * the draws of tick k. Returns every frame written and how often the
   * promise was resolved.
   */
  method Run(initial: string, target: string, oracle: seq<seq<Draw>>)
    returns (frames: seq<string>, completions: nat)
    requires |oracle| > 3 * |target|
    requires forall k :: 0 <= k < |oracle| ==> |oracle[k]| == |target|
    ensures |frames| == 3 * |target| + 1
    ensures forall k :: 0 <= k < |frames| ==> frames[k] == Frame(target, Iteration(k), oracle[k])
    ensures frames[3 * |target|] == target
    ensures completions == 1
  {
    var job := new Scrambler(initial, target);
    frames, completions := [], 0;
    var k := 0;
    var done := false;
    while !done
      invariant job.Valid() && job.target == target
      invariant k == job.ticks == |frames|
      invariant done == !job.running
      invariant k <= 3 * |target| + 1
      invariant done ==> frames[3 * |target|] == target
      invariant completions == (if done then 1 else 0)
      invariant forall j :: 0 <= j < k ==> frames[j] == Frame(target, Iteration(j), oracle[j])
      decreases 3 * |target| + 1 - k
    {
      ghost var before := frames;
      var completed := job.Tick(oracle[k]);
      assert job.display == Frame(target, Iteration(k), oracle[k]);
      frames := frames + [job.display];
      forall j | 0 <= j <= k
        ensures frames[j] == Frame(target, Iteration(j), oracle[j])
      {
        if j < k {
          assert frames[j] == before[j];
        }
      }
      if completed {
        completions := completions + 1;
        done := true;
      }
      k := k + 1;
    }
  }
}
