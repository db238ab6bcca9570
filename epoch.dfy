/** One training epoch of train.py: how many optimizer steps it takes, how
    many micro-batches each step accumulates from the data loader, and the
    position handed to the learning-rate schedule before each step. */
module Epoch {

  import opened Common

  /** Python's `ceil(a / d)` for a non-negative count and a non-zero divisor. */
  function PyCeilDiv(a: nat, d: int): (q: int)
    requires d != 0
    ensures d > 0 ==> (q - 1) * d < a <= q * d
    ensures d < 0 ==> q <= 0
  {
    if d > 0 then CeilDiv(a, d) else -TruncDiv(a, -d)
  }

  /** epoch_iterations: enough steps of batch_size * batch_iters samples to
      cover the training set, capped by max_epoch_iterations when that is
      positive; a batch_iters of 0 divides by zero. */
  function EpochIterations(n: nat, batchSize: PosInt, batchIters: int, maxEpochIterations: int): (r: Result<int>)
    ensures r.Err? <==> batchIters == 0
    ensures r.Err? ==> r.error == ZeroDivisionError
    ensures r.Ok? && batchIters > 0 ==> r.value >= 0
    ensures r.Ok? && maxEpochIterations > 0 ==> r.value <= maxEpochIterations
    ensures r.Ok? && batchIters > 0 && maxEpochIterations <= 0 ==>
      (r.value - 1) * (batchSize * batchIters) < n <= r.value * (batchSize * batchIters)
    ensures r.Ok? && batchIters > 0 && maxEpochIterations > 0 ==>
      (r.value - 1) * (batchSize * batchIters) < n
      && (n <= r.value * (batchSize * batchIters) || r.value == maxEpochIterations)
  {
    if batchIters == 0 then Err(ZeroDivisionError)
    else
      var e := PyCeilDiv(n, batchSize * batchIters);
      Ok(if maxEpochIterations > 0 then Min(e, maxEpochIterations) else e)
  }

  /** The data loader's iterator over one epoch: the batches it has left. */
  class BatchSource {
    var remaining: nat

    constructor(batches: nat)
      ensures remaining == batches
    {
      remaining := batches;
    }

    /** `next(iterator)`: a batch, or StopIteration once the epoch is used up. */
    method Next() returns (gotBatch: bool)
      modifies this
      ensures gotBatch <==> old(remaining) > 0
      ensures remaining == if gotBatch then old(remaining) - 1 else old(remaining)
    {
      gotBatch := remaining > 0;
      if gotBatch {
        remaining := remaining - 1;
      }
    }
  }

  /** The accumulation loop of one optimizer step: up to batch_iters batches,
      stopping at the first StopIteration.  Returns batch_iter_count. */
  method Accumulate(source: BatchSource, batchIters: int) returns (count: nat)
    modifies source
    ensures count == Min(Max(batchIters, 0), old(source.remaining))
    ensures source.remaining == old(source.remaining) - count
  {
    count := 0;
    var i := 0;
    while i < batchIters
      invariant 0 <= i && (batchIters >= 0 ==> i <= batchIters)
      invariant count == i <= old(source.remaining)
      invariant source.remaining == old(source.remaining) - count
      invariant count < Min(Max(batchIters, 0), old(source.remaining)) || i == count == Min(Max(batchIters, 0), old(source.remaining))
      decreases batchIters - i
    {
      var gotBatch := source.Next();
      if !gotBatch {
        break;
      }
      count := count + 1;
      i := i + 1;
    }
  }

  /** Batches left before step s when every earlier step took batch_iters. */
  function Remaining(total: nat, batchIters: int, s: nat): nat {
    if batchIters <= 0 then total else Max(0, total - s * batchIters)
  }

  /** batch_iter_count of step s of an epoch that starts with `total` batches. */
  function Draws(total: nat, batchIters: int, s: nat): nat {
    Min(Max(batchIters, 0), Remaining(total, batchIters, s))
  }

  /** The argument of `lr_scheduler.step`: the cycle's iteration count in
      epochs, clamped to the cycle length (Python's `min` keeps its first
      argument on a tie). */
  function Position(cycleEpochs: int, iterations: int, epochIterations: int): real
    requires epochIterations != 0
  {
    var p := iterations as real / epochIterations as real;
    if p < cycleEpochs as real then p else cycleEpochs as real
  }

  datatype StepRecord = StepRecord(position: real, draws: nat)

  /** The steps of one epoch, or the ZeroDivisionError it raises: a step that
      gets no batch divides its sums by 0 (train.py:367-368), and an epoch of
      0 steps divides its sums by 0 (train.py:375-376). */
  function EpochSteps(total: nat, epochIterations: int, batchIters: int, cycleEpochs: int, iterBefore: int)
    : (r: Result<seq<StepRecord>>)
    ensures r.Err? ==> r.error == ZeroDivisionError
    ensures r.Ok? ==> |r.value| == Max(epochIterations, 0)
  {
    if epochIterations == 0 then Err(ZeroDivisionError)
    else if epochIterations > 0 && Draws(total, batchIters, epochIterations - 1) == 0 then Err(ZeroDivisionError)
    else Ok(seq(Max(epochIterations, 0), s requires 0 <= s < Max(epochIterations, 0) =>
      StepRecord(Position(cycleEpochs, iterBefore + s, epochIterations), Draws(total, batchIters, s))))
  }

  lemma DrawsStep(total: nat, batchIters: int, s: nat)
    requires batchIters > 0
    ensures Remaining(total, batchIters, s + 1) == Remaining(total, batchIters, s) - Draws(total, batchIters, s)
  {
    assert (s + 1) * batchIters == s * batchIters + batchIters;
  }

  /** Later steps never draw more batches than earlier ones. */
  lemma DrawsNonincreasing(total: nat, batchIters: int, s: nat, t: nat)
    requires s <= t
    ensures Draws(total, batchIters, t) <= Draws(total, batchIters, s)
  {
    if batchIters > 0 {
      assert s * batchIters <= t * batchIters by {
        MulMonotone(s, t, batchIters);
      }
    }
  }

  lemma MulMonotone(a: int, b: int, n: nat)
    requires a <= b
    ensures a * n <= b * n
  {
  }

  /** The epoch loop: epoch_iterations steps, each accumulating from the
      shared iterator. */
  method TrainEpoch(source: BatchSource, epochIterations: int, batchIters: int, cycleEpochs: int, iterBefore: int)
    returns (r: Result<seq<StepRecord>>)
    modifies source
    ensures r == EpochSteps(old(source.remaining), epochIterations, batchIters, cycleEpochs, iterBefore)
    ensures r.Ok? ==> source.remaining == Remaining(old(source.remaining), batchIters, Max(epochIterations, 0))
  {
    ghost var total := old(source.remaining);
    var steps: seq<StepRecord> := [];
    var s := 0;
    while s < epochIterations
      invariant 0 <= s && s <= Max(epochIterations, 0)
      invariant |steps| == s
      invariant source.remaining == Remaining(total, batchIters, s)
      invariant forall j :: 0 <= j < s ==>
        steps[j] == StepRecord(Position(cycleEpochs, iterBefore + j, epochIterations), Draws(total, batchIters, j))
      invariant forall j :: 0 <= j < s ==> Draws(total, batchIters, j) > 0
      decreases epochIterations - s
    {
      var position := Position(cycleEpochs, iterBefore + s, epochIterations);
      var count := Accumulate(source, batchIters);
      if count == 0 {
        DrawsNonincreasing(total, batchIters, s, epochIterations - 1);
        return Err(ZeroDivisionError);
      }
      DrawsStep(total, batchIters, s);
      steps := steps + [StepRecord(position, count)];
      s := s + 1;
    }
    if epochIterations == 0 {
      return Err(ZeroDivisionError);
    }
    if epochIterations > 0 {
      assert Draws(total, batchIters, epochIterations - 1) > 0;
    }
    assert s == Max(epochIterations, 0);
    r := Ok(steps);
    assert r.value == EpochSteps(total, epochIterations, batchIters, cycleEpochs, iterBefore).value;
  }

  /** When the iterator yields ceil(N / batch_size) batches, as the data
      loader over N samples does, every step of an epoch of epoch_iterations
      steps gets at least one batch, so the divisions by batch_iter_count never
      divide by zero. */
  lemma SizedEpochNeverStarves(n: nat, batchSize: PosInt, batchIters: int, maxEpochIterations: int,
                               cycleEpochs: int, iterBefore: int)
    requires n > 0 && batchIters > 0
    ensures var e := EpochIterations(n, batchSize, batchIters, maxEpochIterations);
      && e.Ok? && e.value >= 1
      && var steps := EpochSteps(CeilDiv(n, batchSize), e.value, batchIters, cycleEpochs, iterBefore);
      && steps.Ok?
      && forall j :: 0 <= j < |steps.value| ==> 1 <= steps.value[j].draws <= batchIters
  {
    var e := EpochIterations(n, batchSize, batchIters, maxEpochIterations).value;
    var total := CeilDiv(n, batchSize);
    var u := PyCeilDiv(n, batchSize * batchIters);
    assert u >= 1 by {
      if u < 1 {
        MulMonotone(u, 0, batchSize * batchIters);
      }
    }
    assert (e - 1) * batchIters < total by {
      assert (e - 1) * (batchSize * batchIters) < n;
      assert n <= total * batchSize;
      assert (e - 1) * (batchSize * batchIters) == ((e - 1) * batchIters) * batchSize;
      MulCancel((e - 1) * batchIters, total, batchSize);
    }
    assert Draws(total, batchIters, e - 1) >= 1;
    forall j | 0 <= j < e ensures Draws(total, batchIters, j) >= 1 {
      DrawsNonincreasing(total, batchIters, j, e - 1);
    }
  }

  lemma MulCancel(a: int, b: int, n: PosInt)
    requires a * n < b * n
    ensures a < b
  {
    if a >= b {
      MulMonotone(b, a, n);
    }
  }

  /** An empty training set gives an epoch of 0 steps, which raises. */
  lemma EmptyTrainingSetRaises(batchSize: PosInt, batchIters: int, maxEpochIterations: int,
                               cycleEpochs: int, iterBefore: int)
    requires batchIters > 0
    ensures var e := EpochIterations(0, batchSize, batchIters, maxEpochIterations);
      e == Ok(0) && EpochSteps(0, e.value, batchIters, cycleEpochs, iterBefore) == Err(ZeroDivisionError)
  {
  }

  /** The schedule position never exceeds the cycle length and never goes
      back within an epoch. */
  lemma PositionsBoundedAndMonotone(total: nat, epochIterations: int, batchIters: int, cycleEpochs: int, iterBefore: int,
                                    i: nat, j: nat)
    requires EpochSteps(total, epochIterations, batchIters, cycleEpochs, iterBefore).Ok?
    requires i <= j < |EpochSteps(total, epochIterations, batchIters, cycleEpochs, iterBefore).value|
    ensures var steps := EpochSteps(total, epochIterations, batchIters, cycleEpochs, iterBefore).value;
      && steps[j].position <= cycleEpochs as real
      && steps[i].position <= steps[j].position
  {
    var e := epochIterations as real;
    assert (iterBefore + i) as real / e <= (iterBefore + j) as real / e by {
      RealDivMonotone((iterBefore + i) as real, (iterBefore + j) as real, e);
    }
  }

  lemma RealDivMonotone(a: real, b: real, d: real)
    requires a <= b && d > 0.0
    ensures a / d <= b / d
  {
  }
}
