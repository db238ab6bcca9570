/** The training run of train.py's main: the epoch loop with its checkpoint
    writes, SGDR cycle restarts, SWA updates and early exits.  Tensors, files
    and learning-rate values are abstracted away; what is left is the
    bookkeeping of counters, bests and the checkpoint files written. */
module Run {

  import opened Common
  import opened Epoch
  import opened Slots

  /** A validation precision per epoch, as an oracle indexed by epoch. */
  type Precisions = nat -> real

  /** The command-line settings the loop reads. */
  datatype Config = Config(
    epochsToTrain: int,
    cycleEpochs: int,           // sgdr_cycle_epochs
    cycleEpochsMult: Ratio,     // sgdr_cycle_epochs_mult
    prolongation: int,          // sgdr_cycle_end_prolongation
    cycleEndPatience: int,      // sgdr_cycle_end_patience
    patience: int,
    maxCycles: Option<int>,     // max_sgdr_cycles
    ensembleModelCount: int,
    swaEnabled: bool,
    swaEpochToStart: int)

  /** The loop's counters and bests; a best of None stands for float("-inf"). */
  datatype RunState = RunState(
    cycleEpochs: int,           // current_sgdr_cycle_epochs
    nextCycleEnd: int,          // sgdr_next_cycle_end_epoch
    sgdrIterations: int,
    cycleCount: nat,            // sgdr_cycle_count
    lastImproval: nat,          // epoch_of_last_improval
    swaUpdateCount: nat,
    slot: int,                  // ensemble_model_index
    cycleBest: Option<real>,    // sgdr_cycle_val_precision_best_avg
    globalBest: Option<real>,   // global_val_precision_best_avg
    swaBest: Option<real>)      // global_swa_val_precision_best_avg

  /** The checkpoint writes of the loop, and the optimizer rebuilds at restarts. */
  datatype Event =
    | SlotSaved(epoch: nat, slot: int)                          // model-<slot>.pth
    | BestSaved(epoch: nat)                                     // model.pth
    | SwaUpdated(epoch: nat, slot: int, count: nat)             // model-<slot>.pth blended in with weight 1/count
    | SwaSaved(epoch: nat)                                      // swa_model.pth
    | CycleRestarted(epoch: nat, cycleEpochs: int, lrDecayExponent: nat)

  datatype Step = Step(state: RunState, events: seq<Event>, restarted: bool)

  datatype StopReason = EpochsExhausted | NoImproval | MaxCyclesReached

  datatype Outcome = Outcome(final: RunState, trace: seq<Event>, epochsRun: nat, reason: StopReason)

  /** `p > best`, with None as minus infinity. */
  predicate Exceeds(p: real, best: Option<real>) {
    best.None? || p > best.value
  }

  /** `a >= b`, with None as minus infinity. */
  predicate AtLeast(a: Option<real>, b: Option<real>) {
    b.None? || (a.Some? && a.value >= b.value)
  }

  /** The state before the first epoch; the first cycle ends after
      sgdr_cycle_epochs + sgdr_cycle_end_prolongation epochs. */
  function Initial(cfg: Config, startSlot: int): RunState {
    RunState(cfg.cycleEpochs, cfg.cycleEpochs + cfg.prolongation, 0, 0, 0, 0, startSlot, None, None, None)
  }

  /** The checkpoints an epoch with validation precision p writes: its slot
      file when it beats the cycle's best, model.pth when it beats the global
      best. */
  function Checkpoints(st: RunState, epoch: nat, p: real): seq<Event> {
    (if Exceeds(p, st.cycleBest) then [SlotSaved(epoch, st.slot)] else [])
      + (if Exceeds(p, st.globalBest) then [BestSaved(epoch)] else [])
  }

  /** The bests and epoch_of_last_improval after those checkpoints. */
  function Checkpointed(st: RunState, epoch: nat, p: real): RunState {
    var improved := Exceeds(p, st.globalBest);
    st.(cycleBest := if Exceeds(p, st.cycleBest) then Some(p) else st.cycleBest,
        globalBest := if improved then Some(p) else st.globalBest,
        lastImproval := if improved then epoch else st.lastImproval)
  }

  /** The end-of-cycle test, on the state after the checkpoints. */
  predicate CycleOver(cfg: Config, st: RunState, epoch: nat) {
    epoch + 1 >= st.nextCycleEnd && epoch - st.lastImproval >= cfg.cycleEndPatience
  }

  /** The restart at the end of a cycle: the SWA update when enabled and due,
      then the next cycle's length, end, slot and count. */
  function Restart(cfg: Config, st: RunState, epoch: nat, swaP: real): Step {
    var swa := cfg.swaEnabled && epoch + 1 >= cfg.swaEpochToStart;
    var count := if swa then st.swaUpdateCount + 1 else st.swaUpdateCount;
    var swaImproved := swa && Exceeds(swaP, st.swaBest);
    var swaEvents := (if swa then [SwaUpdated(epoch, st.slot, count)] else [])
      + (if swaImproved then [SwaSaved(epoch)] else []);
    var cycleEpochs := TruncDiv(st.cycleEpochs * cfg.cycleEpochsMult.num, cfg.cycleEpochsMult.den);
    Step(RunState(cycleEpochs, epoch + 1 + cycleEpochs + cfg.prolongation, 0, st.cycleCount + 1, st.lastImproval,
                  count, st.slot + 1, None, st.globalBest, if swaImproved then Some(swaP) else st.swaBest),
         swaEvents + [CycleRestarted(epoch, cycleEpochs, st.cycleCount + 1)], true)
  }

  /** Everything an epoch does after its training steps (train.py:383-433),
      given its validation precision p and, for a restart with SWA, the SWA
      model's precision. */
  function Advance(cfg: Config, st: RunState, epoch: nat, p: real, swaP: real): Step {
    var checked := Checkpointed(st, epoch, p);
    var saves := Checkpoints(st, epoch, p);
    if CycleOver(cfg, checked, epoch) then
      var restart := Restart(cfg, checked, epoch, swaP);
      Step(restart.state, saves + restart.events, true)
    else Step(checked, saves, false)
  }

  /** The state once an epoch's steps are done: sgdr_iterations counts them. */
  function Trained(st: RunState, epochIterations: int): RunState {
    st.(sgdrIterations := st.sgdrIterations + Max(epochIterations, 0))
  }

  /** The two early exits checked at the end of an epoch, in the loop's order. */
  function StopRule(cfg: Config, step: Step, epoch: nat): Option<StopReason> {
    if step.restarted && step.state.cycleCount >= cfg.ensembleModelCount
       && epoch - step.state.lastImproval >= cfg.patience then Some(NoImproval)
    else if cfg.maxCycles.Some? && step.state.cycleCount >= cfg.maxCycles.value then Some(MaxCyclesReached)
    else None
  }

  /** The rest of the run from `epoch` on, given the trace written so far. */
  function RunFrom(cfg: Config, epochIterations: int, precision: Precisions, swaPrecision: Precisions,
                   st: RunState, epoch: nat, trace: seq<Event>): Outcome
    decreases cfg.epochsToTrain - epoch
  {
    if epoch >= cfg.epochsToTrain then Outcome(st, trace, epoch, EpochsExhausted)
    else
      var step := Advance(cfg, Trained(st, epochIterations), epoch, precision(epoch), swaPrecision(epoch));
      match StopRule(cfg, step, epoch)
      case Some(reason) => Outcome(step.state, trace + step.events, epoch + 1, reason)
      case None => RunFrom(cfg, epochIterations, precision, swaPrecision, step.state, epoch + 1, trace + step.events)
  }

  /** The whole run for a training set of n samples and the slot files already
      present: the data loader (which raises ValueError unless the batch size is
      positive), epoch_iterations, the starting slot, then the epochs; the first
      epoch raises when one of its steps gets no batch. */
  function Train(cfg: Config, n: nat, batchSize: int, batchIters: int, maxEpochIterations: int,
                 slotFiles: seq<string>, precision: Precisions, swaPrecision: Precisions): Result<Outcome>
  {
    if batchSize <= 0 then Err(ValueError)
    else
      match EpochIterations(n, batchSize, batchIters, maxEpochIterations)
      case Err(e) => Err(e)
      case Ok(epochIterations) =>
        match StartingSlot(slotFiles)
        case Err(e) => Err(e)
        case Ok(startSlot) =>
          if cfg.epochsToTrain > 0
             && EpochSteps(CeilDiv(n, batchSize), epochIterations, batchIters, cfg.cycleEpochs, 0).Err?
          then Err(ZeroDivisionError)
          else Ok(RunFrom(cfg, epochIterations, precision, swaPrecision, Initial(cfg, startSlot), 0, []))
  }

  /** Whether an epoch raises does not depend on where the schedule stands. */
  lemma EpochFailureIgnoresSchedule(total: nat, epochIterations: int, batchIters: int,
                                    cycleEpochs: int, iterBefore: int, cycleEpochs': int, iterBefore': int)
    ensures EpochSteps(total, epochIterations, batchIters, cycleEpochs, iterBefore).Err?
        == EpochSteps(total, epochIterations, batchIters, cycleEpochs', iterBefore').Err?
  {
  }

  /** main from epoch_iterations to the end of the epoch loop.  Each epoch
      trains on a fresh iterator over the data loader's batches. */
  method TrainingRun(cfg: Config, n: nat, batchSize: int, batchIters: int, maxEpochIterations: int,
                     slotFiles: seq<string>, precision: Precisions, swaPrecision: Precisions)
    returns (r: Result<Outcome>)
    ensures r == Train(cfg, n, batchSize, batchIters, maxEpochIterations, slotFiles, precision, swaPrecision)
  {
    // DataLoader refuses a batch size that is not positive.
    if batchSize <= 0 {
      return Err(ValueError);
    }
    var iterations := EpochIterations(n, batchSize, batchIters, maxEpochIterations);
    if iterations.Err? {
      return Err(iterations.error);
    }
    var epochIterations := iterations.value;
    var start := StartingSlotIndex(slotFiles);
    if start.Err? {
      return Err(start.error);
    }
    var batches := CeilDiv(n, batchSize);
    ghost var initial := Initial(cfg, start.value);

    var currentCycleEpochs := cfg.cycleEpochs;
    var nextCycleEnd := currentCycleEpochs + cfg.prolongation;
    var sgdrIterations := 0;
    var cycleCount: nat := 0;
    var lastImproval: nat := 0;
    var swaUpdateCount: nat := 0;
    var slot := start.value;
    var cycleBest: Option<real> := None;
    var globalBest: Option<real> := None;
    var swaBest: Option<real> := None;
    var trace: seq<Event> := [];

    var epoch: nat := 0;
    while epoch < cfg.epochsToTrain
      invariant epoch > 0 ==> EpochSteps(batches, epochIterations, batchIters, cfg.cycleEpochs, 0).Ok?
      invariant RunFrom(cfg, epochIterations, precision, swaPrecision,
                        RunState(currentCycleEpochs, nextCycleEnd, sgdrIterations, cycleCount, lastImproval,
                                 swaUpdateCount, slot, cycleBest, globalBest, swaBest), epoch, trace)
             == RunFrom(cfg, epochIterations, precision, swaPrecision, initial, 0, [])
      decreases cfg.epochsToTrain - epoch
    {
      ghost var before := RunState(currentCycleEpochs, nextCycleEnd, sgdrIterations, cycleCount, lastImproval,
                                   swaUpdateCount, slot, cycleBest, globalBest, swaBest);
      var source := new BatchSource(batches);
      var steps := TrainEpoch(source, epochIterations, batchIters, currentCycleEpochs, sgdrIterations);
      if steps.Err? {
        EpochFailureIgnoresSchedule(batches, epochIterations, batchIters, currentCycleEpochs, sgdrIterations,
                                    cfg.cycleEpochs, 0);
        return Err(ZeroDivisionError);
      }
      sgdrIterations := sgdrIterations + |steps.value|;

      var trained := RunState(currentCycleEpochs, nextCycleEnd, sgdrIterations, cycleCount, lastImproval,
                              swaUpdateCount, slot, cycleBest, globalBest, swaBest);
      assert trained == Trained(before, epochIterations);
      var step := EndOfEpoch(cfg, trained, epoch, precision(epoch), swaPrecision);
      currentCycleEpochs, nextCycleEnd, sgdrIterations := step.state.cycleEpochs, step.state.nextCycleEnd, step.state.sgdrIterations;
      cycleCount, lastImproval, swaUpdateCount, slot := step.state.cycleCount, step.state.lastImproval, step.state.swaUpdateCount, step.state.slot;
      cycleBest, globalBest, swaBest := step.state.cycleBest, step.state.globalBest, step.state.swaBest;
      trace := trace + step.events;
      if step.restarted && cycleCount >= cfg.ensembleModelCount && epoch - lastImproval >= cfg.patience {
        return Ok(Outcome(step.state, trace, epoch + 1, NoImproval));
      }
      if cfg.maxCycles.Some? && cycleCount >= cfg.maxCycles.value {
        return Ok(Outcome(step.state, trace, epoch + 1, MaxCyclesReached));
      }
      epoch := epoch + 1;
    }
    r := Ok(Outcome(RunState(currentCycleEpochs, nextCycleEnd, sgdrIterations, cycleCount, lastImproval,
                             swaUpdateCount, slot, cycleBest, globalBest, swaBest), trace, epoch, EpochsExhausted));
  }

  /** The end of an epoch: the strict-improvement checkpoints, then the cycle
      restart with its SWA update when the cycle is over. */
  method EndOfEpoch(cfg: Config, st: RunState, epoch: nat, p: real, swaPrecision: Precisions) returns (step: Step)
    ensures step == Advance(cfg, st, epoch, p, swaPrecision(epoch))
  {
    var currentCycleEpochs, nextCycleEnd, sgdrIterations := st.cycleEpochs, st.nextCycleEnd, st.sgdrIterations;
    var cycleCount, lastImproval, swaUpdateCount, slot := st.cycleCount, st.lastImproval, st.swaUpdateCount, st.slot;
    var cycleBest, globalBest, swaBest := st.cycleBest, st.globalBest, st.swaBest;
    var events: seq<Event> := [];

    if Exceeds(p, cycleBest) {
      events := events + [SlotSaved(epoch, slot)];
      cycleBest := Some(p);
    }
    if Exceeds(p, globalBest) {
      events := events + [BestSaved(epoch)];
      globalBest := Some(p);
      lastImproval := epoch;
    }
    assert events == Checkpoints(st, epoch, p);
    ghost var checked := RunState(currentCycleEpochs, nextCycleEnd, sgdrIterations, cycleCount, lastImproval,
                                  swaUpdateCount, slot, cycleBest, globalBest, swaBest);
    assert checked == Checkpointed(st, epoch, p);

    var restarted := false;
    if epoch + 1 >= nextCycleEnd && epoch - lastImproval >= cfg.cycleEndPatience {
      if cfg.swaEnabled && epoch + 1 >= cfg.swaEpochToStart {
        swaUpdateCount := swaUpdateCount + 1;
        events := events + [SwaUpdated(epoch, slot, swaUpdateCount)];
        var swaP := swaPrecision(epoch);
        if Exceeds(swaP, swaBest) {
          events := events + [SwaSaved(epoch)];
          swaBest := Some(swaP);
        }
      }
      sgdrIterations := 0;
      currentCycleEpochs := TruncDiv(currentCycleEpochs * cfg.cycleEpochsMult.num, cfg.cycleEpochsMult.den);
      nextCycleEnd := epoch + 1 + currentCycleEpochs + cfg.prolongation;
      slot := slot + 1;
      cycleBest := None;
      cycleCount := cycleCount + 1;
      restarted := true;
      events := events + [CycleRestarted(epoch, currentCycleEpochs, cycleCount)];
    }
    step := Step(RunState(currentCycleEpochs, nextCycleEnd, sgdrIterations, cycleCount, lastImproval,
                          swaUpdateCount, slot, cycleBest, globalBest, swaBest), events, restarted);
  }
}
