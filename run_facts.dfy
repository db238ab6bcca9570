/** What the training run guarantees: the rules of one epoch's end, the
    invariants the whole run keeps, and when and why it stops. */
module RunFacts {

  import opened Common
  import opened Epoch
  import opened Slots
  import opened Run

  // ---------------------------------------------------------------------
  // One epoch

  /** A slot file is written exactly when the epoch beats the cycle's best,
      model.pth exactly when it beats the global best, and
      epoch_of_last_improval moves to the epoch exactly then.  The global best
      never decreases, nor does the cycle best until a restart clears it. */
  lemma CheckpointRules(cfg: Config, st: RunState, epoch: nat, p: real, swaP: real)
    requires st.lastImproval < epoch || (st.lastImproval == 0 && epoch == 0)
    ensures var step := Advance(cfg, st, epoch, p, swaP);
      && (SlotSaved(epoch, st.slot) in step.events <==> Exceeds(p, st.cycleBest))
      && (BestSaved(epoch) in step.events <==> Exceeds(p, st.globalBest))
      && (step.state.lastImproval == epoch <==> Exceeds(p, st.globalBest) || epoch == 0)
      && step.state.lastImproval <= epoch
      && AtLeast(step.state.globalBest, st.globalBest)
      && step.state.globalBest.Some? && step.state.globalBest.value >= p
      && (!step.restarted ==> AtLeast(step.state.cycleBest, st.cycleBest))
  {
    AdvanceEvents(cfg, st, epoch, p, swaP);
    CheckpointMembers(st, epoch, p);
    var checked := Checkpointed(st, epoch, p);
    if CycleOver(cfg, checked, epoch) {
      RestartMembers(cfg, checked, epoch, swaP);
    }
  }

  /** The cycle ends exactly when its scheduled end is reached and the last
      improvement is at least sgdr_cycle_end_patience epochs old.  A restart
      zeroes sgdr_iterations, scales the cycle length, schedules the next end
      after the new length and the prolongation, moves to the next slot with
      the cycle best at minus infinity, counts the cycle, and rebuilds the
      optimizer with the cycle count as the decay exponent; otherwise only the
      bests and epoch_of_last_improval change. */
  lemma RestartRule(cfg: Config, st: RunState, epoch: nat, p: real, swaP: real)
    ensures var step := Advance(cfg, st, epoch, p, swaP);
      && (step.restarted <==>
            epoch + 1 >= st.nextCycleEnd && epoch - step.state.lastImproval >= cfg.cycleEndPatience)
      && (step.restarted ==>
            && step.state.sgdrIterations == 0
            && step.state.cycleEpochs == TruncDiv(st.cycleEpochs * cfg.cycleEpochsMult.num, cfg.cycleEpochsMult.den)
            && step.state.nextCycleEnd == epoch + 1 + step.state.cycleEpochs + cfg.prolongation
            && step.state.slot == st.slot + 1
            && step.state.cycleCount == st.cycleCount + 1
            && step.state.cycleBest == None
            && step.events[|step.events| - 1] == CycleRestarted(epoch, step.state.cycleEpochs, step.state.cycleCount))
      && (!step.restarted ==>
            && step.state.(cycleBest := st.cycleBest, globalBest := st.globalBest, lastImproval := st.lastImproval) == st
            && (forall e :: e in step.events ==> e.SlotSaved? || e.BestSaved?))
  {
  }

  /** The SWA model is updated only at a restart with SWA enabled and
      epoch + 1 >= swa_epoch_to_start; it then counts one more update, so the
      blend weight 1 / count is never a division by zero, and it blends the
      slot of the cycle just ended.  swa_model.pth is written only when the
      SWA precision beats its best, which never decreases. */
  lemma SwaRule(cfg: Config, st: RunState, epoch: nat, p: real, swaP: real)
    ensures var step := Advance(cfg, st, epoch, p, swaP);
      var swa := step.restarted && cfg.swaEnabled && epoch + 1 >= cfg.swaEpochToStart;
      && step.state.swaUpdateCount == (if swa then st.swaUpdateCount + 1 else st.swaUpdateCount)
      && (swa ==> SwaUpdated(epoch, st.slot, step.state.swaUpdateCount) in step.events)
      && (forall e :: e in step.events && e.SwaUpdated? ==> swa && e.count >= 1 && e.slot == st.slot)
      && (SwaSaved(epoch) in step.events <==> swa && Exceeds(swaP, st.swaBest))
      && AtLeast(step.state.swaBest, st.swaBest)
  {
    AdvanceEvents(cfg, st, epoch, p, swaP);
    CheckpointMembers(st, epoch, p);
    var checked := Checkpointed(st, epoch, p);
    if CycleOver(cfg, checked, epoch) {
      RestartMembers(cfg, checked, epoch, swaP);
    }
  }

  /** The checkpoints an epoch writes, by kind. */
  lemma CheckpointMembers(st: RunState, epoch: nat, p: real)
    ensures var saves := Checkpoints(st, epoch, p);
      && (SlotSaved(epoch, st.slot) in saves <==> Exceeds(p, st.cycleBest))
      && (BestSaved(epoch) in saves <==> Exceeds(p, st.globalBest))
      && (forall e :: e in saves ==> e == SlotSaved(epoch, st.slot) || e == BestSaved(epoch))
  {
  }

  /** The events of a restart, by kind: never a checkpoint of the epoch's
      precision, one SWA update of the current slot exactly when SWA is due,
      and swa_model.pth exactly when the SWA precision also beats its best. */
  lemma RestartMembers(cfg: Config, st: RunState, epoch: nat, swaP: real)
    ensures var r := Restart(cfg, st, epoch, swaP);
      var swa := cfg.swaEnabled && epoch + 1 >= cfg.swaEpochToStart;
      && (forall e :: e in r.events ==> !e.SlotSaved? && !e.BestSaved?)
      && (swa ==> SwaUpdated(epoch, st.slot, r.state.swaUpdateCount) in r.events)
      && (forall e :: e in r.events && e.SwaUpdated? ==> swa && e.count == r.state.swaUpdateCount && e.slot == st.slot)
      && (SwaSaved(epoch) in r.events <==> swa && Exceeds(swaP, st.swaBest))
  {
  }

  // ---------------------------------------------------------------------
  // The whole run

  /** Slot `slot` has been written somewhere in the trace. */
  predicate Written(trace: seq<Event>, slot: int) {
    exists j :: 0 <= j < |trace| && trace[j].SlotSaved? && trace[j].slot == slot
  }

  /** Every SWA update blends a slot file written earlier in the run. */
  predicate SwaLoadsWritten(trace: seq<Event>) {
    forall i :: 0 <= i < |trace| && trace[i].SwaUpdated? ==>
      exists j :: 0 <= j < i && trace[j].SlotSaved? && trace[j].slot == trace[i].slot
  }

  /** Slot files are written in order of their index. */
  predicate SlotsInOrder(trace: seq<Event>) {
    forall i, j :: 0 <= i < j < |trace| && trace[i].SlotSaved? && trace[j].SlotSaved? ==>
      trace[i].slot <= trace[j].slot
  }

  /** The update counts of the SWA updates in the trace, in order. */
  function SwaCounts(trace: seq<Event>): seq<nat> {
    if trace == [] then []
    else
      var last := trace[|trace| - 1];
      SwaCounts(trace[..|trace| - 1]) + (if last.SwaUpdated? then [last.count] else [])
  }

  /** 1, 2, ..., n. */
  function UpTo(n: nat): (r: seq<nat>)
    ensures |r| == n && forall k :: 0 <= k < n ==> r[k] == k + 1
  {
    if n == 0 then [] else UpTo(n - 1) + [n]
  }

  /** The best precision so far, and the epoch it was first reached, are
      epoch_of_last_improval and the global best; the cycle best never
      exceeds the global best. */
  ghost predicate BestInv(precision: Precisions, st: RunState, epoch: nat) {
    && (st.globalBest.Some? <==> epoch > 0)
    && (epoch == 0 ==> st.lastImproval == 0)
    && (epoch > 0 ==>
          && st.lastImproval < epoch
          && precision(st.lastImproval) == st.globalBest.value
          && (forall k: nat :: k < epoch ==> precision(k) <= st.globalBest.value))
    && (forall k: nat :: k < st.lastImproval ==> precision(k) < precision(st.lastImproval))
    && (st.cycleBest.Some? ==> st.globalBest.Some? && st.cycleBest.value <= st.globalBest.value)
  }

  /** At most one restart per epoch; the slot index is the starting slot plus
      the cycles completed; at most one SWA update per cycle. */
  ghost predicate CounterInv(startSlot: int, st: RunState, epoch: nat) {
    && st.cycleCount <= epoch
    && st.slot == startSlot + st.cycleCount
    && st.swaUpdateCount <= st.cycleCount
  }

  /** The current slot has been written once the cycle has a best; slot files
      are written in order, from the starting slot to the current one; every
      SWA update loads a slot written before it, and the k-th SWA update
      blends with weight 1 / k. */
  ghost predicate TraceInv(startSlot: int, st: RunState, trace: seq<Event>) {
    && (st.cycleBest.Some? ==> Written(trace, st.slot))
    && (forall i :: 0 <= i < |trace| && trace[i].SlotSaved? ==> startSlot <= trace[i].slot <= st.slot)
    && SlotsInOrder(trace)
    && SwaLoadsWritten(trace)
    && SwaCounts(trace) == UpTo(st.swaUpdateCount)
  }

  ghost predicate Inv(startSlot: int, precision: Precisions, st: RunState, epoch: nat, trace: seq<Event>) {
    BestInv(precision, st, epoch) && CounterInv(startSlot, st, epoch) && TraceInv(startSlot, st, trace)
  }

  lemma InitialInv(cfg: Config, startSlot: int, precision: Precisions)
    ensures Inv(startSlot, precision, Initial(cfg, startSlot), 0, [])
  {
  }

  lemma AdvanceKeepsBestInv(cfg: Config, st: RunState, epoch: nat, precision: Precisions, swaP: real)
    requires BestInv(precision, st, epoch)
    ensures BestInv(precision, Advance(cfg, st, epoch, precision(epoch), swaP).state, epoch + 1)
  {
    var st' := Advance(cfg, st, epoch, precision(epoch), swaP).state;
    CheckpointRules(cfg, st, epoch, precision(epoch), swaP);
    if Exceeds(precision(epoch), st.globalBest) {
      assert st'.lastImproval == epoch;
      forall k: nat | k < epoch ensures precision(k) < precision(epoch) {
      }
    }
  }

  lemma AdvanceKeepsCounterInv(cfg: Config, st: RunState, epoch: nat, p: real, swaP: real, startSlot: int)
    requires CounterInv(startSlot, st, epoch)
    ensures CounterInv(startSlot, Advance(cfg, st, epoch, p, swaP).state, epoch + 1)
  {
  }

  /** An epoch's checkpoints: at most its slot file, then model.pth. */
  lemma CheckpointsShape(st: RunState, epoch: nat, p: real)
    ensures var saves := Checkpoints(st, epoch, p);
      && |saves| <= 2
      && (Exceeds(p, st.cycleBest) ==> saves[0] == SlotSaved(epoch, st.slot))
      && (forall i :: 0 <= i < |saves| ==> saves[i] == SlotSaved(epoch, st.slot) || saves[i] == BestSaved(epoch))
      && SwaCounts(saves) == []
  {
    SwaCountsNone(Checkpoints(st, epoch, p));
  }

  /** The events of a restart: at most one SWA update, of the slot of the
      cycle just ended and with the new update count, a possible
      swa_model.pth, and the restart itself; never a slot file. */
  lemma RestartEvents(cfg: Config, st: RunState, epoch: nat, swaP: real)
    ensures var r := Restart(cfg, st, epoch, swaP);
      && (forall i :: 0 <= i < |r.events| ==> !r.events[i].SlotSaved?)
      && (forall i :: 0 <= i < |r.events| && r.events[i].SwaUpdated? ==>
            r.events[i].slot == st.slot && r.events[i].count == r.state.swaUpdateCount)
      && SwaCounts(r.events) == (if r.state.swaUpdateCount == st.swaUpdateCount then []
                                 else [r.state.swaUpdateCount])
  {
    var r := Restart(cfg, st, epoch, swaP);
    var swa := cfg.swaEnabled && epoch + 1 >= cfg.swaEpochToStart;
    var count := r.state.swaUpdateCount;
    var swaImproved := swa && Exceeds(swaP, st.swaBest);
    var swaEvents := (if swa then [SwaUpdated(epoch, st.slot, count)] else [])
      + (if swaImproved then [SwaSaved(epoch)] else []);
    var restart := [CycleRestarted(epoch, r.state.cycleEpochs, r.state.cycleCount)];
    assert r.events == swaEvents + restart;
    SwaCountsAppend(swaEvents, restart);
    if swa {
      SwaCountsAppend([SwaUpdated(epoch, st.slot, count)], if swaImproved then [SwaSaved(epoch)] else []);
    } else {
      SwaCountsNone(swaEvents);
    }
  }

  lemma SwaCountsNone(trace: seq<Event>)
    requires forall i :: 0 <= i < |trace| ==> !trace[i].SwaUpdated?
    ensures SwaCounts(trace) == []
  {
    if trace != [] {
      SwaCountsNone(trace[..|trace| - 1]);
    }
  }

  lemma {:induction false} SwaCountsAppend(a: seq<Event>, b: seq<Event>)
    ensures SwaCounts(a + b) == SwaCounts(a) + SwaCounts(b)
    decreases |b|
  {
    if b == [] {
      assert a + b == a;
    } else {
      var l := |b| - 1;
      assert (a + b)[..|a + b| - 1] == a + b[..l];
      SwaCountsAppend(a, b[..l]);
    }
  }

  /** An epoch's events are its checkpoints, then the restart's events, if any. */
  function RestartPart(cfg: Config, st: RunState, epoch: nat, p: real, swaP: real): seq<Event> {
    var checked := Checkpointed(st, epoch, p);
    if CycleOver(cfg, checked, epoch) then Restart(cfg, checked, epoch, swaP).events else []
  }

  /** By the end of the checkpoints the current slot has been written: either
      earlier in the cycle or now, since the first epoch of a cycle always
      beats minus infinity. */
  lemma SlotWrittenByCheckpoints(st: RunState, epoch: nat, p: real, trace: seq<Event>)
    requires st.cycleBest.Some? ==> Written(trace, st.slot)
    ensures Written(trace + Checkpoints(st, epoch, p), st.slot)
  {
    var mid := trace + Checkpoints(st, epoch, p);
    CheckpointsShape(st, epoch, p);
    if st.cycleBest.Some? {
      var j :| 0 <= j < |trace| && trace[j].SlotSaved? && trace[j].slot == st.slot;
      assert mid[j] == trace[j];
    } else {
      assert mid[|trace|] == SlotSaved(epoch, st.slot);
    }
  }

  lemma WrittenGrows(a: seq<Event>, b: seq<Event>, slot: int)
    requires Written(a, slot)
    ensures Written(a + b, slot)
  {
    var j :| 0 <= j < |a| && a[j].SlotSaved? && a[j].slot == slot;
    assert (a + b)[j] == a[j];
  }

  lemma AdvanceKeepsWritten(cfg: Config, st: RunState, epoch: nat, p: real, swaP: real, trace: seq<Event>)
    requires st.cycleBest.Some? ==> Written(trace, st.slot)
    ensures var step := Advance(cfg, st, epoch, p, swaP);
      step.state.cycleBest.Some? ==> Written(trace + step.events, step.state.slot)
  {
    var step := Advance(cfg, st, epoch, p, swaP);
    if !step.restarted {
      SlotWrittenByCheckpoints(st, epoch, p, trace);
      assert trace + step.events == trace + Checkpoints(st, epoch, p);
    }
  }

  lemma AdvanceEvents(cfg: Config, st: RunState, epoch: nat, p: real, swaP: real)
    ensures Advance(cfg, st, epoch, p, swaP).events == Checkpoints(st, epoch, p) + RestartPart(cfg, st, epoch, p, swaP)
  {
  }

  /** Every slot file an epoch writes, and every slot its SWA update blends,
      is the current slot; the SWA update comes after the checkpoints. */
  lemma EpochEventSlots(cfg: Config, st: RunState, epoch: nat, p: real, swaP: real)
    ensures var events := Checkpoints(st, epoch, p) + RestartPart(cfg, st, epoch, p, swaP);
      && (forall k :: 0 <= k < |events| && events[k].SlotSaved? ==> events[k].slot == st.slot)
      && (forall k :: 0 <= k < |events| && events[k].SwaUpdated? ==>
            k >= |Checkpoints(st, epoch, p)| && events[k].slot == st.slot)
  {
    var saves := Checkpoints(st, epoch, p);
    var rest := RestartPart(cfg, st, epoch, p, swaP);
    assert forall k :: 0 <= k < |saves| ==> !saves[k].SwaUpdated? && (saves[k].SlotSaved? ==> saves[k].slot == st.slot) by {
      CheckpointsShape(st, epoch, p);
    }
    assert forall k :: 0 <= k < |rest| ==> !rest[k].SlotSaved? && (rest[k].SwaUpdated? ==> rest[k].slot == st.slot) by {
      var checked := Checkpointed(st, epoch, p);
      if CycleOver(cfg, checked, epoch) {
        RestartEvents(cfg, checked, epoch, swaP);
      }
    }
    ConcatSlots(saves, rest, st.slot);
  }

  lemma ConcatSlots(saves: seq<Event>, rest: seq<Event>, slot: int)
    requires forall k :: 0 <= k < |saves| ==> !saves[k].SwaUpdated? && (saves[k].SlotSaved? ==> saves[k].slot == slot)
    requires forall k :: 0 <= k < |rest| ==> !rest[k].SlotSaved? && (rest[k].SwaUpdated? ==> rest[k].slot == slot)
    ensures var events := saves + rest;
      && (forall k :: 0 <= k < |events| && events[k].SlotSaved? ==> events[k].slot == slot)
      && (forall k :: 0 <= k < |events| && events[k].SwaUpdated? ==> k >= |saves| && events[k].slot == slot)
  {
    var events := saves + rest;
    assert forall k :: |saves| <= k < |events| ==> events[k] == rest[k - |saves|];
  }

  lemma AdvanceKeepsSlotOrder(cfg: Config, st: RunState, epoch: nat, p: real, swaP: real,
                              startSlot: int, trace: seq<Event>)
    requires CounterInv(startSlot, st, epoch)
    requires forall i :: 0 <= i < |trace| && trace[i].SlotSaved? ==> startSlot <= trace[i].slot <= st.slot
    requires SlotsInOrder(trace)
    ensures var step := Advance(cfg, st, epoch, p, swaP);
      var t := trace + step.events;
      && (forall i :: 0 <= i < |t| && t[i].SlotSaved? ==> startSlot <= t[i].slot <= step.state.slot)
      && SlotsInOrder(t)
  {
    var step := Advance(cfg, st, epoch, p, swaP);
    AdvanceEvents(cfg, st, epoch, p, swaP);
    EpochEventSlots(cfg, st, epoch, p, swaP);
    var t := trace + step.events;
    assert forall i :: |trace| <= i < |t| ==> t[i] == step.events[i - |trace|];
    assert forall i :: 0 <= i < |trace| ==> t[i] == trace[i];
  }

  /** The k-th SWA update of the run carries count k. */
  lemma AdvanceKeepsSwaCounts(cfg: Config, st: RunState, epoch: nat, p: real, swaP: real, trace: seq<Event>)
    requires SwaCounts(trace) == UpTo(st.swaUpdateCount)
    ensures var step := Advance(cfg, st, epoch, p, swaP);
      SwaCounts(trace + step.events) == UpTo(step.state.swaUpdateCount)
  {
    var step := Advance(cfg, st, epoch, p, swaP);
    var checked := Checkpointed(st, epoch, p);
    var saves := Checkpoints(st, epoch, p);
    var rest := RestartPart(cfg, st, epoch, p, swaP);
    AdvanceEvents(cfg, st, epoch, p, swaP);
    CheckpointsShape(st, epoch, p);
    SwaCountsAppend(trace, saves + rest);
    SwaCountsAppend(saves, rest);
    if CycleOver(cfg, checked, epoch) {
      RestartEvents(cfg, checked, epoch, swaP);
      assert step.state == Restart(cfg, checked, epoch, swaP).state;
    } else {
      assert rest == [];
      assert step.state.swaUpdateCount == st.swaUpdateCount;
    }
  }

  /** Every SWA update loads a slot file written before it. */
  lemma AdvanceKeepsSwaLoads(cfg: Config, st: RunState, epoch: nat, p: real, swaP: real, trace: seq<Event>)
    requires st.cycleBest.Some? ==> Written(trace, st.slot)
    requires SwaLoadsWritten(trace)
    ensures SwaLoadsWritten(trace + Advance(cfg, st, epoch, p, swaP).events)
  {
    var events := Advance(cfg, st, epoch, p, swaP).events;
    var saves := Checkpoints(st, epoch, p);
    var mid := trace + saves;
    var t := trace + events;
    AdvanceEvents(cfg, st, epoch, p, swaP);
    EpochEventSlots(cfg, st, epoch, p, swaP);
    SlotWrittenByCheckpoints(st, epoch, p, trace);
    var j :| 0 <= j < |mid| && mid[j].SlotSaved? && mid[j].slot == st.slot;
    forall i | 0 <= i < |t| && t[i].SwaUpdated?
      ensures exists j :: 0 <= j < i && t[j].SlotSaved? && t[j].slot == t[i].slot
    {
      if i < |trace| {
        var j' :| 0 <= j' < i && trace[j'].SlotSaved? && trace[j'].slot == trace[i].slot;
        assert t[j'] == trace[j'] && t[i] == trace[i];
      } else {
        assert t[i] == events[i - |trace|];
        assert t[j] == mid[j];
      }
    }
  }

  lemma AdvanceKeepsInv(cfg: Config, st: RunState, epoch: nat, precision: Precisions, swaP: real,
                        startSlot: int, trace: seq<Event>)
    requires Inv(startSlot, precision, st, epoch, trace)
    ensures var step := Advance(cfg, st, epoch, precision(epoch), swaP);
      Inv(startSlot, precision, step.state, epoch + 1, trace + step.events)
  {
    var p := precision(epoch);
    AdvanceKeepsBestInv(cfg, st, epoch, precision, swaP);
    AdvanceKeepsCounterInv(cfg, st, epoch, p, swaP, startSlot);
    AdvanceKeepsWritten(cfg, st, epoch, p, swaP, trace);
    AdvanceKeepsSlotOrder(cfg, st, epoch, p, swaP, startSlot, trace);
    AdvanceKeepsSwaCounts(cfg, st, epoch, p, swaP, trace);
    AdvanceKeepsSwaLoads(cfg, st, epoch, p, swaP, trace);
  }

  /** Counting the epoch's steps changes none of what the invariants speak of. */
  lemma TrainedKeepsInv(st: RunState, epochIterations: int, precision: Precisions, startSlot: int,
                        epoch: nat, trace: seq<Event>)
    requires Inv(startSlot, precision, st, epoch, trace)
    ensures Inv(startSlot, precision, Trained(st, epochIterations), epoch, trace)
  {
  }

  /** The invariants hold to the end of the run. */
  lemma {:induction false} RunKeepsInv(cfg: Config, epochIterations: int, precision: Precisions,
                                       swaPrecision: Precisions, startSlot: int,
                                       st: RunState, epoch: nat, trace: seq<Event>)
    requires Inv(startSlot, precision, st, epoch, trace)
    ensures var out := RunFrom(cfg, epochIterations, precision, swaPrecision, st, epoch, trace);
      Inv(startSlot, precision, out.final, out.epochsRun, out.trace)
    decreases cfg.epochsToTrain - epoch
  {
    if epoch < cfg.epochsToTrain {
      var trained := Trained(st, epochIterations);
      TrainedKeepsInv(st, epochIterations, precision, startSlot, epoch, trace);
      AdvanceKeepsInv(cfg, trained, epoch, precision, swaPrecision(epoch), startSlot, trace);
      var step := Advance(cfg, trained, epoch, precision(epoch), swaPrecision(epoch));
      if StopRule(cfg, step, epoch).None? {
        RunKeepsInv(cfg, epochIterations, precision, swaPrecision, startSlot, step.state, epoch + 1, trace + step.events);
      }
    }
  }

  /** Over a whole run: epoch_of_last_improval is the first epoch that reached
      the best precision, which is the global best; at most one cycle ends per
      epoch; the slot index is the starting slot plus the cycles completed;
      slot files are written in index order from the starting slot on; every
      SWA update blends a slot file written earlier, the k-th with weight
      1 / k. */
  lemma TrainInvariants(cfg: Config, n: nat, batchSize: int, batchIters: int, maxEpochIterations: int,
                        slotFiles: seq<string>, precision: Precisions, swaPrecision: Precisions)
    requires Train(cfg, n, batchSize, batchIters, maxEpochIterations, slotFiles, precision, swaPrecision).Ok?
    ensures var out := Train(cfg, n, batchSize, batchIters, maxEpochIterations, slotFiles, precision, swaPrecision).value;
      Inv(StartingSlot(slotFiles).value, precision, out.final, out.epochsRun, out.trace)
  {
    var epochIterations := EpochIterations(n, batchSize, batchIters, maxEpochIterations).value;
    var startSlot := StartingSlot(slotFiles).value;
    InitialInv(cfg, startSlot, precision);
    RunKeepsInv(cfg, epochIterations, precision, swaPrecision, startSlot, Initial(cfg, startSlot), 0, []);
  }

  /** No slot file the run writes was present when it started. */
  lemma NoExistingSlotOverwritten(cfg: Config, n: nat, batchSize: int, batchIters: int, maxEpochIterations: int,
                                  slotFiles: seq<string>, precision: Precisions, swaPrecision: Precisions)
    requires Train(cfg, n, batchSize, batchIters, maxEpochIterations, slotFiles, precision, swaPrecision).Ok?
    ensures var out := Train(cfg, n, batchSize, batchIters, maxEpochIterations, slotFiles, precision, swaPrecision).value;
      forall i :: 0 <= i < |out.trace| && out.trace[i].SlotSaved? ==>
        out.trace[i].slot >= 0 && SlotFileName(out.trace[i].slot) !in slotFiles
  {
    var out := Train(cfg, n, batchSize, batchIters, maxEpochIterations, slotFiles, precision, swaPrecision).value;
    var startSlot := StartingSlot(slotFiles).value;
    TrainInvariants(cfg, n, batchSize, batchIters, maxEpochIterations, slotFiles, precision, swaPrecision);
    StartingSlotBounds(slotFiles);
    forall i | 0 <= i < |out.trace| && out.trace[i].SlotSaved?
      ensures out.trace[i].slot >= 0 && SlotFileName(out.trace[i].slot) !in slotFiles
    {
      var slot := out.trace[i].slot;
      assert slot >= startSlot >= 0;
      if SlotFileName(slot) in slotFiles {
        var k :| 0 <= k < |slotFiles| && slotFiles[k] == SlotFileName(slot);
        SlotIndexOfSlotFileName(slot);
      }
    }
  }

  // ---------------------------------------------------------------------
  // Stopping

  /** The run goes on to epochs_to_train epochs unless an early exit fires:
      the no-improvement exit only at a restart, with at least
      ensemble_model_count cycles done and the last improvement at least
      `patience` epochs old; the cycle-limit exit once max_sgdr_cycles cycles
      are done.  The trace only grows. */
  lemma {:induction false} RunStops(cfg: Config, epochIterations: int, precision: Precisions,
                                    swaPrecision: Precisions, st: RunState, epoch: nat, trace: seq<Event>)
    ensures var out := RunFrom(cfg, epochIterations, precision, swaPrecision, st, epoch, trace);
      && out.epochsRun >= epoch
      && |out.trace| >= |trace| && out.trace[..|trace|] == trace
      && (out.reason == EpochsExhausted ==> out.epochsRun == Max(cfg.epochsToTrain, epoch))
      && (out.reason != EpochsExhausted ==> epoch < out.epochsRun <= cfg.epochsToTrain)
      && (out.reason == NoImproval ==>
            && out.final.cycleCount >= cfg.ensembleModelCount
            && out.epochsRun - 1 - out.final.lastImproval >= cfg.patience
            && |out.trace| > 0
            && out.trace[|out.trace| - 1]
               == CycleRestarted(out.epochsRun - 1, out.final.cycleEpochs, out.final.cycleCount))
      && (out.reason == MaxCyclesReached ==>
            cfg.maxCycles.Some? && out.final.cycleCount >= cfg.maxCycles.value)
    decreases cfg.epochsToTrain - epoch
  {
    if epoch < cfg.epochsToTrain {
      var trained := Trained(st, epochIterations);
      var step := Advance(cfg, trained, epoch, precision(epoch), swaPrecision(epoch));
      RestartRule(cfg, trained, epoch, precision(epoch), swaPrecision(epoch));
      var next := trace + step.events;
      if StopRule(cfg, step, epoch).None? {
        RunStops(cfg, epochIterations, precision, swaPrecision, step.state, epoch + 1, next);
        var out := RunFrom(cfg, epochIterations, precision, swaPrecision, step.state, epoch + 1, next);
        assert out.trace[..|trace|] == next[..|trace|];
      } else {
        assert next[..|trace|] == trace;
      }
    }
  }

  /** The run cut short at epoch e (epochs_to_train = e) follows the full run
      step by step: if it exits early, so does the full run, with the same
      outcome; otherwise the full run goes on from where it stopped. */
  lemma {:induction false} PrefixRun(cfg: Config, epochIterations: int, precision: Precisions,
                                     swaPrecision: Precisions, st: RunState, epoch: nat, trace: seq<Event>, e: nat)
    requires epoch <= e <= cfg.epochsToTrain
    ensures var pre := RunFrom(cfg.(epochsToTrain := e), epochIterations, precision, swaPrecision, st, epoch, trace);
      var full := RunFrom(cfg, epochIterations, precision, swaPrecision, st, epoch, trace);
      && (pre.reason == EpochsExhausted ==>
            pre.epochsRun == e && full == RunFrom(cfg, epochIterations, precision, swaPrecision, pre.final, e, pre.trace))
      && (pre.reason != EpochsExhausted ==> full == pre)
    decreases e - epoch
  {
    var cut := cfg.(epochsToTrain := e);
    if epoch < e {
      var step := Advance(cfg, Trained(st, epochIterations), epoch, precision(epoch), swaPrecision(epoch));
      assert Advance(cut, Trained(st, epochIterations), epoch, precision(epoch), swaPrecision(epoch)) == step;
      assert StopRule(cut, step, epoch) == StopRule(cfg, step, epoch);
      if StopRule(cfg, step, epoch).None? {
        PrefixRun(cfg, epochIterations, precision, swaPrecision, step.state, epoch + 1, trace + step.events, e);
      }
    }
  }

  /** The run exits early at the end of epoch e exactly when the run cut
      short at e has not exited and a stopping rule holds at the end of epoch
      e; the outcome is then that epoch's state, events and rule. */
  lemma ExitAtFirstRule(cfg: Config, epochIterations: int, precision: Precisions,
                        swaPrecision: Precisions, st: RunState, epoch: nat, trace: seq<Event>, e: nat)
    requires epoch <= e < cfg.epochsToTrain
    ensures var out := RunFrom(cfg, epochIterations, precision, swaPrecision, st, epoch, trace);
      var pre := RunFrom(cfg.(epochsToTrain := e), epochIterations, precision, swaPrecision, st, epoch, trace);
      var step := Advance(cfg, Trained(pre.final, epochIterations), e, precision(e), swaPrecision(e));
      && ((out.reason != EpochsExhausted && out.epochsRun == e + 1)
          <==> (pre.reason == EpochsExhausted && StopRule(cfg, step, e).Some?))
      && (pre.reason == EpochsExhausted && StopRule(cfg, step, e).Some? ==>
            out == Outcome(step.state, pre.trace + step.events, e + 1, StopRule(cfg, step, e).value))
  {
    var cut := cfg.(epochsToTrain := e);
    PrefixRun(cfg, epochIterations, precision, swaPrecision, st, epoch, trace, e);
    RunStops(cut, epochIterations, precision, swaPrecision, st, epoch, trace);
    var pre := RunFrom(cut, epochIterations, precision, swaPrecision, st, epoch, trace);
    if pre.reason == EpochsExhausted {
      var step := Advance(cfg, Trained(pre.final, epochIterations), e, precision(e), swaPrecision(e));
      if StopRule(cfg, step, e).None? {
        RunStops(cfg, epochIterations, precision, swaPrecision, step.state, e + 1, pre.trace + step.events);
      }
    }
  }

  /** Before the epoch it exits at, no cut-short run exits early: the run
      stops at the first epoch whose end satisfies a stopping rule. */
  lemma NoEarlierExit(cfg: Config, epochIterations: int, precision: Precisions,
                      swaPrecision: Precisions, st: RunState, epoch: nat, trace: seq<Event>, e: nat)
    requires epoch <= e <= cfg.epochsToTrain
    requires e < RunFrom(cfg, epochIterations, precision, swaPrecision, st, epoch, trace).epochsRun
    ensures RunFrom(cfg.(epochsToTrain := e), epochIterations, precision, swaPrecision, st, epoch, trace).reason
      == EpochsExhausted
  {
    var cut := cfg.(epochsToTrain := e);
    PrefixRun(cfg, epochIterations, precision, swaPrecision, st, epoch, trace, e);
    RunStops(cut, epochIterations, precision, swaPrecision, st, epoch, trace);
  }

  /** With max_sgdr_cycles = m >= 1 the run never completes more than m cycles. */
  lemma {:induction false} MaxCyclesBound(cfg: Config, epochIterations: int, precision: Precisions,
                                          swaPrecision: Precisions, st: RunState, epoch: nat,
                                          trace: seq<Event>, m: int)
    requires cfg.maxCycles == Some(m) && st.cycleCount < m
    ensures RunFrom(cfg, epochIterations, precision, swaPrecision, st, epoch, trace).final.cycleCount <= m
    decreases cfg.epochsToTrain - epoch
  {
    if epoch < cfg.epochsToTrain {
      var trained := Trained(st, epochIterations);
      var step := Advance(cfg, trained, epoch, precision(epoch), swaPrecision(epoch));
      RestartRule(cfg, trained, epoch, precision(epoch), swaPrecision(epoch));
      if StopRule(cfg, step, epoch).None? {
        MaxCyclesBound(cfg, epochIterations, precision, swaPrecision, step.state, epoch + 1, trace + step.events, m);
      }
    }
  }

  /** The stopping facts for a whole run. */
  lemma TrainStops(cfg: Config, n: nat, batchSize: int, batchIters: int, maxEpochIterations: int,
                   slotFiles: seq<string>, precision: Precisions, swaPrecision: Precisions)
    requires Train(cfg, n, batchSize, batchIters, maxEpochIterations, slotFiles, precision, swaPrecision).Ok?
    ensures var out := Train(cfg, n, batchSize, batchIters, maxEpochIterations, slotFiles, precision, swaPrecision).value;
      && out.epochsRun <= Max(cfg.epochsToTrain, 0)
      && (out.reason == EpochsExhausted ==> out.epochsRun == Max(cfg.epochsToTrain, 0))
      && (out.reason == NoImproval ==>
            out.final.cycleCount >= cfg.ensembleModelCount
            && out.epochsRun - 1 - out.final.lastImproval >= cfg.patience)
      && (out.reason == MaxCyclesReached ==> cfg.maxCycles.Some? && out.final.cycleCount >= cfg.maxCycles.value)
      && (cfg.maxCycles.Some? && cfg.maxCycles.value >= 1 ==> out.final.cycleCount <= cfg.maxCycles.value)
  {
    var epochIterations := EpochIterations(n, batchSize, batchIters, maxEpochIterations).value;
    var startSlot := StartingSlot(slotFiles).value;
    RunStops(cfg, epochIterations, precision, swaPrecision, Initial(cfg, startSlot), 0, []);
    if cfg.maxCycles.Some? && cfg.maxCycles.value >= 1 {
      MaxCyclesBound(cfg, epochIterations, precision, swaPrecision, Initial(cfg, startSlot), 0, [], cfg.maxCycles.value);
    }
  }

  // ---------------------------------------------------------------------
  // Cycle length and a one-cycle run

  /** int(len * mult): a multiplier of 1 keeps the cycle length, a larger one
      never shortens it, and one between 0 and 1 never lengthens it. */
  lemma CycleLengthScaling(len: int, mult: Ratio)
    ensures mult.num == mult.den ==> TruncDiv(len * mult.num, mult.den) == len
    ensures len >= 0 && mult.num >= mult.den ==> TruncDiv(len * mult.num, mult.den) >= len
    ensures len >= 0 && 0 <= mult.num <= mult.den ==> 0 <= TruncDiv(len * mult.num, mult.den) <= len
  {
    if mult.num == mult.den {
      UnitScaling(len, mult.den);
    }
    if len >= 0 && mult.num >= mult.den {
      GrowingScaling(len, mult);
    }
    if len >= 0 && 0 <= mult.num <= mult.den {
      ShrinkingScaling(len, mult);
    }
  }

  lemma UnitScaling(len: int, d: PosInt)
    ensures TruncDiv(len * d, d) == len
  {
    var q := TruncDiv(len * d, d);
    if len >= 0 {
      MulCancel(q, len + 1, d);
      MulCancel(len, q + 1, d);
    } else {
      MulMonotone(len, 0, d);
      MulCancel(q - 1, len, d);
    }
  }

  lemma GrowingScaling(len: nat, mult: Ratio)
    requires mult.num >= mult.den
    ensures TruncDiv(len * mult.num, mult.den) >= len
  {
    var q := TruncDiv(len * mult.num, mult.den);
    MulMonotone(mult.den, mult.num, len);
    MulCancel(len, q + 1, mult.den);
  }

  lemma ShrinkingScaling(len: nat, mult: Ratio)
    requires 0 <= mult.num <= mult.den
    ensures 0 <= TruncDiv(len * mult.num, mult.den) <= len
  {
    var q := TruncDiv(len * mult.num, mult.den);
    MulMonotone(mult.num, mult.den, len);
  }

  /** The epochs of a cycle up to its scheduled end, when the cycle-end
      patience is 0 and the run ends with the cycle: exactly one restart, at
      the scheduled end, whatever the precisions, and every slot file written
      is the cycle's slot. */
  lemma {:induction false} CycleEndsOnSchedule(cfg: Config, epochIterations: int, precision: Precisions,
                                               swaPrecision: Precisions, st: RunState, epoch: nat,
                                               trace: seq<Event>)
    requires cfg.epochsToTrain == st.nextCycleEnd && epoch < cfg.epochsToTrain
    requires cfg.cycleEndPatience <= 0 && cfg.maxCycles == None && cfg.ensembleModelCount > st.cycleCount + 1
    requires st.lastImproval <= epoch
    requires forall i :: 0 <= i < |trace| && trace[i].SlotSaved? ==> trace[i].slot == st.slot
    requires st.cycleBest.Some? ==> Written(trace, st.slot)
    ensures var out := RunFrom(cfg, epochIterations, precision, swaPrecision, st, epoch, trace);
      && out.reason == EpochsExhausted && out.epochsRun == cfg.epochsToTrain
      && Written(out.trace, st.slot)
      && out.final.cycleCount == st.cycleCount + 1 && out.final.slot == st.slot + 1
      && (forall i :: 0 <= i < |out.trace| && out.trace[i].SlotSaved? ==> out.trace[i].slot == st.slot)
      && |out.trace| > 0
      && out.trace[|out.trace| - 1] == CycleRestarted(cfg.epochsToTrain - 1,
           TruncDiv(st.cycleEpochs * cfg.cycleEpochsMult.num, cfg.cycleEpochsMult.den), st.cycleCount + 1)
    decreases cfg.epochsToTrain - epoch
  {
    if epoch + 1 < st.nextCycleEnd {
      var trained := Trained(st, epochIterations);
      var p := precision(epoch);
      var step := Advance(cfg, trained, epoch, p, swaPrecision(epoch));
      var next := trace + step.events;
      QuietEpoch(cfg, trained, epoch, p, swaPrecision(epoch), trace);
      CycleEndsOnSchedule(cfg, epochIterations, precision, swaPrecision, step.state, epoch + 1, next);
    } else {
      LastEpochOfCycle(cfg, epochIterations, precision, swaPrecision, st, epoch, trace);
    }
  }

  /** An epoch before the scheduled end of the cycle does not restart and
      writes only the cycle's slot. */
  lemma QuietEpoch(cfg: Config, st: RunState, epoch: nat, p: real, swaP: real, trace: seq<Event>)
    requires epoch + 1 < st.nextCycleEnd && st.lastImproval <= epoch
    requires forall i :: 0 <= i < |trace| && trace[i].SlotSaved? ==> trace[i].slot == st.slot
    requires st.cycleBest.Some? ==> Written(trace, st.slot)
    ensures var step := Advance(cfg, st, epoch, p, swaP);
      var next := trace + step.events;
      && !step.restarted
      && step.state.nextCycleEnd == st.nextCycleEnd && step.state.cycleCount == st.cycleCount
      && step.state.slot == st.slot && step.state.cycleEpochs == st.cycleEpochs
      && step.state.lastImproval <= epoch + 1
      && (forall i :: 0 <= i < |next| && next[i].SlotSaved? ==> next[i].slot == st.slot)
      && (step.state.cycleBest.Some? ==> Written(next, st.slot))
  {
    var step := Advance(cfg, st, epoch, p, swaP);
    var next := trace + step.events;
    RestartRule(cfg, st, epoch, p, swaP);
    AdvanceEvents(cfg, st, epoch, p, swaP);
    EpochEventSlots(cfg, st, epoch, p, swaP);
    AdvanceKeepsWritten(cfg, st, epoch, p, swaP, trace);
    assert forall i :: |trace| <= i < |next| ==> next[i] == step.events[i - |trace|];
  }

  /** The epoch at the scheduled end of the cycle restarts, with cycle-end
      patience 0, and it is the run's last. */
  lemma LastEpochOfCycle(cfg: Config, epochIterations: int, precision: Precisions,
                         swaPrecision: Precisions, st: RunState, epoch: nat, trace: seq<Event>)
    requires cfg.epochsToTrain == st.nextCycleEnd == epoch + 1
    requires cfg.cycleEndPatience <= 0 && cfg.maxCycles == None && cfg.ensembleModelCount > st.cycleCount + 1
    requires st.lastImproval <= epoch
    requires forall i :: 0 <= i < |trace| && trace[i].SlotSaved? ==> trace[i].slot == st.slot
    requires st.cycleBest.Some? ==> Written(trace, st.slot)
    ensures var out := RunFrom(cfg, epochIterations, precision, swaPrecision, st, epoch, trace);
      && out.reason == EpochsExhausted && out.epochsRun == cfg.epochsToTrain
      && Written(out.trace, st.slot)
      && out.final.cycleCount == st.cycleCount + 1 && out.final.slot == st.slot + 1
      && (forall i :: 0 <= i < |out.trace| && out.trace[i].SlotSaved? ==> out.trace[i].slot == st.slot)
      && |out.trace| > 0
      && out.trace[|out.trace| - 1] == CycleRestarted(cfg.epochsToTrain - 1,
           TruncDiv(st.cycleEpochs * cfg.cycleEpochsMult.num, cfg.cycleEpochsMult.den), st.cycleCount + 1)
  {
    var trained := Trained(st, epochIterations);
    var p := precision(epoch);
    var swaP := swaPrecision(epoch);
    var step := Advance(cfg, trained, epoch, p, swaP);
    var saves := Checkpoints(trained, epoch, p);
    var rest := RestartPart(cfg, trained, epoch, p, swaP);
    var next := trace + step.events;
    RestartRule(cfg, trained, epoch, p, swaP);
    AdvanceEvents(cfg, trained, epoch, p, swaP);
    EpochEventSlots(cfg, trained, epoch, p, swaP);
    assert forall i :: |trace| <= i < |next| ==> next[i] == step.events[i - |trace|];
    SlotWrittenByCheckpoints(trained, epoch, p, trace);
    WrittenGrows(trace + saves, rest, st.slot);
    assert next == trace + saves + rest;
    assert next[|next| - 1] == step.events[|step.events| - 1];
    assert StopRule(cfg, step, epoch).None?;
  }

  /** A five-epoch run whose first cycle is five epochs long, with no
      prolongation and cycle-end patience 0: the cycle ends at the fifth epoch
      and the run writes exactly one slot file, its starting slot. */
  lemma FiveEpochCycle(startSlot: int, epochIterations: int, precision: Precisions, swaPrecision: Precisions)
    ensures var cfg := Config(5, 5, Ratio(1, 1), 0, 0, 0, None, 3, false, 0);
      var out := RunFrom(cfg, epochIterations, precision, swaPrecision, Initial(cfg, startSlot), 0, []);
      && out.reason == EpochsExhausted && out.epochsRun == 5
      && out.final.cycleCount == 1 && out.final.slot == startSlot + 1
      && (forall i :: 0 <= i < |out.trace| && out.trace[i].SlotSaved? ==> out.trace[i].slot == startSlot)
      && (exists i :: 0 <= i < |out.trace| && out.trace[i].SlotSaved?)
      && out.trace[|out.trace| - 1] == CycleRestarted(4, 5, 1)
  {
    var cfg := Config(5, 5, Ratio(1, 1), 0, 0, 0, None, 3, false, 0);
    var st := Initial(cfg, startSlot);
    CycleEndsOnSchedule(cfg, epochIterations, precision, swaPrecision, st, 0, []);
    assert TruncDiv(5 * 1, 1) == 5;
  }
}
