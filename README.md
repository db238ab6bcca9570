# TGS salt segmentation: training bookkeeping and data-set assembly in Dafny

This project models the core of a training script for the TGS salt
identification challenge. That core is the part that decides *what* is trained,
*when* checkpoints are written and *which* models form the ensemble. It
leaves out the numerical work (the network, losses, tensors).

- `train.py`
  - `str2bool` for boolean command-line arguments.
  - `load_ensemble_model`'s choice of the k best checkpoints and of
    `best_model`.
  - In `main`: the starting slot index from the existing `model-<n>.pth`
    files, `epoch_iterations`, the gradient-accumulation loop of an epoch,
    and the end-of-epoch bookkeeping. That bookkeeping covers the cycle and
    global bests, the checkpoint writes, SGDR cycle restarts with their
    length scaling, SWA updates and the two early exits.
- `dataset.py`
  - `calculate_coverage_class`.
  - `TrainData.__init__`: the k-fold split, pseudo labels, the overlap check
    and the recomputed classes.
  - `replace_samples_with_cc1`, which rebalances pseudo-labelled rows towards
    coverage class 1.
  - The test ids of `TestData`.
  - `TrainDataset.__len__` and `__getitem__`.

Modules, one per file:

| file | module | models |
|---|---|---|
| common.dfy | Common | `Option`, `Result` with the Python exceptions raised, truncating and ceiling division, Python indexing |
| args.dfy | Args | `str2bool` |
| coverage.dfy | Coverage | masks and `calculate_coverage_class` |
| samples.dfy | Samples | the rows of the data frames and the frame operations used (`isin` selection, column assignment) |
| rebalance.dfy | Rebalance | `replace_samples_with_cc1` (a loop that patches a working copy of the frame) |
| assembly.dfy | Assembly | `TrainData.__init__` and the `TestData` ids |
| train_dataset.dfy | TrainSet | `TrainDataset.__len__` and `__getitem__` |
| slots.dfy | Slots | slot file names, `int(name.replace(...))` and the start-up slot scan |
| ensemble.dfy | Ensemble | `load_ensemble_model`'s selection loop |
| epoch.dfy | Epoch | `epoch_iterations`, the data-loader iterator (a class), the accumulation loop |
| run.dfy | Run | the epoch loop of `main` as a specification function and as a method |
| run_facts.dfy | RunFacts | what the epoch loop guarantees |

Modelling choices:

- **Oracles.** Randomness, file contents and model evaluations become function
  parameters:
  - `kfold_split`;
  - `reduce_salt_coverage`, keyed by the original row and the attempt number;
  - the augmentation;
  - the validation precision of each epoch and of the SWA model.
- **Minus infinity.** A best of `float("-inf")` is `None`.
- **Command-line floats.** They are exact fractions (`Ratio`).
- **`int(x)` of a float.** It truncates toward zero (`TruncDiv`).
- **Checkpoint files.** Every file the loop writes becomes an `Event` in a
  trace. The properties of the run are stated over that trace.
- **Loops and classes.** Where the source loops or mutates, the model does the
  same and is proved against a specification function:
  - `BuildTrainData` reassigns the two frames step by step;
  - `ReplaceSamplesWithCc1` patches its working copy in place;
  - `StartingSlotIndex`, `SelectEnsemble`, `Accumulate`, `TrainEpoch`,
    `TrainingRun` and `EndOfEpoch` are methods with loops or step-by-step
    updates;
  - `BatchSource` is a class whose `Next` consumes the data loader's batches.

Where the code and its design description differ, the model follows the code:

- **Coverage class 10.** It holds every mask whose salt exceeds 90 % of its
  pixels, not only the full masks.
- **`replace_samples_with_cc1`.** It keeps every row outside class 1, including
  rows above class 1 whose reduction failed. It drops the class-1 rows and
  appends the reduced copies. Those copies keep their source row's id and
  stale class, so the id appears twice.
- **Equal precisions in `load_ensemble_model`.** They share one dictionary key.
  The later model replaces the earlier one, so the ensemble can hold fewer than
  k models.
- **End of the first cycle.** It is at
  `sgdr_cycle_epochs + sgdr_cycle_end_prolongation`. The restart test compares
  `epoch + 1` against that end alone, since the prolongation is already part
  of it.
- **`max(score_to_model.keys())` in `load_ensemble_model`.** It never sees an
  empty dictionary: a candidate that does not raise has always left at least
  one key.

## Model

| member | source | states |
|---|---|---|
| Args.LowerChar | train.py:41 | an upper-case ASCII letter maps to its lower-case letter (code + 32); every other character is unchanged; the result is never upper case |
| Args.Lower | train.py:41 | `v.lower()` keeps the length, leaves no upper-case letter, and changes exactly the upper-case positions |
| Args.Str2Bool | train.py:40-46 | true exactly for the lower-cased words yes/true/t/y/1, false exactly for no/false/f/n/0, ArgumentTypeError exactly for every other value |
| Args.LowerIdempotent | train.py:41-43 | lower-casing twice equals lower-casing once |
| Args.Str2BoolIgnoresCase | train.py:40-46 | two values that agree after lower-casing parse to the same result |
| Args.Str2BoolOfPrintedBool | train.py:40-46 | parsing Python's `str(b)` ("True"/"False") returns b |
| Args.Str2BoolExamples | train.py:40-46 | "YES" is true, "N" is false, "2" and "" raise ArgumentTypeError |
| Coverage.SaltCount | dataset.py:251 | `mask.sum()` never exceeds the number of pixels |
| Coverage.FirstCoveringClass | dataset.py:252-254 | the loop returns the first i from the start on with 10·salt <= i·size, no earlier i qualifies, and it always returns one when salt <= size |
| Coverage.CoverageClass | dataset.py:250-254 | the class is at most 10, covers the salt fraction, and is the smallest class that does |
| Coverage.ClassZeroIffNoSalt | dataset.py:250-254 | class 0 exactly when the mask has no salt |
| Coverage.ClassTenIffAboveNinetyPercent | dataset.py:250-254 | class 10 exactly when 10·salt > 9·size |
| Coverage.BoundaryFallsIntoLowerClass | dataset.py:253 | a salt fraction of exactly i/10 lands in class i (`<=` picks the lower class) |
| Coverage.ClassMonotoneInSalt | dataset.py:250-254 | for masks of equal size, more salt never gives a lower class |
| Coverage.NearlyFullMaskIsClassTen | dataset.py:250-254 | a mask with 10 of its 11 pixels salt is in class 10 without being full |
| Samples.Classified | dataset.py:32 | the frame keeps the loaded ids in order; every row is unmarked and its class is that of its own mask |
| Samples.SelectRows | dataset.py:40-41 | `df[df.index.isin(ids)]` holds exactly the rows whose id is listed, and never more rows than the frame |
| Samples.Marked | dataset.py:43-44 | setting the pseudo_masked column keeps the ids in order and leaves every row carrying the flag |
| Samples.MarkedTwice | dataset.py:72-73 | setting the column again overrides the earlier value: only the last assignment counts |
| Samples.Reclassified | dataset.py:86-87 | recomputing the class column keeps the ids in order and leaves every row's class equal to the class of its own mask |
| Samples.ReclassifiedIdempotent | dataset.py:86-87 | recomputing the class column twice gives the same frame as once |
| Samples.ReclassifiedKeepsCurrentRows | dataset.py:86-87 | a frame whose classes already match their masks, as loaded, is left unchanged |
| Samples.UniqueIffNoneRepeated | dataset.py:110-112 | the ids are unique exactly when no row's `df.loc[id]` selects more than that row |
| Rebalance.FirstReduction | dataset.py:113-119 | the retry loop yields a reduction exactly when one of the two attempts lands in class 1; that reduction is one of the attempts and its mask is in class 1 |
| Rebalance.ReducedCopy | dataset.py:110-119 | a row gets a reduced copy exactly when its class is above 1 and an attempt lands in class 1; the copy keeps id, stale class and flag, with a class-1 mask |
| Rebalance.WithoutClassOne | dataset.py:124 | the drop keeps exactly the rows not in class 1 |
| Rebalance.CountClass | dataset.py:105 | `np.sum(df.coverage_class == c)` is at most the number of rows |
| Rebalance.TryReduce | dataset.py:113-119 | the `for _ in range(2)` loop with `break` returns the first attempt whose mask is in class 1, or none |
| Rebalance.ReplaceSamplesWithCc1 | dataset.py:103-130 | raises ValueError exactly when two rows share an id (`df.loc[id].coverage_class > 1` on line 112 is then a column whose truth value is ambiguous); otherwise the in-place patching of the working copy followed by the `isin` selection returns the input without its class-1 rows, then each row's reduced copy in frame order |
| Rebalance.RebalancedLength | dataset.py:103-130 | the result has n − (class-1 rows) + (reduced copies) rows |
| Rebalance.RebalanceKeepsAllButClassOne | dataset.py:123-125 | an input row is in the result exactly when it is not in class 1 |
| Rebalance.ListedCopyHasSource | dataset.py:116-121 | every appended row is the reduced copy of some input row |
| Rebalance.SourceCopyIsListed | dataset.py:116-121 | every input row that gets a reduced copy has that copy appended |
| Rebalance.ReducedCopyIsStaleDuplicate | dataset.py:112-125 | a reduced copy sits in the result beside its source row with the same id, still records the source's class (> 1), and its mask is in class 1 |
| Assembly.Classes | dataset.py:36 | the coverage class column handed to kfold_split has one entry per row |
| Assembly.OverlapIds | dataset.py:79 | the intersection list holds exactly the validation ids that are also training ids |
| Assembly.BuildTrainData | dataset.py:34-87 | the constructor's step-by-step reassignment of the two frames returns the assembly (or its IndexError, the ValueError of a repeated pseudo-labelled id, or the overlap error), and the two sets it returns share no id |
| Assembly.AssembledSetsDisjoint | dataset.py:79-81 | on return, no validation id is a training id |
| Assembly.AssembledFrames | dataset.py:75-87 | a successful assembly returns the fused training and validation frames with recomputed classes |
| Assembly.OverlapRaisesIff | dataset.py:79-81 | "Train and val set do overlap" is raised exactly when some fused validation id is a training id |
| Assembly.OverlapNonEmptyIff | dataset.py:79-80 | the intersection list is non-empty exactly when the id lists share an id |
| Assembly.FoldIndexOutOfRangeRaises | dataset.py:34-36 | a fold index outside the fold list raises IndexError |
| Assembly.AssembledClassesRecomputed | dataset.py:86-87 | every returned row's class is the class of its final mask |
| Assembly.PseudoFlagMarksOrigin | dataset.py:43-73 | unmarked rows are labelled rows with their own image and mask; marked rows carry the id of a pseudo-labelled row |
| Assembly.WithoutPseudoLabelsPlainSplit | dataset.py:34-44 | without pseudo labels the result is the labelled rows the chosen fold lists, none marked |
| Assembly.WithoutValSetEverythingTrains | dataset.py:37-70 | without a validation set the assembly raises only the ValueError of two pseudo-labelled rows sharing an id; otherwise the validation set is empty and the training set starts with every labelled row, in order |
| Assembly.PseudoValidationOnlyWhenExtended | dataset.py:54-77 | unless the validation set is extended, validation is on and the pseudo fold count is not 1, no validation row is pseudo-labelled |
| Assembly.PseudoFramesWithoutValidation | dataset.py:54-70 | with validation off or a pseudo fold count of 1, no pseudo-labelled row is set aside for validation, and the pseudo frames raise ValueError exactly when two pseudo-labelled rows share an id |
| Assembly.PseudoFramesRaiseIff | dataset.py:66-70 | once the pseudo split succeeds, the pseudo frames raise ValueError exactly when the training or the validation selection repeats an id, never when the pseudo-labelled ids are unique |
| Assembly.AssembledFromParts | dataset.py:75-87 | the training set is the labelled training frame followed by the pseudo-labelled one; the validation set is the labelled validation frame, followed by the pseudo-labelled one exactly when the set is extended; both with recomputed classes |
| Assembly.TestIds | dataset.py:138 | the test ids are exactly the depth ids that are not training ids, never more of them |
| Assembly.TestIdsOfConcat | dataset.py:138 | the selection keeps the order of depths.csv (it distributes over concatenation) |
| Assembly.TestIdsDisjointKeepsAll | dataset.py:138 | when no depth id is a training id, every depth id is a test id, in order |
| TrainSet.DatasetLen | dataset.py:154-155 | `int(scale · n)` truncated: for a non-negative scale, len·den <= num·n < (len+1)·den |
| TrainSet.GetItem | dataset.py:157-182 | raises exactly on an empty frame; otherwise it reads row `index % len(df)`, has_salt is 0.0 or 1.0 and 0.0 exactly when the stored class is 0, and without augmentation it returns the stored image and mask |
| TrainSet.GetItemPeriodic | dataset.py:158-161 | indices one frame length apart return the same item |
| TrainSet.ScaledSetServesEveryRow | dataset.py:154-161 | with a scale factor >= 1 the first len(df) indices read every row, each at its own position |
| TrainSet.HasSaltIffStoredMaskHasSalt | dataset.py:160-182 | on reclassified rows has_salt is 0 exactly when the stored mask has no salt |
| TrainSet.HasSaltIgnoresAugmentation | dataset.py:163-182 | augmentation never changes has_salt |
| Slots.NatToString | train.py:287 | the decimal digits of n, non-empty and without a leading zero |
| Slots.Strip | train.py:287 | `int()` strips surrounding white space: the result is no longer and neither starts nor ends with white space |
| Slots.SlotIndexOfSlotFileName | train.py:287 | `int(name.replace("model-", "").replace(".pth", ""))` reads back n from the file name written for slot n |
| Slots.StartingSlotIndex | train.py:284-288 | the start-up loop over the existing file names computes the start slot, or the ValueError of the first malformed name |
| Slots.StartingErrorPersists | train.py:284-288 | once a prefix of the names raises, the whole scan raises the same error |
| Slots.StartingSlotBounds | train.py:284-288 | the scan raises exactly when some name does not parse; otherwise the start slot is >= 0, exceeds every parsed index, and is 0 or one past some parsed index |
| Slots.StartingSlotIsFresh | train.py:284-288 | the start slot's file name is not among the existing files |
| Ensemble.MinKey | train.py:132-134 | `min(keys)` is a key and no key is lower |
| Ensemble.MaxKey | train.py:136 | `max(keys)` is a key and no key is higher |
| Ensemble.Remove | train.py:134 | `del d[key]` keeps exactly the entries with another key |
| Ensemble.Put | train.py:135 | `d[key] = model`: an existing key keeps its place and gets the new model, a new key is appended |
| Ensemble.Admission | train.py:132 | raises exactly when the dictionary is empty and not shorter than k (`min` of nothing); otherwise admits exactly when it is short or the lowest key is beaten |
| Ensemble.Evict | train.py:133-134 | a dictionary shorter than k is left as it is; a full one with distinct keys loses exactly its lowest key, one entry, and keeps distinct keys |
| Ensemble.Stored | train.py:132-135 | raises exactly when admission does; a rejected precision leaves the dictionary unchanged; an admitted one is stored with its model, and with distinct keys the keys become the old ones (less the lowest when full) plus the new one; the dictionary is never empty, so the `max` on line 136 never raises |
| Ensemble.PutStores | train.py:135 | after `d[key] = model` the key holds that model |
| Ensemble.Offer | train.py:131-137 | one pass of the loop body is one step of the selection |
| Ensemble.SelectEnsemble | train.py:117-144 | the loop over the candidates computes the selection of the specification |
| Ensemble.NonPositiveKRaises | train.py:132 | with k <= 0 the first candidate raises ValueError |
| Ensemble.SelectionBounds | train.py:117-144 | for k >= 1 the loop never raises, keeps at most k distinct keys, each with the model that scored it, and best_model is always the first candidate |
| Ensemble.DistinctScoresSelectTopK | train.py:131-135 | with distinct precisions the ensemble holds min(k, n) models, and every candidate left out scored below every one kept |
| Ensemble.EqualScoresOverwrite | train.py:135 | two candidates with equal precision and k = 2 give an ensemble of one, the later model |
| Ensemble.EqualScoreShrinksEnsemble | train.py:132-135 | with k = 2 and precisions a < b, b the full dictionary evicts a and then overwrites b, leaving an ensemble of one model |
| Ensemble.BestModelMissesBetterCandidate | train.py:136-137 | as written, with k = 1 and precisions 0.1 then 0.9, the ensemble is the second model while best_model stays the first |
| Ensemble.IntendedBestIsBest | train.py:136-137 | with the comparison made before storing, best_model is the first candidate with the highest precision, and the ensemble holds that precision |
| Ensemble.IntendedSelectSameEnsemble | train.py:132-137 | the corrected comparison changes best_model only: the same errors and the same ensemble as the loop as written |
| Epoch.PyCeilDiv | train.py:253 | `ceil(a / d)`: for d > 0, (q−1)·d < a <= q·d |
| Epoch.EpochIterations | train.py:253-255 | raises ZeroDivisionError exactly when batch_iters is 0; otherwise the fewest steps of batch_size·batch_iters samples that cover the set, capped by a positive max_epoch_iterations |
| Epoch.BatchSource.Next | train.py:344-347 | `next()` yields a batch exactly when one is left, and consumes it |
| Epoch.Accumulate | train.py:340-363 | batch_iter_count is min(batch_iters, batches left), and exactly that many batches are consumed |
| Epoch.EpochSteps | train.py:330-376 | an epoch raises ZeroDivisionError (a step with no batch, or 0 steps); otherwise it has epoch_iterations steps |
| Epoch.TrainEpoch | train.py:330-376 | the epoch's steps, their learning-rate positions and batch counts are those of the specification, and the batches left are those it leaves |
| Epoch.DrawsNonincreasing | train.py:341-363 | later steps never draw more batches than earlier ones |
| Epoch.SizedEpochNeverStarves | train.py:253-255 | over the ceil(N / batch_size) batches of a non-empty set, every step gets between 1 and batch_iters batches |
| Epoch.EmptyTrainingSetRaises | train.py:253-255 | an empty training set gives 0 steps, and the epoch raises ZeroDivisionError |
| Epoch.PositionsBoundedAndMonotone | train.py:333 | the schedule position never exceeds the cycle length and never decreases within an epoch |
| Run.EndOfEpoch | train.py:383-433 | the end-of-epoch updates compute the step of the specification |
| Run.TrainingRun | train.py:222-474 | main from the data loader on computes the run of the specification: the ValueError of a batch size that is not positive, the outcome, or the exception raised |
| Run.EpochFailureIgnoresSchedule | train.py:330-376 | whether an epoch raises does not depend on the schedule's position |
| RunFacts.CheckpointRules | train.py:383-394 | a slot file is written exactly when the precision beats the cycle best, model.pth exactly when it beats the global best, epoch_of_last_improval moves exactly then; the global best never decreases |
| RunFacts.RestartRule | train.py:397-433 | a cycle restarts exactly at its scheduled end with enough patience; the restart zeroes sgdr_iterations, scales the cycle length, schedules the next end, moves to the next slot with the cycle best cleared, counts the cycle and uses the count as decay exponent; otherwise only the bests change |
| RunFacts.SwaRule | train.py:398-412 | the SWA update happens only at a restart with SWA due, counts one more update (so 1/count never divides by zero), blends the slot just ended, and swa_model.pth is written exactly when the SWA precision beats its best |
| RunFacts.TrainInvariants | train.py:253-474 | over a whole run: epoch_of_last_improval is the first epoch with the best precision, the global best; the slot is the start slot plus the cycles; slot files are written in order from the start slot on; every SWA update blends a slot written earlier, the k-th with weight 1/k |
| RunFacts.NoExistingSlotOverwritten | train.py:284-288 | no slot file the run writes existed when it started |
| RunFacts.RunStops | train.py:318 | the run goes to epochs_to_train unless an early exit fires; it gives the conditions each exit leaves, and the trace only grows |
| RunFacts.TrainStops | train.py:468-474 | for a whole run: the no-improvement exit only with enough cycles and patience, the cycle-limit exit only with max_sgdr_cycles reached, and never more than max_sgdr_cycles cycles |
| RunFacts.PrefixRun | train.py:318-474 | the run cut short at epoch e agrees with the full run: when it exits early the full run has the same outcome, otherwise the full run continues from its state and trace |
| RunFacts.ExitAtFirstRule | train.py:318-474 | the run exits early at the end of epoch e exactly when the run cut short at e has not exited and a stopping rule holds at e; its outcome is then that epoch's state, events and rule |
| RunFacts.NoEarlierExit | train.py:318-474 | for every epoch before the one the run ends at, the run cut short there has not exited early |
| RunFacts.MaxCyclesBound | train.py:472-474 | with max_sgdr_cycles = m the run never completes more than m cycles |
| RunFacts.CycleLengthScaling | train.py:421 | `int(len · mult)`: a multiplier of 1 keeps the length, a larger one never shortens it, one in [0, 1] never lengthens it |
| RunFacts.CycleEndsOnSchedule | train.py:397-427 | with cycle-end patience 0, a cycle ends at its scheduled end whatever the precisions, and writes only its own slot file |
| RunFacts.FiveEpochCycle | train.py:276-474 | a five-epoch run with a five-epoch cycle restarts once, at epoch 4, and writes exactly its start slot |

## Left out

- Tensors, the network, losses, precision metrics, evaluation and the optimizer
  are outside the model; each epoch's validation precision and the SWA model's
  precision are inputs.
- The learning-rate values (lr_min/lr_max decays, cosine annealing) are left
  out; the model keeps the schedule position and the decay exponent.
- The SWA blend `moving_average` and `bn_update` are left out; the model
  records which slot is blended and with which count.
- Floating point is left out: precisions are exact reals, NaN is not
  modelled, and command-line floats are exact fractions. So `epoch_iterations`
  and `int(len · mult)` are computed exactly, without float rounding.
- File I/O, the copy of the submission file, `create_model` and
  `torch.save`/`torch.load` are left out; checkpoint writes are events in a
  trace. The glob order of the slot files does not matter, since the scan
  takes a maximum.
- Logging, `print` and the summary writers are left out.
- `kfold_split`, `reduce_salt_coverage`, the augmentation and the run-length
  decoding of the submission are left out as function parameters (oracles).
  The reduction oracle is keyed by the row, so the `sorted(df.index)` visiting
  order of `replace_samples_with_cc1` has no effect.
- Resizing, upsampling, normalisation, mask weights and their pseudo-label
  scaling in `__getitem__` are left out.
- Args.Lower: models ASCII lower-casing only, not Python's Unicode case
  mapping.
- Slots.Strip: strips ASCII white space only. `int()` also strips Unicode
  white space and accepts underscores and non-ASCII digits; those forms are
  not modelled.
- Coverage.CoverageClass: masks are non-empty. An empty mask makes the
  source's coverage NaN and the function returns None; every mask of the data
  set is a fixed-size image.
- Ensemble.SelectEnsemble: candidates are known by their position in the list;
  the models themselves and the final re-evaluation loop are left out.
- The SWA candidate `swa_model.pth` in `load_ensemble_model` is one more
  element of the candidate list; the file-existence test is left out.
- Which exception a run raises is modelled, its message is not.
- Rebalance.ReplaceSamplesWithCc1: the source raises at the first row whose id
  is repeated, after patching earlier rows of its local working copy; the model
  checks the ids before the loop. The outcome is the same, since that copy is
  never returned.
- Epoch.EpochIterations: takes a positive batch size. The data loader built
  before it raises ValueError for any other value, and Run.Train models that
  error.
- Ensemble.IntendedBestIsBest: nothing else in the model consumes best_model,
  so the corrected selection stands beside the loop as written rather than
  replacing it in a caller.

## Findings

| source | as written | input that shows it | evidently intended | confidence | as-written member | corrected member |
|---|---|---|---|---|---|---|
| train.py:136 | best_model is compared against `max(score_to_model.keys())` after the candidate's precision has been stored, so the test `precision > max(keys)` can never succeed and best_model is always the first candidate | k = 1, precisions 0.1 then 0.9: the ensemble ends as the second model, best_model stays the first, which the ensemble no longer holds | best_model is the first candidate with the highest precision | not executed | Ensemble.BestModelMissesBetterCandidate | Ensemble.IntendedBestIsBest |
