/** Assembly of the training and validation frames (dataset.py,
    TrainData.__init__) and the selection of the test ids (TestData). */
module Assembly {

  import opened Common
  import opened Coverage
  import opened Samples
  import opened Rebalance

  /** kfold_split as an oracle: for a fold count, the ids to split and their
      coverage classes, the list of (train ids, validation ids) pairs.  The
      source passes the ids sorted, a list that the set of ids determines; the
      classes are passed in frame order. */
  type KFold = (int, set<Id>, seq<nat>) -> seq<(seq<Id>, seq<Id>)>

  /** The pseudo-labelling options, present when pseudo labelling is enabled,
      with the rows decoded from the submission file. */
  datatype PseudoLabels = PseudoLabels(rows: seq<RawSample>, testFoldCount: int, testFoldIndex: int, extendValSet: bool)

  datatype TrainData = TrainData(trainSet: seq<Sample>, valSet: seq<Sample>)

  function Classes(rows: seq<Sample>): (cs: seq<nat>)
    ensures |cs| == |rows|
  {
    seq(|rows|, k requires 0 <= k < |rows| => rows[k].coverageClass)
  }

  /** The (train ids, validation ids) of the labelled rows: the fold_index-th
      pair of the k-fold split, or every id and no validation ids. */
  function RealSplit(rows: seq<Sample>, foldCount: int, foldIndex: int, useValSet: bool, kfold: KFold)
    : Result<(seq<Id>, seq<Id>)>
  {
    if useValSet then PyIndex(kfold(foldCount, IdSet(Ids(rows)), Classes(rows)), foldIndex)
    else Ok((Ids(rows), []))
  }

  /** The same split of the pseudo-labelled rows, with its own fold count and
      index; a fold count of 1 sends every row to training. */
  function PseudoSplit(rows: seq<Sample>, pl: PseudoLabels, useValSet: bool, kfold: KFold)
    : Result<(seq<Id>, seq<Id>)>
  {
    if useValSet && pl.testFoldCount != 1 then
      PyIndex(kfold(pl.testFoldCount, IdSet(Ids(rows)), Classes(rows)), pl.testFoldIndex)
    else Ok((Ids(rows), []))
  }

  /** The labelled training and validation frames, marked as not
      pseudo-labelled. */
  function LabelledFrames(labelled: seq<RawSample>, foldCount: int, foldIndex: int, useValSet: bool, kfold: KFold)
    : Result<(seq<Sample>, seq<Sample>)>
  {
    var rows := Classified(labelled);
    match RealSplit(rows, foldCount, foldIndex, useValSet, kfold)
    case Err(e) => Err(e)
    case Ok(split) => Ok((Marked(SelectRows(rows, IdSet(split.0)), false), Marked(SelectRows(rows, IdSet(split.1)), false)))
  }

  /** The pseudo-labelled training and validation frames, each rebalanced by
      replace_samples_with_cc1 and marked as pseudo-labelled. */
  function PseudoFrames(pl: PseudoLabels, useValSet: bool, kfold: KFold, reduce: Reducer)
    : Result<(seq<Sample>, seq<Sample>)>
  {
    var prows := Classified(pl.rows);
    match PseudoSplit(prows, pl, useValSet, kfold)
    case Err(e) => Err(e)
    case Ok(psplit) =>
      match Replaced(SelectRows(prows, IdSet(psplit.0)), reduce)
      case Err(e) => Err(e)
      case Ok(ptrain) =>
        match Replaced(SelectRows(prows, IdSet(psplit.1)), reduce)
        case Err(e) => Err(e)
        case Ok(pval) => Ok((Marked(ptrain, true), Marked(pval, true)))
  }

  /** The training and validation frames before the overlap check: the
      pseudo-labelled training rows are appended to the training frame, the
      pseudo-labelled validation rows to the validation frame only on request. */
  function Fused(labelled: seq<RawSample>, foldCount: int, foldIndex: int, useValSet: bool,
                 pseudo: Option<PseudoLabels>, kfold: KFold, reduce: Reducer)
    : Result<(seq<Sample>, seq<Sample>)>
  {
    match LabelledFrames(labelled, foldCount, foldIndex, useValSet, kfold)
    case Err(e) => Err(e)
    case Ok(frames) =>
      match pseudo
      case None => Ok(frames)
      case Some(pl) =>
        match PseudoFrames(pl, useValSet, kfold, reduce)
        case Err(e) => Err(e)
        case Ok(pframes) =>
          Ok((frames.0 + pframes.0, if pl.extendValSet then frames.1 + pframes.1 else frames.1))
  }

  /** `[vid for vid in val.index if vid in train.index]`. */
  function OverlapIds(val: seq<Sample>, train: seq<Sample>): (r: seq<Id>)
    ensures forall x :: x in r <==> x in Ids(val) && x in Ids(train)
  {
    if val == [] then []
    else
      var init := OverlapIds(val[..|val| - 1], train);
      var last := val[|val| - 1].id;
      assert Ids(val) == Ids(val[..|val| - 1]) + [last];
      if last in Ids(train) then init + [last] else init
  }

  /** TrainData.__init__: the frames, or the exception it raises. */
  function Assemble(labelled: seq<RawSample>, foldCount: int, foldIndex: int, useValSet: bool,
                    pseudo: Option<PseudoLabels>, kfold: KFold, reduce: Reducer)
    : Result<TrainData>
  {
    match Fused(labelled, foldCount, foldIndex, useValSet, pseudo, kfold, reduce)
    case Err(e) => Err(e)
    case Ok(frames) => Finish(frames)
  }

  /** The last part of the constructor: the overlap check, then the coverage
      classes recomputed on both frames. */
  function Finish(frames: (seq<Sample>, seq<Sample>)): Result<TrainData> {
    if |OverlapIds(frames.1, frames.0)| > 0 then Err(OverlapError)
    else Ok(TrainData(Reclassified(frames.0), Reclassified(frames.1)))
  }

  lemma FinishedFrames(frames: (seq<Sample>, seq<Sample>))
    requires Finish(frames).Ok?
    ensures Finish(frames).value.trainSet + Finish(frames).value.valSet == Reclassified(frames.0 + frames.1)
    ensures Finish(frames).value.valSet == Reclassified(frames.1)
  {
    assert Reclassified(frames.0) + Reclassified(frames.1) == Reclassified(frames.0 + frames.1);
  }

  /** The source's constructor, one reassignment of the two frames at a time. */
  method BuildTrainData(labelled: seq<RawSample>, foldCount: int, foldIndex: int, useValSet: bool,
                        pseudo: Option<PseudoLabels>, kfold: KFold, reduce: Reducer)
    returns (r: Result<TrainData>)
    ensures r == Assemble(labelled, foldCount, foldIndex, useValSet, pseudo, kfold, reduce)
    ensures r.Ok? ==> forall x :: x in Ids(r.value.valSet) ==> x !in Ids(r.value.trainSet)
  {
    var rows := Classified(labelled);
    var trainIds, valIds;
    if useValSet {
      var folds := kfold(foldCount, IdSet(Ids(rows)), Classes(rows));
      var pick := PyIndex(folds, foldIndex);
      if pick.Err? {
        return Err(pick.error);
      }
      trainIds, valIds := pick.value.0, pick.value.1;
    } else {
      trainIds, valIds := Ids(rows), [];
    }
    var trainSet := SelectRows(rows, IdSet(trainIds));
    var valSet := SelectRows(rows, IdSet(valIds));
    trainSet := Marked(trainSet, false);
    valSet := Marked(valSet, false);

    if pseudo.Some? {
      var pl := pseudo.value;
      var prows := Classified(pl.rows);
      var ptrainIds, pvalIds;
      if useValSet {
        if pl.testFoldCount == 1 {
          ptrainIds, pvalIds := Ids(prows), [];
        } else {
          var pick := PyIndex(kfold(pl.testFoldCount, IdSet(Ids(prows)), Classes(prows)), pl.testFoldIndex);
          if pick.Err? {
            return Err(pick.error);
          }
          ptrainIds, pvalIds := pick.value.0, pick.value.1;
        }
      } else {
        ptrainIds, pvalIds := Ids(prows), [];
      }
      var ptrain := SelectRows(prows, IdSet(ptrainIds));
      var pval := SelectRows(prows, IdSet(pvalIds));
      var balanced := ReplaceSamplesWithCc1(ptrain, reduce);
      if balanced.Err? {
        return Err(balanced.error);
      }
      ptrain := balanced.value;
      balanced := ReplaceSamplesWithCc1(pval, reduce);
      if balanced.Err? {
        return Err(balanced.error);
      }
      pval := balanced.value;
      ptrain := Marked(ptrain, true);
      pval := Marked(pval, true);
      trainSet := trainSet + ptrain;
      if pl.extendValSet {
        valSet := valSet + pval;
      }
    }

    var overlap := OverlapIds(valSet, trainSet);
    if |overlap| > 0 {
      return Err(OverlapError);
    }
    AssembledSetsDisjoint(labelled, foldCount, foldIndex, useValSet, pseudo, kfold, reduce);
    trainSet := Reclassified(trainSet);
    valSet := Reclassified(valSet);
    r := Ok(TrainData(trainSet, valSet));
  }

  lemma {:induction false} SelectKeepsUnique(rows: seq<Sample>, ids: set<Id>)
    requires UniqueIds(rows)
    ensures UniqueIds(SelectRows(rows, ids))
  {
    if rows != [] {
      var l := |rows| - 1;
      SelectKeepsUnique(rows[..l], ids);
      var init := SelectRows(rows[..l], ids);
      forall r | r in init ensures r.id != rows[l].id {
        var k :| 0 <= k < l && rows[..l][k] == r;
      }
    }
  }

  lemma IdsOfReclassified(rows: seq<Sample>)
    ensures Ids(Reclassified(rows)) == Ids(rows)
  {
  }

  /** On return the training and validation sets share no id. */
  lemma AssembledSetsDisjoint(labelled: seq<RawSample>, foldCount: int, foldIndex: int, useValSet: bool,
                              pseudo: Option<PseudoLabels>, kfold: KFold, reduce: Reducer)
    ensures var r := Assemble(labelled, foldCount, foldIndex, useValSet, pseudo, kfold, reduce);
      r.Ok? ==> forall x :: x in Ids(r.value.valSet) ==> x !in Ids(r.value.trainSet)
  {
    var r := Assemble(labelled, foldCount, foldIndex, useValSet, pseudo, kfold, reduce);
    if r.Ok? {
      var frames := Fused(labelled, foldCount, foldIndex, useValSet, pseudo, kfold, reduce).value;
      IdsOfReclassified(frames.0);
      IdsOfReclassified(frames.1);
    }
  }

  /** What an assembly that succeeds returns: the fused frames with their
      classes recomputed. */
  lemma AssembledFrames(labelled: seq<RawSample>, foldCount: int, foldIndex: int, useValSet: bool,
                        pseudo: Option<PseudoLabels>, kfold: KFold, reduce: Reducer)
    requires Assemble(labelled, foldCount, foldIndex, useValSet, pseudo, kfold, reduce).Ok?
    ensures var f := Fused(labelled, foldCount, foldIndex, useValSet, pseudo, kfold, reduce);
      var r := Assemble(labelled, foldCount, foldIndex, useValSet, pseudo, kfold, reduce).value;
      && f.Ok?
      && r.trainSet + r.valSet == Reclassified(f.value.0 + f.value.1)
      && r.valSet == Reclassified(f.value.1)
  {
    FinishedFrames(Fused(labelled, foldCount, foldIndex, useValSet, pseudo, kfold, reduce).value);
  }

  /** The assembly raises the overlap error exactly when, after fusion, some
      validation id is also a training id. */
  lemma OverlapRaisesIff(labelled: seq<RawSample>, foldCount: int, foldIndex: int, useValSet: bool,
                         pseudo: Option<PseudoLabels>, kfold: KFold, reduce: Reducer)
    requires Fused(labelled, foldCount, foldIndex, useValSet, pseudo, kfold, reduce).Ok?
    ensures var frames := Fused(labelled, foldCount, foldIndex, useValSet, pseudo, kfold, reduce).value;
      Assemble(labelled, foldCount, foldIndex, useValSet, pseudo, kfold, reduce) == Err(OverlapError)
      <==> exists x :: x in Ids(frames.1) && x in Ids(frames.0)
  {
    var frames := Fused(labelled, foldCount, foldIndex, useValSet, pseudo, kfold, reduce).value;
    OverlapNonEmptyIff(frames.1, frames.0);
  }

  lemma OverlapNonEmptyIff(val: seq<Sample>, train: seq<Sample>)
    ensures |OverlapIds(val, train)| > 0 <==> exists x :: x in Ids(val) && x in Ids(train)
  {
    var o := OverlapIds(val, train);
    if exists x :: x in Ids(val) && x in Ids(train) {
      var x :| x in Ids(val) && x in Ids(train);
      assert x in o;
    } else if |o| > 0 {
      assert o[0] in o;
    }
  }

  /** A fold index outside the list of folds raises IndexError. */
  lemma FoldIndexOutOfRangeRaises(labelled: seq<RawSample>, foldCount: int, foldIndex: int,
                                  pseudo: Option<PseudoLabels>, kfold: KFold, reduce: Reducer)
    requires var rows := Classified(labelled);
      var folds := kfold(foldCount, IdSet(Ids(rows)), Classes(rows));
      !(-|folds| <= foldIndex < |folds|)
    ensures Assemble(labelled, foldCount, foldIndex, true, pseudo, kfold, reduce) == Err(IndexError)
  {
  }

  /** Every row of the result carries the coverage class of its final mask. */
  lemma AssembledClassesRecomputed(labelled: seq<RawSample>, foldCount: int, foldIndex: int, useValSet: bool,
                                   pseudo: Option<PseudoLabels>, kfold: KFold, reduce: Reducer, s: Sample)
    requires var r := Assemble(labelled, foldCount, foldIndex, useValSet, pseudo, kfold, reduce);
      r.Ok? && s in r.value.trainSet + r.value.valSet
    ensures s.coverageClass == CoverageClass(s.mask)
  {
    AssembledFrames(labelled, foldCount, foldIndex, useValSet, pseudo, kfold, reduce);
    var frames := Fused(labelled, foldCount, foldIndex, useValSet, pseudo, kfold, reduce).value;
    var k :| 0 <= k < |frames.0 + frames.1| && Reclassified(frames.0 + frames.1)[k] == s;
  }

  predicate HasLabelledSource(s: Sample, labelled: seq<RawSample>) {
    exists j :: 0 <= j < |labelled| && labelled[j].id == s.id && labelled[j].image == s.image && labelled[j].mask == s.mask
  }

  predicate HasPseudoSource(s: Sample, pseudo: Option<PseudoLabels>) {
    pseudo.Some? && exists j :: 0 <= j < |pseudo.value.rows| && pseudo.value.rows[j].id == s.id
  }

  /** The pseudo_masked flag tells where a row came from: unmarked rows are
      labelled rows with their own image and mask, marked rows carry the id of a
      pseudo-labelled row. */
  lemma PseudoFlagMarksOrigin(labelled: seq<RawSample>, foldCount: int, foldIndex: int, useValSet: bool,
                              pseudo: Option<PseudoLabels>, kfold: KFold, reduce: Reducer, s: Sample)
    requires var r := Assemble(labelled, foldCount, foldIndex, useValSet, pseudo, kfold, reduce);
      r.Ok? && s in r.value.trainSet + r.value.valSet
    ensures !s.pseudoMasked ==> HasLabelledSource(s, labelled)
    ensures s.pseudoMasked ==> HasPseudoSource(s, pseudo)
  {
    AssembledFrames(labelled, foldCount, foldIndex, useValSet, pseudo, kfold, reduce);
    var frames := Fused(labelled, foldCount, foldIndex, useValSet, pseudo, kfold, reduce).value;
    var t := ReclassifiedSource(frames.0 + frames.1, s);
    FusedRowsOrigin(labelled, foldCount, foldIndex, useValSet, pseudo, kfold, reduce, t);
  }

  lemma FusedRowsOrigin(labelled: seq<RawSample>, foldCount: int, foldIndex: int, useValSet: bool,
                        pseudo: Option<PseudoLabels>, kfold: KFold, reduce: Reducer, t: Sample)
    requires var f := Fused(labelled, foldCount, foldIndex, useValSet, pseudo, kfold, reduce);
      f.Ok? && t in f.value.0 + f.value.1
    ensures !t.pseudoMasked ==> HasLabelledSource(t, labelled)
    ensures t.pseudoMasked ==> HasPseudoSource(t, pseudo)
  {
    var frames := LabelledFrames(labelled, foldCount, foldIndex, useValSet, kfold).value;
    LabelledFramesOrigin(labelled, foldCount, foldIndex, useValSet, kfold);
    if pseudo.Some? {
      var pframes := PseudoFrames(pseudo.value, useValSet, kfold, reduce).value;
      PseudoFramesOrigin(pseudo.value, useValSet, kfold, reduce);
      assert t in frames.0 + frames.1 || t in pframes.0 + pframes.1;
    }
  }

  lemma LabelledFramesOrigin(labelled: seq<RawSample>, foldCount: int, foldIndex: int, useValSet: bool, kfold: KFold)
    requires LabelledFrames(labelled, foldCount, foldIndex, useValSet, kfold).Ok?
    ensures var frames := LabelledFrames(labelled, foldCount, foldIndex, useValSet, kfold).value;
      forall t :: t in frames.0 + frames.1 ==> !t.pseudoMasked && HasLabelledSource(t, labelled)
  {
    var split := RealSplit(Classified(labelled), foldCount, foldIndex, useValSet, kfold).value;
    MarkedLabelledRows(labelled, IdSet(split.0));
    MarkedLabelledRows(labelled, IdSet(split.1));
  }

  lemma PseudoFramesOrigin(pl: PseudoLabels, useValSet: bool, kfold: KFold, reduce: Reducer)
    requires PseudoFrames(pl, useValSet, kfold, reduce).Ok?
    ensures var frames := PseudoFrames(pl, useValSet, kfold, reduce).value;
      forall t :: t in frames.0 + frames.1 ==> t.pseudoMasked && HasPseudoSource(t, Some(pl))
  {
    var psplit := PseudoSplit(Classified(pl.rows), pl, useValSet, kfold).value;
    MarkedPseudoRows(pl.rows, IdSet(psplit.0), reduce);
    MarkedPseudoRows(pl.rows, IdSet(psplit.1), reduce);
  }

  lemma ReclassifiedSource(rows: seq<Sample>, s: Sample) returns (t: Sample)
    requires s in Reclassified(rows)
    ensures t in rows && t.id == s.id && t.image == s.image && t.mask == s.mask && t.pseudoMasked == s.pseudoMasked
  {
    var k :| 0 <= k < |rows| && Reclassified(rows)[k] == s;
    t := rows[k];
  }

  lemma MarkedLabelledRows(labelled: seq<RawSample>, ids: set<Id>)
    ensures forall t :: t in Marked(SelectRows(Classified(labelled), ids), false) ==>
      !t.pseudoMasked && HasLabelledSource(t, labelled)
  {
    var rows := Classified(labelled);
    var selected := SelectRows(rows, ids);
    forall t | t in Marked(selected, false) ensures !t.pseudoMasked && HasLabelledSource(t, labelled) {
      var k :| 0 <= k < |selected| && Marked(selected, false)[k] == t;
      assert selected[k] in rows;
      var j :| 0 <= j < |rows| && rows[j] == selected[k];
      assert labelled[j].id == t.id && labelled[j].image == t.image && labelled[j].mask == t.mask;
    }
  }

  lemma MarkedPseudoRows(raw: seq<RawSample>, ids: set<Id>, reduce: Reducer)
    ensures forall t :: t in Marked(Rebalanced(SelectRows(Classified(raw), ids), reduce), true) ==>
      t.pseudoMasked && exists j :: 0 <= j < |raw| && raw[j].id == t.id
  {
    var rows := Classified(raw);
    var selected := SelectRows(rows, ids);
    var balanced := Rebalanced(selected, reduce);
    forall t | t in Marked(balanced, true) ensures t.pseudoMasked && exists j :: 0 <= j < |raw| && raw[j].id == t.id {
      var k :| 0 <= k < |balanced| && Marked(balanced, true)[k] == t;
      var i := RebalancedRowSource(selected, reduce, k);
      assert selected[i] in rows;
      var j :| 0 <= j < |rows| && rows[j] == selected[i];
      assert raw[j].id == t.id;
    }
  }

  /** Every row of a rebalanced frame carries the id of an input row. */
  lemma RebalancedRowSource(rows: seq<Sample>, reduce: Reducer, k: nat) returns (i: nat)
    requires k < |Rebalanced(rows, reduce)|
    ensures i < |rows| && rows[i].id == Rebalanced(rows, reduce)[k].id
  {
    var kept := WithoutClassOne(rows);
    var s := Rebalanced(rows, reduce)[k];
    if k < |kept| {
      assert s in kept;
      i :| 0 <= i < |rows| && rows[i] == s;
    } else {
      assert s in ReducedCopies(rows, reduce);
      i := ListedCopyHasSource(rows, reduce, s);
    }
  }

  lemma {:induction false} SelectAllRows(rows: seq<Sample>)
    ensures SelectRows(rows, IdSet(Ids(rows))) == rows
  {
    if rows != [] {
      var l := |rows| - 1;
      SelectAllRows(rows[..l]);
      SelectRowsGrowIds(rows[..l], IdSet(Ids(rows[..l])), IdSet(Ids(rows)));
      assert rows == rows[..l] + [rows[l]];
    }
  }

  /** Adding ids that no row carries selects nothing more. */
  lemma {:induction false} SelectRowsGrowIds(rows: seq<Sample>, ids: set<Id>, more: set<Id>)
    requires ids <= more
    requires forall k :: 0 <= k < |rows| ==> (rows[k].id in more <==> rows[k].id in ids)
    ensures SelectRows(rows, more) == SelectRows(rows, ids)
  {
    if rows != [] {
      SelectRowsGrowIds(rows[..|rows| - 1], ids, more);
    }
  }

  lemma SelectNoIds(rows: seq<Sample>)
    ensures SelectRows(rows, {}) == []
  {
    var s := SelectRows(rows, {});
  }

  /** Marking unmarked classified rows as unmarked and recomputing their
      classes changes nothing. */
  lemma ClassifiedRowsUnchanged(selected: seq<Sample>, rows: seq<Sample>)
    requires forall t :: t in selected ==> t in rows
    requires forall k :: 0 <= k < |rows| ==> !rows[k].pseudoMasked && rows[k].coverageClass == CoverageClass(rows[k].mask)
    ensures Reclassified(Marked(selected, false)) == selected
  {
    forall k | 0 <= k < |selected| ensures Reclassified(Marked(selected, false))[k] == selected[k] {
      assert selected[k] in rows;
    }
  }

  /** Without pseudo labels the result is the plain split: the labelled rows
      whose id the chosen fold lists, none of them marked as pseudo-labelled. */
  lemma WithoutPseudoLabelsPlainSplit(labelled: seq<RawSample>, foldCount: int, foldIndex: int, useValSet: bool,
                                      kfold: KFold, reduce: Reducer)
    ensures var r := Assemble(labelled, foldCount, foldIndex, useValSet, None, kfold, reduce);
      var rows := Classified(labelled);
      var split := RealSplit(rows, foldCount, foldIndex, useValSet, kfold);
      r.Ok? ==>
        && r.value.trainSet == SelectRows(rows, IdSet(split.value.0))
        && r.value.valSet == SelectRows(rows, IdSet(split.value.1))
        && forall s :: s in r.value.trainSet + r.value.valSet ==> !s.pseudoMasked
  {
    var rows := Classified(labelled);
    var split := RealSplit(rows, foldCount, foldIndex, useValSet, kfold);
    if split.Ok? {
      ClassifiedRowsUnchanged(SelectRows(rows, IdSet(split.value.0)), rows);
      ClassifiedRowsUnchanged(SelectRows(rows, IdSet(split.value.1)), rows);
    }
  }

  /** Without a validation set the assembly fails only when two
      pseudo-labelled rows share an id; otherwise the validation set is empty
      and the training set starts with every labelled row. */
  lemma WithoutValSetEverythingTrains(labelled: seq<RawSample>, foldCount: int, foldIndex: int,
                                      pseudo: Option<PseudoLabels>, kfold: KFold, reduce: Reducer)
    ensures var r := Assemble(labelled, foldCount, foldIndex, false, pseudo, kfold, reduce);
      && (r.Ok? <==> pseudo.None? || UniqueIds(Classified(pseudo.value.rows)))
      && (r.Err? ==> r.error == ValueError)
    ensures var r := Assemble(labelled, foldCount, foldIndex, false, pseudo, kfold, reduce);
      r.Ok? ==>
      && r.value.valSet == []
      && |labelled| <= |r.value.trainSet|
      && r.value.trainSet[..|labelled|] == Classified(labelled)
  {
    var rows := Classified(labelled);
    LabelledFramesWithoutValSet(labelled, foldCount, foldIndex, kfold);
    if pseudo.Some? {
      PseudoFramesWithoutValidation(pseudo.value, false, kfold, reduce);
    }
    if Fused(labelled, foldCount, foldIndex, false, pseudo, kfold, reduce).Err? {
      return;
    }
    var fused := Fused(labelled, foldCount, foldIndex, false, pseudo, kfold, reduce).value;
    FusedValidationIsLabelled(labelled, foldCount, foldIndex, false, pseudo, kfold, reduce);
    assert fused.0[..|rows|] == rows;
    assert |OverlapIds([], fused.0)| == 0;
    ClassifiedRowsUnchanged(rows, rows);
    ReclassifiedPrefix(fused.0, |rows|);
  }

  lemma ReclassifiedPrefix(rows: seq<Sample>, n: nat)
    requires n <= |rows|
    ensures Reclassified(rows)[..n] == Reclassified(rows[..n])
  {
  }

  lemma LabelledFramesWithoutValSet(labelled: seq<RawSample>, foldCount: int, foldIndex: int, kfold: KFold)
    ensures LabelledFrames(labelled, foldCount, foldIndex, false, kfold) == Ok((Classified(labelled), []))
  {
    var rows := Classified(labelled);
    SelectAllRows(rows);
    assert IdSet([]) == {};
    SelectNoIds(rows);
    assert Marked(rows, false) == rows;
  }

  /** Pseudo-labelled rows reach the validation set only when the option to
      extend it is set, validation is on and the pseudo fold count is not 1. */
  lemma PseudoValidationOnlyWhenExtended(labelled: seq<RawSample>, foldCount: int, foldIndex: int, useValSet: bool,
                                         pseudo: Option<PseudoLabels>, kfold: KFold, reduce: Reducer, s: Sample)
    requires pseudo.None? || !pseudo.value.extendValSet || !useValSet || pseudo.value.testFoldCount == 1
    requires var r := Assemble(labelled, foldCount, foldIndex, useValSet, pseudo, kfold, reduce);
      r.Ok? && s in r.value.valSet
    ensures !s.pseudoMasked
  {
    AssembledFrames(labelled, foldCount, foldIndex, useValSet, pseudo, kfold, reduce);
    FusedValidationIsLabelled(labelled, foldCount, foldIndex, useValSet, pseudo, kfold, reduce);
    var frames := LabelledFrames(labelled, foldCount, foldIndex, useValSet, kfold).value;
    LabelledFramesOrigin(labelled, foldCount, foldIndex, useValSet, kfold);
    var t := ReclassifiedSource(frames.1, s);
    assert t in frames.0 + frames.1;
  }

  lemma FusedValidationIsLabelled(labelled: seq<RawSample>, foldCount: int, foldIndex: int, useValSet: bool,
                                  pseudo: Option<PseudoLabels>, kfold: KFold, reduce: Reducer)
    requires pseudo.None? || !pseudo.value.extendValSet || !useValSet || pseudo.value.testFoldCount == 1
    requires Fused(labelled, foldCount, foldIndex, useValSet, pseudo, kfold, reduce).Ok?
    ensures LabelledFrames(labelled, foldCount, foldIndex, useValSet, kfold).Ok?
    ensures Fused(labelled, foldCount, foldIndex, useValSet, pseudo, kfold, reduce).value.1
      == LabelledFrames(labelled, foldCount, foldIndex, useValSet, kfold).value.1
  {
    if pseudo.Some? && pseudo.value.extendValSet {
      PseudoFramesWithoutValidation(pseudo.value, useValSet, kfold, reduce);
    }
  }

  /** With validation off or a pseudo fold count of 1, no pseudo-labelled row
      is set aside for validation, and the pseudo frames fail only when two
      pseudo-labelled rows share an id. */
  lemma PseudoFramesWithoutValidation(pl: PseudoLabels, useValSet: bool, kfold: KFold, reduce: Reducer)
    requires !useValSet || pl.testFoldCount == 1
    ensures var p := PseudoFrames(pl, useValSet, kfold, reduce);
      && (p.Ok? <==> UniqueIds(Classified(pl.rows)))
      && (p.Err? ==> p.error == ValueError)
      && (p.Ok? ==> p.value.1 == [])
  {
    var prows := Classified(pl.rows);
    assert PseudoSplit(prows, pl, useValSet, kfold) == Ok((Ids(prows), []));
    SelectAllRows(prows);
    assert IdSet([]) == {};
    SelectNoIds(prows);
    assert Replaced([], reduce) == Ok([]) by {
      assert Rebalanced([], reduce) == [];
    }
    if UniqueIds(prows) {
      assert PseudoFrames(pl, useValSet, kfold, reduce) == Ok((Marked(Rebalanced(prows, reduce), true), Marked([], true)));
    } else {
      assert PseudoFrames(pl, useValSet, kfold, reduce) == Err(ValueError);
    }
  }

  /** Once the pseudo-labelled split succeeds, the pseudo frames raise the
      ValueError of replace_samples_with_cc1 exactly when one of the two
      selections repeats an id, which never happens when the pseudo-labelled
      rows have distinct ids. */
  lemma PseudoFramesRaiseIff(pl: PseudoLabels, useValSet: bool, kfold: KFold, reduce: Reducer)
    requires PseudoSplit(Classified(pl.rows), pl, useValSet, kfold).Ok?
    ensures var prows := Classified(pl.rows);
      var psplit := PseudoSplit(prows, pl, useValSet, kfold).value;
      var p := PseudoFrames(pl, useValSet, kfold, reduce);
      && (p.Err? ==> p.error == ValueError)
      && (p.Err? <==> !UniqueIds(SelectRows(prows, IdSet(psplit.0))) || !UniqueIds(SelectRows(prows, IdSet(psplit.1))))
    ensures UniqueIds(Classified(pl.rows)) ==> PseudoFrames(pl, useValSet, kfold, reduce).Ok?
  {
    var prows := Classified(pl.rows);
    var psplit := PseudoSplit(prows, pl, useValSet, kfold).value;
    if UniqueIds(prows) {
      SelectKeepsUnique(prows, IdSet(psplit.0));
      SelectKeepsUnique(prows, IdSet(psplit.1));
    }
  }

  /** The frames TrainData keeps are made of the labelled and pseudo-labelled
      parts: the training set is the labelled training frame followed by the
      pseudo-labelled training frame, and the validation set takes the
      pseudo-labelled validation frame only when asked to extend it. */
  lemma AssembledFromParts(labelled: seq<RawSample>, foldCount: int, foldIndex: int, useValSet: bool,
                           pseudo: Option<PseudoLabels>, kfold: KFold, reduce: Reducer)
    requires Assemble(labelled, foldCount, foldIndex, useValSet, pseudo, kfold, reduce).Ok?
    ensures var frames := LabelledFrames(labelled, foldCount, foldIndex, useValSet, kfold);
      var r := Assemble(labelled, foldCount, foldIndex, useValSet, pseudo, kfold, reduce).value;
      && frames.Ok?
      && (pseudo.None? ==>
            r.trainSet == Reclassified(frames.value.0) && r.valSet == Reclassified(frames.value.1))
      && (pseudo.Some? ==>
            var p := PseudoFrames(pseudo.value, useValSet, kfold, reduce);
            && p.Ok?
            && r.trainSet == Reclassified(frames.value.0 + p.value.0)
            && r.valSet == Reclassified(if pseudo.value.extendValSet then frames.value.1 + p.value.1 else frames.value.1))
  {
  }

  /** TestData: the ids of depths.csv that are not training ids, in the order
      of depths.csv. */
  function TestIds(depthIds: seq<Id>, trainIds: seq<Id>): (r: seq<Id>)
    ensures |r| <= |depthIds|
    ensures forall x :: x in r <==> x in depthIds && x !in trainIds
  {
    if depthIds == [] then []
    else
      var init := TestIds(depthIds[..|depthIds| - 1], trainIds);
      var last := depthIds[|depthIds| - 1];
      assert depthIds == depthIds[..|depthIds| - 1] + [last];
      if last in trainIds then init else init + [last]
  }

  /** TestIds keeps the order of depths.csv: it distributes over concatenation. */
  lemma {:induction false} TestIdsOfConcat(a: seq<Id>, b: seq<Id>, trainIds: seq<Id>)
    ensures TestIds(a + b, trainIds) == TestIds(a, trainIds) + TestIds(b, trainIds)
  {
    if b != [] {
      var l := |b| - 1;
      TestIdsOfConcat(a, b[..l], trainIds);
      assert (a + b)[..|a + b| - 1] == a + b[..l];
    } else {
      assert a + b == a;
    }
  }

  /** When no depth id is a training id, every depth id is a test id, in order. */
  lemma {:induction false} TestIdsDisjointKeepsAll(depthIds: seq<Id>, trainIds: seq<Id>)
    requires forall k :: 0 <= k < |depthIds| ==> depthIds[k] !in trainIds
    ensures TestIds(depthIds, trainIds) == depthIds
  {
    if depthIds != [] {
      var l := |depthIds| - 1;
      TestIdsDisjointKeepsAll(depthIds[..l], trainIds);
      assert depthIds == depthIds[..l] + [depthIds[l]];
    }
  }
}
