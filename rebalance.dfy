/** Coverage rebalancing of pseudo-labelled rows (dataset.py,
    TrainData.replace_samples_with_cc1). */
module Rebalance {

  import opened Common
  import opened Coverage
  import opened Samples

  /** How many reduction attempts a row gets (`for _ in range(2)`). */
  const ReductionAttempts: nat := 2

  /** reduce_salt_coverage as an oracle: the image and mask that attempt k
      makes from the row's ORIGINAL image and mask. */
  type Reducer = (Sample, nat) -> (Image, Mask)

  /** The first attempt from k on whose reduced mask is in class 1. */
  function FirstReduction(r: Sample, reduce: Reducer, k: nat): (res: Option<(Image, Mask)>)
    ensures res.Some? ==> CoverageClass(res.value.1) == 1
    ensures res.Some? <==> exists j :: k <= j < ReductionAttempts && CoverageClass(reduce(r, j).1) == 1
    ensures res.Some? ==> exists j :: k <= j < ReductionAttempts && res.value == reduce(r, j)
    decreases ReductionAttempts - k
  {
    if k >= ReductionAttempts then None
    else if CoverageClass(reduce(r, k).1) == 1 then Some(reduce(r, k))
    else FirstReduction(r, reduce, k + 1)
  }

  /** The reduced copy of a row, if it gets one: only rows above class 1, and
      only when an attempt reaches class 1.  The copy keeps the row's id and its
      stale coverage class. */
  function ReducedCopy(r: Sample, reduce: Reducer): (res: Option<Sample>)
    ensures res.Some? <==>
      r.coverageClass > 1 && exists j :: 0 <= j < ReductionAttempts && CoverageClass(reduce(r, j).1) == 1
    ensures res.Some? ==>
      && res.value.id == r.id
      && res.value.coverageClass == r.coverageClass
      && res.value.pseudoMasked == r.pseudoMasked
      && CoverageClass(res.value.mask) == 1
  {
    if r.coverageClass > 1 then
      match FirstReduction(r, reduce, 0)
      case Some(reduced) => Some(r.(image := reduced.0, mask := reduced.1))
      case None => None
    else None
  }

  /** ReducedCopy for a fixed oracle, as a function of the row. */
  function CopyWith(reduce: Reducer): Sample -> Option<Sample> {
    r => ReducedCopy(r, reduce)
  }

  /** A copy function keeps ids when every copy has the id of its row. */
  ghost predicate KeepsIds(copy: Sample -> Option<Sample>) {
    forall r :: copy(r).Some? ==> copy(r).value.id == r.id
  }

  lemma ReducedCopyKeepsIds(reduce: Reducer)
    ensures KeepsIds(CopyWith(reduce))
  {
  }

  /** The row as it stands in the working copy after the loop: its copy, if it
      has one. */
  function Patched(r: Sample, copy: Sample -> Option<Sample>): Sample {
    if copy(r).Some? then copy(r).value else r
  }

  /** The row as it stands in the working copy `df` after the loop. */
  function Updated(r: Sample, reduce: Reducer): Sample {
    Patched(r, CopyWith(reduce))
  }

  /** The copies of the rows that have one, in frame order. */
  function Copies(rows: seq<Sample>, copy: Sample -> Option<Sample>): (s: seq<Sample>)
    ensures |s| <= |rows|
  {
    if rows == [] then []
    else
      var init := Copies(rows[..|rows| - 1], copy);
      var last := copy(rows[|rows| - 1]);
      if last.Some? then init + [last.value] else init
  }

  /** The reduced copies, in frame order. */
  function ReducedCopies(rows: seq<Sample>, reduce: Reducer): (s: seq<Sample>)
    ensures |s| <= |rows|
  {
    Copies(rows, CopyWith(reduce))
  }

  /** `df.drop(df.index[df.coverage_class == 1])`. */
  function WithoutClassOne(rows: seq<Sample>): (s: seq<Sample>)
    ensures |s| <= |rows|
    ensures forall r :: r in s <==> r in rows && r.coverageClass != 1
  {
    if rows == [] then []
    else
      var last := rows[|rows| - 1];
      var init := WithoutClassOne(rows[..|rows| - 1]);
      assert rows == rows[..|rows| - 1] + [last];
      if last.coverageClass == 1 then init else init + [last]
  }

  /** `np.sum(df.coverage_class == c)`. */
  function CountClass(rows: seq<Sample>, c: nat): (n: nat)
    ensures n <= |rows|
  {
    if rows == [] then 0
    else CountClass(rows[..|rows| - 1], c) + (if rows[|rows| - 1].coverageClass == c then 1 else 0)
  }

  /** The frame replace_samples_with_cc1 returns: the original rows without
      those of class 1, followed by the reduced copies. */
  function Rebalanced(rows: seq<Sample>, reduce: Reducer): seq<Sample> {
    WithoutClassOne(rows) + ReducedCopies(rows, reduce)
  }

  /** The retry loop `for _ in range(2)` with its `break`: the first attempt
      whose reduced mask is in class 1. */
  method TryReduce(row: Sample, reduce: Reducer) returns (res: Option<(Image, Mask)>)
    ensures res == FirstReduction(row, reduce, 0)
  {
    res := None;
    var attempt := 0;
    while attempt < ReductionAttempts
      invariant 0 <= attempt <= ReductionAttempts
      invariant FirstReduction(row, reduce, attempt) == FirstReduction(row, reduce, 0)
    {
      var reduced := reduce(row, attempt);
      if CoverageClass(reduced.1) == 1 {
        res := Some(reduced);
        break;
      }
      attempt := attempt + 1;
    }
  }

  /** What replace_samples_with_cc1 returns, or the ValueError it raises when
      two rows share an id: `df.loc[id]` then selects a frame, and the truth
      value of its `coverage_class > 1` column is ambiguous. */
  function Replaced(rows: seq<Sample>, reduce: Reducer): Result<seq<Sample>> {
    if UniqueIds(rows) then Ok(Rebalanced(rows, reduce)) else Err(ValueError)
  }

  /** The source's loop: each row above class 1 gets up to two reduction
      attempts of its original image and mask; the first that lands in class 1
      replaces the row's image and mask in the working copy and records its id.
      The result keeps the input rows that are not in class 1 and appends the
      working copy's rows whose id was recorded.  A repeated id raises
      ValueError. */
  method ReplaceSamplesWithCc1(original: seq<Sample>, reduce: Reducer) returns (r: Result<seq<Sample>>)
    ensures r.Err? <==> !UniqueIds(original)
    ensures r.Err? ==> r.error == ValueError
    ensures r.Ok? ==> r.value == Rebalanced(original, reduce)
  {
    // `df.loc[id]` on a repeated id raises in the loop; the working copy is
    // local, so checking the ids before the loop gives the same outcome.
    if !UniqueIds(original) {
      return Err(ValueError);
    }
    var df := original;
    var reducedIds: seq<Id> := [];
    var j := 0;
    assert original[..0] == [];
    while j < |df|
      invariant Scanned(original, reduce, df, reducedIds, j)
    {
      var row := df[j];
      var copy: Option<Sample> := None;
      if row.coverageClass > 1 {
        var reduced := TryReduce(row, reduce);
        if reduced.Some? {
          copy := Some(row.(image := reduced.value.0, mask := reduced.value.1));
        }
      }
      ScanStep(original, reduce, df, reducedIds, j);
      if copy.Some? {
        df := df[j := copy.value];
        reducedIds := reducedIds + [row.id];
      }
      j := j + 1;
    }
    var reduced := SelectRows(df, IdSet(reducedIds));
    SelectReducedRows(original, reduce, df, reducedIds);
    r := Ok(WithoutClassOne(original) + reduced);
  }

  /** The state of the loop of replace_samples_with_cc1 after its first j rows:
      those rows are updated in the working copy, the others untouched, and the
      recorded ids are those of the copies made so far. */
  predicate Scanned(original: seq<Sample>, reduce: Reducer, df: seq<Sample>, reducedIds: seq<Id>, j: int) {
    && 0 <= j <= |df| == |original|
    && (forall k :: j <= k < |original| ==> df[k] == original[k])
    && (forall k :: 0 <= k < j ==> df[k] == Updated(original[k], reduce))
    && reducedIds == Ids(ReducedCopies(original[..j], reduce))
  }

  /** One turn of the loop: row j gets its reduced copy, if any, and its id is
      recorded. */
  lemma ScanStep(original: seq<Sample>, reduce: Reducer, df: seq<Sample>, reducedIds: seq<Id>, j: int)
    requires Scanned(original, reduce, df, reducedIds, j) && j < |original|
    ensures var copy := ReducedCopy(df[j], reduce);
      copy == ReducedCopy(original[j], reduce) &&
      Scanned(original, reduce,
              if copy.Some? then df[j := copy.value] else df,
              if copy.Some? then reducedIds + [df[j].id] else reducedIds, j + 1)
  {
    IdsOfCopiesStep(original, CopyWith(reduce), j);
  }

  /** After the loop, selecting the working copy's rows by the recorded ids
      gives the reduced copies. */
  lemma SelectReducedRows(original: seq<Sample>, reduce: Reducer, df: seq<Sample>, reducedIds: seq<Id>)
    requires UniqueIds(original) && |df| == |original|
    requires forall k :: 0 <= k < |original| ==> df[k] == Updated(original[k], reduce)
    requires reducedIds == Ids(ReducedCopies(original[..|original|], reduce))
    ensures SelectRows(df, IdSet(reducedIds)) == ReducedCopies(original, reduce)
  {
    assert original[..|original|] == original;
    ReducedCopyKeepsIds(reduce);
    SelectPatchedRows(original, CopyWith(reduce), df);
  }

  /** The ids recorded after j + 1 rows: those after j, and row j's id when it
      has a copy. */
  lemma IdsOfCopiesStep(rows: seq<Sample>, copy: Sample -> Option<Sample>, j: nat)
    requires j < |rows| && KeepsIds(copy)
    ensures Ids(Copies(rows[..j + 1], copy)) ==
      Ids(Copies(rows[..j], copy)) + (if copy(rows[j]).Some? then [rows[j].id] else [])
  {
    var prefix := rows[..j + 1];
    assert prefix[..j] == rows[..j];
    var c := copy(rows[j]);
    if c.Some? {
      IdsConcat(Copies(rows[..j], copy), [c.value]);
      assert Ids([c.value]) == [rows[j].id];
    }
  }

  /** Selecting the working copy's rows by the recorded ids gives exactly the
      copies, because ids are unique. */
  lemma {:induction false} SelectPatchedRows(rows: seq<Sample>, copy: Sample -> Option<Sample>, updated: seq<Sample>)
    requires UniqueIds(rows) && |updated| == |rows| && KeepsIds(copy)
    requires forall k :: 0 <= k < |rows| ==> updated[k] == Patched(rows[k], copy)
    ensures SelectRows(updated, IdSet(Ids(Copies(rows, copy)))) == Copies(rows, copy)
  {
    if rows != [] {
      var l := |rows| - 1;
      var last := rows[l];
      var init, updatedInit := rows[..l], updated[..l];
      var idsInit := IdSet(Ids(Copies(init, copy)));
      var ids := IdSet(Ids(Copies(rows, copy)));
      assert SelectRows(updatedInit, idsInit) == Copies(init, copy) by {
        UniquePrefix(rows, l);
        SelectPatchedRows(init, copy, updatedInit);
      }
      LastIdApart(rows, copy, updated);
      IdsOfCopiesStep(rows, copy, l);
      assert rows[..l + 1] == rows;
      SelectRowsStep(updated, ids);
      if copy(last).Some? {
        assert ids == idsInit + {last.id};
        SelectExtraIdAbsent(updatedInit, idsInit, last.id);
      } else {
        assert ids == idsInit;
      }
    }
  }

  lemma UniquePrefix(rows: seq<Sample>, l: nat)
    requires UniqueIds(rows) && l <= |rows|
    ensures UniqueIds(rows[..l])
  {
  }

  /** With unique ids, the last row's id is neither in the rest of the working
      copy nor among the ids of the copies of the rest. */
  lemma LastIdApart(rows: seq<Sample>, copy: Sample -> Option<Sample>, updated: seq<Sample>)
    requires rows != [] && UniqueIds(rows) && |updated| == |rows| && KeepsIds(copy)
    requires forall k :: 0 <= k < |rows| ==> updated[k] == Patched(rows[k], copy)
    ensures var l := |rows| - 1;
      && (forall k :: 0 <= k < l ==> updated[..l][k].id != rows[l].id)
      && rows[l].id !in IdSet(Ids(Copies(rows[..l], copy)))
  {
    var l := |rows| - 1;
    forall k | 0 <= k < l ensures updated[..l][k].id != rows[l].id {
      assert updated[k].id == rows[k].id;
    }
    CopyIdsAreRowIds(rows[..l], copy, rows[l].id);
  }

  lemma SelectRowsStep(rows: seq<Sample>, ids: set<Id>)
    requires rows != []
    ensures var l := |rows| - 1;
      SelectRows(rows, ids) == SelectRows(rows[..l], ids) + (if rows[l].id in ids then [rows[l]] else [])
  {
  }

  lemma {:induction false} SelectExtraIdAbsent(rows: seq<Sample>, ids: set<Id>, x: Id)
    requires forall k :: 0 <= k < |rows| ==> rows[k].id != x
    ensures SelectRows(rows, ids + {x}) == SelectRows(rows, ids)
  {
    if rows != [] {
      SelectExtraIdAbsent(rows[..|rows| - 1], ids, x);
    }
  }

  lemma {:induction false} CopyIdsAreRowIds(rows: seq<Sample>, copy: Sample -> Option<Sample>, x: Id)
    requires forall k :: 0 <= k < |rows| ==> rows[k].id != x
    requires KeepsIds(copy)
    ensures x !in Ids(Copies(rows, copy))
  {
    if rows != [] {
      var l := |rows| - 1;
      CopyIdsAreRowIds(rows[..l], copy, x);
      IdsOfCopiesStep(rows, copy, l);
      assert rows[..l + 1] == rows;
    }
  }

  /** The result has n - (number of class-1 rows) + (number of reduced copies)
      rows. */
  lemma RebalancedLength(rows: seq<Sample>, reduce: Reducer)
    ensures |Rebalanced(rows, reduce)| == |rows| - CountClass(rows, 1) + |ReducedCopies(rows, reduce)|
  {
    KeptCount(rows);
  }

  lemma {:induction false} KeptCount(rows: seq<Sample>)
    ensures |WithoutClassOne(rows)| + CountClass(rows, 1) == |rows|
  {
    if rows != [] {
      KeptCount(rows[..|rows| - 1]);
    }
  }

  /** Every input row outside class 1 is in the result unchanged, rows above
      class 1 included whether or not their reduction succeeded; no input row of
      class 1 is. */
  lemma RebalanceKeepsAllButClassOne(rows: seq<Sample>, reduce: Reducer, r: Sample)
    requires r in rows
    ensures r in Rebalanced(rows, reduce) <==> r.coverageClass != 1
  {
    if r.coverageClass == 1 && r in ReducedCopies(rows, reduce) {
      var k := ListedCopyHasSource(rows, reduce, r);
    }
  }

  /** Every listed copy is the reduced copy of an input row. */
  lemma ListedCopyHasSource(rows: seq<Sample>, reduce: Reducer, c: Sample) returns (k: nat)
    requires c in ReducedCopies(rows, reduce)
    ensures k < |rows| && ReducedCopy(rows[k], reduce) == Some(c)
  {
    k := CopyHasSource(rows, CopyWith(reduce), c);
  }

  lemma {:induction false} CopyHasSource(rows: seq<Sample>, copy: Sample -> Option<Sample>, c: Sample) returns (k: nat)
    requires c in Copies(rows, copy)
    ensures k < |rows| && copy(rows[k]) == Some(c)
  {
    var l := |rows| - 1;
    if c in Copies(rows[..l], copy) {
      k := CopyHasSource(rows[..l], copy, c);
      assert rows[..l][k] == rows[k];
    } else {
      k := l;
    }
  }

  /** The reduced copy of every input row that gets one is listed. */
  lemma SourceCopyIsListed(rows: seq<Sample>, reduce: Reducer, k: nat)
    requires k < |rows| && ReducedCopy(rows[k], reduce).Some?
    ensures ReducedCopy(rows[k], reduce).value in ReducedCopies(rows, reduce)
  {
    SourceCopyListed(rows, CopyWith(reduce), k);
  }

  lemma {:induction false} SourceCopyListed(rows: seq<Sample>, copy: Sample -> Option<Sample>, k: nat)
    requires k < |rows| && copy(rows[k]).Some?
    ensures copy(rows[k]).value in Copies(rows, copy)
  {
    var l := |rows| - 1;
    if k < l {
      assert rows[..l][k] == rows[k];
      SourceCopyListed(rows[..l], copy, k);
    }
  }

  /** Each reduced copy has a class-1 mask but still records the class of the
      row it came from, which is above 1; its id is that row's id, so the id
      occurs twice in the result. */
  lemma ReducedCopyIsStaleDuplicate(rows: seq<Sample>, reduce: Reducer, k: nat)
    requires k < |rows| && ReducedCopy(rows[k], reduce).Some?
    ensures var c := ReducedCopy(rows[k], reduce).value;
      && c in ReducedCopies(rows, reduce)
      && rows[k] in WithoutClassOne(rows)
      && c.id == rows[k].id
      && c.coverageClass == rows[k].coverageClass > 1
      && CoverageClass(c.mask) == 1
  {
    SourceCopyIsListed(rows, reduce, k);
  }
}
