/** The rows of the data frames built in dataset.py: one sample per image, with
    its mask, its coverage class and whether its mask is a pseudo label. */
module Samples {

  import opened Coverage

  type Id = string

  /** The pixels of an image; never inspected by the modelled code. */
  type Image = seq<int>

  /** A row as loaded: id, image and mask (from the mask file or the decoded
      run-length string of a submission). */
  datatype RawSample = RawSample(id: Id, image: Image, mask: Mask)

  /** A row of train_set_df / val_set_df. */
  datatype Sample = Sample(id: Id, image: Image, mask: Mask, coverageClass: nat, pseudoMasked: bool)

  function Ids(rows: seq<Sample>): (ids: seq<Id>)
    ensures |ids| == |rows|
    ensures forall k :: 0 <= k < |rows| ==> ids[k] == rows[k].id
  {
    seq(|rows|, k requires 0 <= k < |rows| => rows[k].id)
  }

  lemma IdsConcat(a: seq<Sample>, b: seq<Sample>)
    ensures Ids(a + b) == Ids(a) + Ids(b)
  {
    assert forall k :: 0 <= k < |a + b| ==> Ids(a + b)[k] == (Ids(a) + Ids(b))[k];
  }

  function RawIds(rows: seq<RawSample>): (ids: seq<Id>)
    ensures |ids| == |rows|
    ensures forall k :: 0 <= k < |rows| ==> ids[k] == rows[k].id
  {
    seq(|rows|, k requires 0 <= k < |rows| => rows[k].id)
  }

  /** The ids of a list, as `isin` consults them. */
  function IdSet(ids: seq<Id>): (s: set<Id>)
    ensures forall x :: x in s <==> x in ids
  {
    set x | x in ids
  }

  /** No two rows share an id (a frame indexed by a unique id column). */
  predicate UniqueIds(rows: seq<Sample>) {
    forall i, j :: 0 <= i < j < |rows| ==> rows[i].id != rows[j].id
  }

  /** Another row of the frame carries the id of row j, so `df.loc[id]`
      selects several rows instead of one. */
  predicate Repeated(rows: seq<Sample>, j: int)
    requires 0 <= j < |rows|
  {
    exists k :: 0 <= k < |rows| && k != j && rows[k].id == rows[j].id
  }

  /** A frame has unique ids exactly when no row's id is repeated. */
  lemma UniqueIffNoneRepeated(rows: seq<Sample>)
    ensures UniqueIds(rows) <==> forall j :: 0 <= j < |rows| ==> !Repeated(rows, j)
  {
    if !UniqueIds(rows) {
      var i, j :| 0 <= i < j < |rows| && rows[i].id == rows[j].id;
      assert Repeated(rows, j);
    }
  }

  /** `df["coverage_class"] = df.masks.map(calculate_coverage_class)` on freshly
      loaded rows; the pseudo_masked column is set later. */
  function Classified(raw: seq<RawSample>): (rows: seq<Sample>)
    ensures |rows| == |raw|
    ensures forall k :: 0 <= k < |raw| ==>
      rows[k] == Sample(raw[k].id, raw[k].image, raw[k].mask, CoverageClass(raw[k].mask), false)
    ensures Ids(rows) == RawIds(raw)
    ensures forall r :: r in rows ==> !r.pseudoMasked && r.coverageClass == CoverageClass(r.mask)
  {
    var rows := seq(|raw|, k requires 0 <= k < |raw| =>
      Sample(raw[k].id, raw[k].image, raw[k].mask, CoverageClass(raw[k].mask), false));
    assert forall k :: 0 <= k < |raw| ==> Ids(rows)[k] == RawIds(raw)[k];
    rows
  }

  /** `df[df.index.isin(ids)]`: the rows whose id is listed, in frame order. */
  function SelectRows(rows: seq<Sample>, ids: set<Id>): (s: seq<Sample>)
    ensures |s| <= |rows|
    ensures forall r :: r in s <==> r in rows && r.id in ids
  {
    if rows == [] then []
    else
      var init := SelectRows(rows[..|rows| - 1], ids);
      var last := rows[|rows| - 1];
      assert rows == rows[..|rows| - 1] + [last];
      if last.id in ids then init + [last] else init
  }

  /** `df["pseudo_masked"] = flag`. */
  function Marked(rows: seq<Sample>, flag: bool): (s: seq<Sample>)
    ensures |s| == |rows|
    ensures forall k :: 0 <= k < |rows| ==> s[k] == rows[k].(pseudoMasked := flag)
    ensures Ids(s) == Ids(rows)
    ensures forall r :: r in s ==> r.pseudoMasked == flag
  {
    var s := seq(|rows|, k requires 0 <= k < |rows| => rows[k].(pseudoMasked := flag));
    assert forall k :: 0 <= k < |rows| ==> Ids(s)[k] == Ids(rows)[k];
    s
  }

  /** Setting the column twice is setting it once, to the last value. */
  lemma MarkedTwice(rows: seq<Sample>, flag: bool, flag': bool)
    ensures Marked(Marked(rows, flag), flag') == Marked(rows, flag')
  {
    assert forall k :: 0 <= k < |rows| ==> Marked(Marked(rows, flag), flag')[k] == Marked(rows, flag')[k];
  }

  /** `df["coverage_class"] = df.masks.map(calculate_coverage_class)` on an
      assembled frame. */
  function Reclassified(rows: seq<Sample>): (s: seq<Sample>)
    ensures |s| == |rows|
    ensures forall k :: 0 <= k < |rows| ==> s[k] == rows[k].(coverageClass := CoverageClass(rows[k].mask))
    ensures Ids(s) == Ids(rows)
    ensures forall r :: r in s ==> r.coverageClass == CoverageClass(r.mask)
  {
    var s := seq(|rows|, k requires 0 <= k < |rows| => rows[k].(coverageClass := CoverageClass(rows[k].mask)));
    assert forall k :: 0 <= k < |rows| ==> Ids(s)[k] == Ids(rows)[k];
    s
  }

  /** Recomputing the class column a second time changes nothing. */
  lemma ReclassifiedIdempotent(rows: seq<Sample>)
    ensures Reclassified(Reclassified(rows)) == Reclassified(rows)
  {
    assert forall k :: 0 <= k < |rows| ==> Reclassified(Reclassified(rows))[k] == Reclassified(rows)[k];
  }

  /** Rows whose class already is that of their mask are left as they are. */
  lemma ReclassifiedKeepsCurrentRows(rows: seq<Sample>)
    requires forall r :: r in rows ==> r.coverageClass == CoverageClass(r.mask)
    ensures Reclassified(rows) == rows
  {
    assert forall k :: 0 <= k < |rows| ==> Reclassified(rows)[k] == rows[k];
  }
}
