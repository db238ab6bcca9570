/** The training data set seen by the data loader (dataset.py, TrainDataset):
    its length and which row each index reads. */
module TrainSet {

  import opened Common
  import opened Coverage
  import opened Samples

  /** The random augmentation of an (image, mask) pair, as an oracle. */
  type Augmenter = (Image, Mask) -> (Image, Mask)

  /** What __getitem__ returns, before resizing and conversion to tensors: the
      row read, its (possibly augmented) image and mask, whether its mask
      weights are scaled for a pseudo label, and has_salt. */
  datatype Item = Item(id: Id, image: Image, mask: Mask, pseudoMasked: bool, hasSalt: real)

  /** __len__: `int(train_set_scale_factor * len(df))`, with the scale factor
      taken as the fraction num / den. */
  function DatasetLen(scale: Ratio, n: nat): (len: int)
    ensures scale.num >= 0 ==> 0 <= len && len * scale.den <= scale.num * n < (len + 1) * scale.den
    ensures scale.num <= 0 ==> len <= 0
  {
    TruncDiv(scale.num * n, scale.den)
  }

  /** __getitem__: index `index % len(df)` of the frame; `%` by an empty frame
      raises.  has_salt is taken from the stored coverage class, never from the
      augmented mask. */
  function GetItem(rows: seq<Sample>, index: int, augment: bool, augmenter: Augmenter): (r: Result<Item>)
    ensures r.Err? <==> |rows| == 0
    ensures r.Err? ==> r.error == ZeroDivisionError
    ensures r.Ok? ==>
      var row := rows[index % |rows|];
      && r.value.id == row.id
      && r.value.pseudoMasked == row.pseudoMasked
      && (r.value.hasSalt == 0.0 || r.value.hasSalt == 1.0)
      && (r.value.hasSalt == 0.0 <==> row.coverageClass == 0)
      && (!augment ==> r.value.image == row.image && r.value.mask == row.mask)
  {
    if |rows| == 0 then Err(ZeroDivisionError)
    else
      var row := rows[index % |rows|];
      var (image, mask) := if augment then augmenter(row.image, row.mask) else (row.image, row.mask);
      Ok(Item(row.id, image, mask, row.pseudoMasked, if row.coverageClass == 0 then 0.0 else 1.0))
  }

  /** Indices one frame length apart read the same row. */
  lemma GetItemPeriodic(rows: seq<Sample>, index: int, augment: bool, augmenter: Augmenter)
    requires |rows| > 0
    ensures GetItem(rows, index + |rows|, augment, augmenter) == GetItem(rows, index, augment, augmenter)
  {
    ModShift(index, |rows|);
  }

  lemma ModShift(i: int, n: PosInt)
    ensures (i + n) % n == i % n
  {
    var q, r := i / n, i % n;
    assert i == q * n + r;
    assert i + n == (q + 1) * n + r;
    ModUnique(i + n, n, q + 1, r);
  }

  /** Euclidean division has one quotient and one remainder. */
  lemma ModUnique(a: int, n: PosInt, q: int, r: int)
    requires 0 <= r < n && a == q * n + r
    ensures a % n == r
  {
    var q', r' := a / n, a % n;
    assert (q - q') * n == r' - r;
    if q - q' >= 1 {
      MulMonotone(1, q - q', n);
    } else if q' - q >= 1 {
      MulMonotone(1, q' - q, n);
    }
  }

  /** With a scale factor of at least 1 the data set is at least as long as the
      frame, and its first len(df) indices read every row once, in order. */
  lemma ScaledSetServesEveryRow(rows: seq<Sample>, scale: Ratio, augment: bool, augmenter: Augmenter, k: nat)
    requires scale.num >= scale.den
    requires k < |rows|
    ensures k < DatasetLen(scale, |rows|)
    ensures GetItem(rows, k, augment, augmenter).Ok?
    ensures GetItem(rows, k, augment, augmenter).value.id == rows[k].id
  {
    var len := DatasetLen(scale, |rows|);
    var n := |rows|;
    assert scale.den * n <= scale.num * n by {
      MulMonotone(scale.den, scale.num, n);
    }
    assert len >= n by {
      if len < n {
        MulMonotone(len + 1, n, scale.den);
      }
    }
    ModUnique(k, n, 0, k);
  }

  lemma MulMonotone(a: int, b: int, n: nat)
    requires a <= b
    ensures a * n <= b * n
  {
  }

  /** For rows whose coverage class was recomputed from their mask, as the
      assembled frames' rows are, has_salt is 0 exactly when the stored mask
      has no salt, whatever the augmentation does to the returned mask. */
  lemma HasSaltIffStoredMaskHasSalt(rows: seq<Sample>, index: int, augment: bool, augmenter: Augmenter)
    requires |rows| > 0
    requires forall k :: 0 <= k < |rows| ==> rows[k].coverageClass == CoverageClass(rows[k].mask)
    ensures GetItem(rows, index, augment, augmenter).value.hasSalt == 0.0
      <==> SaltCount(rows[index % |rows|].mask) == 0
  {
    ClassZeroIffNoSalt(rows[index % |rows|].mask);
  }

  /** Augmentation never changes has_salt. */
  lemma HasSaltIgnoresAugmentation(rows: seq<Sample>, index: int, augmenter: Augmenter)
    requires |rows| > 0
    ensures GetItem(rows, index, true, augmenter).value.hasSalt == GetItem(rows, index, false, augmenter).value.hasSalt
  {
  }
}
