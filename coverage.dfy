/** Coverage classes: the salt fraction of a mask bucketed into 0..10
    (dataset.py, calculate_coverage_class). */
module Coverage {

  import opened Common

  /** A binary mask with its pixels in row-major order; `true` is salt.
      Every mask of the data set is a fixed-size image, so none is empty. */
  type Mask = m: seq<bool> | |m| > 0 witness [false]

  /** `mask.sum()` of a 0/1 mask. */
  function SaltCount(m: seq<bool>): (n: nat)
    ensures n <= |m|
  {
    if m == [] then 0 else SaltCount(m[..|m| - 1]) + (if m[|m| - 1] then 1 else 0)
  }

  /** The test `coverage * 10 <= i` of the source with coverage = salt / size,
      compared exactly (both sides multiplied by size). */
  predicate Covers(salt: nat, size: nat, i: nat) {
    10 * salt <= i * size
  }

  /** The loop `for i in range(0, 11)` from `i` on: the first class that covers
      the salt fraction, or None when the loop runs out. */
  function FirstCoveringClass(salt: nat, size: nat, i: nat): (r: Option<nat>)
    requires i <= 11
    ensures r.Some? ==> i <= r.value <= 10 && Covers(salt, size, r.value)
    ensures r.Some? ==> forall j :: i <= j < r.value ==> !Covers(salt, size, j)
    ensures r.None? ==> forall j :: i <= j <= 10 ==> !Covers(salt, size, j)
    ensures salt <= size && i <= 10 ==> r.Some?
    decreases 11 - i
  {
    if i == 11 then None
    else if Covers(salt, size, i) then Some(i)
    else FirstCoveringClass(salt, size, i + 1)
  }

  /** calculate_coverage_class: the smallest class i in 0..10 with
      10 * salt <= i * size. */
  function CoverageClass(m: Mask): (c: nat)
    ensures c <= 10
    ensures Covers(SaltCount(m), |m|, c)
    ensures forall j :: 0 <= j < c ==> !Covers(SaltCount(m), |m|, j)
  {
    FirstCoveringClass(SaltCount(m), |m|, 0).value
  }

  /** Class 0 holds exactly the masks without salt. */
  lemma ClassZeroIffNoSalt(m: Mask)
    ensures CoverageClass(m) == 0 <==> SaltCount(m) == 0
  {
    var c := CoverageClass(m);
    if SaltCount(m) == 0 {
      assert Covers(0, |m|, 0);
    }
  }

  /** Class 10 holds every mask whose salt exceeds 90 % of its pixels, not only
      the full masks. */
  lemma ClassTenIffAboveNinetyPercent(m: Mask)
    ensures CoverageClass(m) == 10 <==> 10 * SaltCount(m) > 9 * |m|
  {
    var c := CoverageClass(m);
    if 10 * SaltCount(m) <= 9 * |m| {
      assert Covers(SaltCount(m), |m|, 9);
    }
  }

  /** A salt fraction exactly on a class boundary i / 10 falls into class i,
      the lower of the two classes that meet there. */
  lemma BoundaryFallsIntoLowerClass(m: Mask, i: nat)
    requires i <= 10 && 10 * SaltCount(m) == i * |m|
    ensures CoverageClass(m) == i
  {
    MulStrictlyMonotone(CoverageClass(m), i, |m|);
    assert Covers(SaltCount(m), |m|, i);
  }

  lemma MulStrictlyMonotone(a: nat, b: nat, n: nat)
    requires n > 0
    ensures a < b ==> a * n < b * n
  {
  }

  /** More salt in a mask of the same size never lowers the class. */
  lemma ClassMonotoneInSalt(m1: Mask, m2: Mask)
    requires |m1| == |m2| && SaltCount(m1) <= SaltCount(m2)
    ensures CoverageClass(m1) <= CoverageClass(m2)
  {
    var c2 := CoverageClass(m2);
    assert Covers(SaltCount(m1), |m1|, c2);
  }

  /** A mask of eleven pixels, ten of them salt, is in class 10 without being
      full. */
  lemma NearlyFullMaskIsClassTen()
    ensures var m: Mask := [true, true, true, true, true, true, true, true, true, true, false];
            CoverageClass(m) == 10 && SaltCount(m) < |m|
  {
    var m: Mask := [true, true, true, true, true, true, true, true, true, true, false];
    assert m[..|m| - 1] == [true, true, true, true, true, true, true, true, true, true];
    SaltCountAllSalt(m[..|m| - 1]);
    ClassTenIffAboveNinetyPercent(m);
  }

  lemma {:induction false} SaltCountAllSalt(m: seq<bool>)
    requires forall k :: 0 <= k < |m| ==> m[k]
    ensures SaltCount(m) == |m|
  {
    if m != [] {
      SaltCountAllSalt(m[..|m| - 1]);
    }
  }
}
