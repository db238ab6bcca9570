/** Values shared by the data-set and training models: optional values, the
    exceptions the modelled code raises, and Python's integer arithmetic. */
module Common {

  datatype Option<T> = None | Some(value: T)

  /** The Python exceptions that end a run in the modelled code. */
  datatype Error =
    | ZeroDivisionError   // a division or modulo by a zero count
    | ValueError          // int() of a malformed string, min() of an empty dict
    | IndexError          // a fold index outside the list of folds
    | ArgumentTypeError   // a command-line value that is not a boolean
    | OverlapError        // "Train and val set do overlap"

  datatype Result<T> = Ok(value: T) | Err(error: Error)

  type PosInt = n: int | n > 0 witness 1

  /** A command-line float taken as the exact fraction num / den. */
  datatype Ratio = Ratio(num: int, den: PosInt)

  function Min(a: int, b: int): int { if a <= b then a else b }

  function Max(a: int, b: int): int { if a >= b then a else b }

  /** Python's `int(a / d)`: the quotient truncated toward zero. */
  function TruncDiv(a: int, d: PosInt): (q: int)
    ensures a >= 0 ==> 0 <= q && q * d <= a < (q + 1) * d
    ensures a < 0 ==> q <= 0 && (q - 1) * d < a <= q * d
  {
    if a >= 0 then DivBounds(a, d); a / d
    else NegDivBounds(a, d); -((-a) / d)
  }

  /** `ceil(a / d)` for a non-negative count and a positive divisor. */
  function CeilDiv(a: nat, d: PosInt): (q: nat)
    ensures (q - 1) * d < a <= q * d
  {
    DivBounds(a + d - 1, d);
    (a + d - 1) / d
  }

  lemma DivBounds(a: nat, d: PosInt)
    ensures 0 <= a / d
    ensures (a / d) * d <= a < (a / d + 1) * d
  {
  }

  lemma NegDivBounds(a: int, d: PosInt)
    requires a < 0
    ensures 0 <= (-a) / d
    ensures (-((-a) / d) - 1) * d < a <= -((-a) / d) * d
  {
    var q := (-a) / d;
    DivBounds(-a, d);
    assert (-q - 1) * d == -((q + 1) * d);
    assert -q * d == -(q * d);
  }

  /** Python's `xs[i]`: negative indices count from the end. */
  function PyIndex<T>(xs: seq<T>, i: int): (r: Result<T>)
    ensures r.Err? <==> !(-|xs| <= i < |xs|)
    ensures r.Err? ==> r.error == IndexError
    ensures 0 <= i < |xs| ==> r == Ok(xs[i])
    ensures -|xs| <= i < 0 ==> r == Ok(xs[|xs| + i])
  {
    if 0 <= i < |xs| then Ok(xs[i])
    else if -|xs| <= i < 0 then Ok(xs[|xs| + i])
    else Err(IndexError)
  }
}
