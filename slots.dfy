/** Ensemble slots: the checkpoint files `model-<n>.pth` written once per
    cycle, and the first free slot index found at start-up (train.py). */
module Slots {

  import opened Common

  predicate IsDigit(c: char) {
    '0' <= c <= '9'
  }

  predicate AllDigits(s: string) {
    forall k :: 0 <= k < |s| ==> IsDigit(s[k])
  }

  function DigitChar(d: nat): (c: char)
    requires d < 10
    ensures IsDigit(c)
  {
    ('0' as int + d) as char
  }

  /** The decimal digits of n, without leading zeros: `str(n)`. */
  function NatToString(n: nat): (s: string)
    ensures |s| > 0 && AllDigits(s)
    ensures |s| > 1 ==> s[0] != '0'
  {
    if n < 10 then [DigitChar(n)] else NatToString(n / 10) + [DigitChar(n % 10)]
  }

  /** The value of a string of decimal digits. */
  function DigitsValue(s: string): (v: nat)
    requires AllDigits(s)
  {
    if s == [] then 0 else DigitsValue(s[..|s| - 1]) * 10 + (s[|s| - 1] as int - '0' as int)
  }

  lemma {:induction false} DigitsValueOfNatToString(n: nat)
    ensures DigitsValue(NatToString(n)) == n
  {
    if n >= 10 {
      DigitsValueOfNatToString(n / 10);
      var s := NatToString(n);
      assert s[..|s| - 1] == NatToString(n / 10);
    }
  }

  /** The file name of slot n. */
  function SlotFileName(n: nat): string {
    "model-" + NatToString(n) + ".pth"
  }

  /** `s.replace(pat, rep)`: every occurrence of pat, scanning left to right
      without overlaps, replaced by rep. */
  function ReplaceAll(s: string, pat: string, rep: string): (t: string)
    requires |pat| > 0
    decreases |s|
  {
    if |s| < |pat| then s
    else if s[..|pat|] == pat then rep + ReplaceAll(s[|pat|..], pat, rep)
    else [s[0]] + ReplaceAll(s[1..], pat, rep)
  }

  /** A text in which the first character of pat never occurs is left alone,
      and so is whatever follows it. */
  lemma {:induction false} ReplaceAllSkips(a: string, b: string, pat: string, rep: string)
    requires |pat| > 0 && pat[0] !in a
    ensures ReplaceAll(a + b, pat, rep) == a + ReplaceAll(b, pat, rep)
    decreases |a|
  {
    if a != [] {
      var s := a + b;
      if |s| < |pat| {
        ReplaceAllShort(b, pat, rep);
      } else {
        assert s[..|pat|] != pat by {
          assert s[0] == a[0];
        }
        assert s[1..] == a[1..] + b;
        ReplaceAllSkips(a[1..], b, pat, rep);
      }
    } else {
      assert a + b == b;
    }
  }

  lemma ReplaceAllShort(s: string, pat: string, rep: string)
    requires 0 < |pat| && |s| < |pat|
    ensures ReplaceAll(s, pat, rep) == s
  {
  }

  lemma ReplaceAllNoOccurrence(s: string, pat: string, rep: string)
    requires |pat| > 0 && pat[0] !in s
    ensures ReplaceAll(s, pat, rep) == s
  {
    ReplaceAllSkips(s, "", pat, rep);
    assert s + "" == s;
    ReplaceAllShort("", pat, rep);
  }

  /** The ASCII characters Python counts as white space. */
  predicate IsSpace(c: char) {
    c == ' ' || '\t' <= c <= '\r' || '\U{1c}' <= c <= '\U{1f}'
  }

  /** `s.strip()` on ASCII white space. */
  function Strip(s: string): (t: string)
    ensures |t| <= |s|
    ensures |t| > 0 ==> !IsSpace(t[0]) && !IsSpace(t[|t| - 1])
    decreases |s|
  {
    if |s| > 0 && IsSpace(s[0]) then Strip(s[1..])
    else if |s| > 0 && IsSpace(s[|s| - 1]) then Strip(s[..|s| - 1])
    else s
  }

  /** `int(s)`: surrounding white space, an optional sign, then decimal digits. */
  function ParseInt(text: string): (r: Option<int>)
  {
    var s := Strip(text);
    if |s| > 0 && (s[0] == '-' || s[0] == '+') then
      var body := s[1..];
      if |body| > 0 && AllDigits(body) then
        var v: int := DigitsValue(body);
        Some(if s[0] == '-' then -v else v)
      else None
    else if |s| > 0 && AllDigits(s) then Some(DigitsValue(s))
    else None
  }

  /** `int(name.replace("model-", "").replace(".pth", ""))`, raising
      ValueError when what is left is not a number. */
  function SlotIndexOf(name: string): Result<int> {
    match ParseInt(ReplaceAll(ReplaceAll(name, "model-", ""), ".pth", ""))
    case None => Err(ValueError)
    case Some(n) => Ok(n)
  }

  /** The index written into a slot's file name is read back from it. */
  lemma SlotIndexOfSlotFileName(n: nat)
    ensures SlotIndexOf(SlotFileName(n)) == Ok(n)
  {
    SlotFileNameDigits(n);
    ParseDigits(NatToString(n));
    DigitsValueOfNatToString(n);
  }

  /** Removing "model-" and ".pth" from a slot's file name leaves its digits. */
  lemma SlotFileNameDigits(n: nat)
    ensures ReplaceAll(ReplaceAll(SlotFileName(n), "model-", ""), ".pth", "") == NatToString(n)
  {
    var d := NatToString(n);
    assert ReplaceAll("model-" + d + ".pth", "model-", "") == d + ".pth" by {
      assert 'm' !in d + ".pth";
      assert ("model-" + d + ".pth")[..6] == "model-";
      assert ("model-" + d + ".pth")[6..] == d + ".pth";
      ReplaceAllNoOccurrence(d + ".pth", "model-", "");
    }
    assert ReplaceAll(d + ".pth", ".pth", "") == d by {
      assert '.' !in d;
      ReplaceAllSkips(d, ".pth", ".pth", "");
      assert ".pth"[..4] == ".pth" && ".pth"[4..] == "";
      assert d + "" == d;
    }
  }

  /** A non-empty run of digits parses to its value. */
  lemma ParseDigits(d: string)
    requires |d| > 0 && AllDigits(d)
    ensures ParseInt(d) == Some(DigitsValue(d))
  {
    assert Strip(d) == d;
  }

  /** The starting value of ensemble_model_index for the listed file names:
      one past the largest index found, at least 0, or the error of the first
      name that does not parse. */
  function StartingSlot(names: seq<string>): (r: Result<int>)
  {
    Starting(names, SlotIndexOf)
  }

  /** The scan behind StartingSlot, for any way of reading an index from a
      name. */
  function Starting(names: seq<string>, index: string -> Result<int>): Result<int>
  {
    if names == [] then Ok(0)
    else
      match Starting(names[..|names| - 1], index)
      case Err(e) => Err(e)
      case Ok(i) =>
        match index(names[|names| - 1])
        case Err(e) => Err(e)
        case Ok(m) => Ok(Max(i, m + 1))
  }

  /** The start-up loop over the existing slot files. */
  method StartingSlotIndex(names: seq<string>) returns (r: Result<int>)
    ensures r == StartingSlot(names)
  {
    var index := 0;
    var i := 0;
    while i < |names|
      invariant 0 <= i <= |names|
      invariant Starting(names[..i], SlotIndexOf) == Ok(index)
    {
      assert names[..i + 1][..i] == names[..i];
      var m := SlotIndexOf(names[i]);
      if m.Err? {
        r := Err(m.error);
        StartingErrorPersists(names, SlotIndexOf, i + 1);
        return;
      }
      index := Max(index, m.value + 1);
      i := i + 1;
    }
    assert names[..i] == names;
    r := Ok(index);
  }

  /** Once a prefix of the names fails, the whole list fails the same way. */
  lemma {:induction false} StartingErrorPersists(names: seq<string>, index: string -> Result<int>, n: nat)
    requires n <= |names| && Starting(names[..n], index).Err?
    ensures Starting(names, index) == Starting(names[..n], index)
  {
    if n == |names| {
      assert names[..n] == names;
    } else {
      var l := |names| - 1;
      assert names[..l][..n] == names[..n];
      StartingErrorPersists(names[..l], index, n);
    }
  }

  /** The start-up index fails exactly when some name does not parse;
      otherwise it is non-negative, exceeds every parsed index, and is 0 or
      one past some parsed index. */
  lemma StartingSlotBounds(names: seq<string>)
    ensures StartingSlot(names).Err? <==> exists k :: 0 <= k < |names| && SlotIndexOf(names[k]).Err?
    ensures StartingSlot(names).Ok? ==>
      var i := StartingSlot(names).value;
      && i >= 0
      && (forall k :: 0 <= k < |names| ==> SlotIndexOf(names[k]).value < i)
      && (i == 0 || exists k :: 0 <= k < |names| && SlotIndexOf(names[k]).value + 1 == i)
  {
    StartingBounds(names, SlotIndexOf);
  }

  lemma {:induction false} StartingBounds(names: seq<string>, index: string -> Result<int>)
    ensures Starting(names, index).Err? <==> exists k :: 0 <= k < |names| && index(names[k]).Err?
    ensures Starting(names, index).Ok? ==>
      var i := Starting(names, index).value;
      && i >= 0
      && (forall k :: 0 <= k < |names| ==> index(names[k]).value < i)
      && (i == 0 || exists k :: 0 <= k < |names| && index(names[k]).value + 1 == i)
  {
    if names != [] {
      var l := |names| - 1;
      StartingBounds(names[..l], index);
      assert forall k :: 0 <= k < l ==> names[..l][k] == names[k];
    }
  }

  /** The slot written first by a run never overwrites an existing slot file. */
  lemma StartingSlotIsFresh(names: seq<string>)
    requires StartingSlot(names).Ok?
    ensures StartingSlot(names).value >= 0
    ensures SlotFileName(StartingSlot(names).value) !in names
  {
    StartingSlotBounds(names);
    var i := StartingSlot(names).value;
    if SlotFileName(i) in names {
      var k :| 0 <= k < |names| && names[k] == SlotFileName(i);
      SlotIndexOfSlotFileName(i);
    }
  }
}
