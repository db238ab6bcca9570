/** The boolean command-line arguments of train.py (str2bool). */
module Args {

  import opened Common

  predicate IsUpper(c: char) {
    'A' <= c <= 'Z'
  }

  /** ASCII lower-casing of one character. */
  function LowerChar(c: char): (d: char)
    ensures !IsUpper(d)
    ensures !IsUpper(c) ==> d == c
    ensures IsUpper(c) ==> d as int == c as int + 32
  {
    if IsUpper(c) then (c as int + 32) as char else c
  }

  /** `v.lower()` on ASCII text. */
  function Lower(s: string): (t: string)
    ensures |t| == |s|
    ensures forall k :: 0 <= k < |t| ==> !IsUpper(t[k])
    ensures forall k :: 0 <= k < |s| ==> (IsUpper(s[k]) <==> t[k] != s[k])
  {
    seq(|s|, k requires 0 <= k < |s| => LowerChar(s[k]))
  }

  const TrueWords: seq<string> := ["yes", "true", "t", "y", "1"]
  const FalseWords: seq<string> := ["no", "false", "f", "n", "0"]

  /** str2bool: true or false for the listed words in any letter case, and
      ArgumentTypeError for every other value. */
  function Str2Bool(v: string): (r: Result<bool>)
    ensures r == Ok(true) <==> Lower(v) in TrueWords
    ensures r == Ok(false) <==> Lower(v) in FalseWords
    ensures r.Err? <==> Lower(v) !in TrueWords + FalseWords
    ensures r.Err? ==> r.error == ArgumentTypeError
  {
    if Lower(v) in TrueWords then Ok(true)
    else if Lower(v) in FalseWords then Ok(false)
    else Err(ArgumentTypeError)
  }

  /** Lower-casing twice is lower-casing once. */
  lemma LowerIdempotent(s: string)
    ensures Lower(Lower(s)) == Lower(s)
  {
  }

  /** Letter case never changes the outcome. */
  lemma Str2BoolIgnoresCase(v: string, w: string)
    requires Lower(v) == Lower(w)
    ensures Str2Bool(v) == Str2Bool(w)
  {
  }

  /** `str(b)` in Python: "True" or "False". */
  function PyBoolString(b: bool): string {
    if b then "True" else "False"
  }

  /** Parsing a printed boolean gives the boolean back. */
  lemma Str2BoolOfPrintedBool(b: bool)
    ensures Str2Bool(PyBoolString(b)) == Ok(b)
  {
    if b {
      assert Lower("True") == "true";
    } else {
      assert Lower("False") == "false";
      assert "false" !in TrueWords;
    }
  }

  /** Upper-case spellings are accepted; "2" and the empty string are not. */
  lemma Str2BoolExamples()
    ensures Str2Bool("YES") == Ok(true)
    ensures Str2Bool("N") == Ok(false)
    ensures Str2Bool("2") == Err(ArgumentTypeError)
    ensures Str2Bool("") == Err(ArgumentTypeError)
  {
    assert Lower("YES") == "yes";
    assert Lower("N") == "n";
    assert "n" !in TrueWords;
    assert Lower("2") == "2";
    assert "2" !in TrueWords + FalseWords;
    assert Lower("") == "";
  }
}
