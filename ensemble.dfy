/** The choice of ensemble members in load_ensemble_model (train.py): a
    dictionary from validation precision to model, kept to the k best. */
module Ensemble {

  import opened Common

  /** One entry of score_to_model; the model is named by its position in the
      list of candidates. */
  datatype Entry = Entry(score: real, candidate: nat)

  /** The state of the loop: the dictionary, in insertion order, and
      best_model. */
  datatype Selection = Selection(entries: seq<Entry>, best: Option<nat>)

  /** `score_to_model.keys()`. */
  function Keys(d: seq<Entry>): set<real>
  {
    set i | 0 <= i < |d| :: d[i].score
  }

  /** A dictionary has each key once. */
  predicate DistinctKeys(d: seq<Entry>) {
    forall i, j :: 0 <= i < j < |d| ==> d[i].score != d[j].score
  }

  /** `min(score_to_model.keys())`. */
  function MinKey(d: seq<Entry>): (m: real)
    requires |d| > 0
    ensures m in Keys(d)
    ensures forall i :: 0 <= i < |d| ==> m <= d[i].score
  {
    if |d| == 1 then d[0].score
    else
      var m := MinKey(d[..|d| - 1]);
      if d[|d| - 1].score < m then d[|d| - 1].score else m
  }

  /** `max(score_to_model.keys())`. */
  function MaxKey(d: seq<Entry>): (m: real)
    requires |d| > 0
    ensures m in Keys(d)
    ensures forall i :: 0 <= i < |d| ==> d[i].score <= m
  {
    if |d| == 1 then d[0].score
    else
      var m := MaxKey(d[..|d| - 1]);
      if d[|d| - 1].score > m then d[|d| - 1].score else m
  }

  /** `del score_to_model[key]`. */
  function Remove(d: seq<Entry>, key: real): (r: seq<Entry>)
    ensures |r| <= |d|
    ensures forall e :: e in r <==> e in d && e.score != key
  {
    if d == [] then []
    else
      var init := Remove(d[..|d| - 1], key);
      var last := d[|d| - 1];
      assert d == d[..|d| - 1] + [last];
      if last.score == key then init else init + [last]
  }

  /** `score_to_model[key] = candidate`: an existing key keeps its place and
      gets the new model, a new key goes to the end. */
  function Put(d: seq<Entry>, key: real, candidate: nat): (r: seq<Entry>)
    ensures |r| > 0
    ensures key in Keys(d) ==> |r| == |d|
    ensures key !in Keys(d) ==> r == d + [Entry(key, candidate)]
    ensures forall i :: 0 <= i < |r| ==> r[i] == (if i < |d| && d[i].score != key then d[i] else Entry(key, candidate))
  {
    if key in Keys(d) then
      seq(|d|, i requires 0 <= i < |d| => if d[i].score == key then Entry(key, candidate) else d[i])
    else d + [Entry(key, candidate)]
  }

  /** Whether a precision s enters a dictionary that may hold k entries:
      always while it is short, otherwise when s beats its lowest key (`min`
      of no keys raises ValueError). */
  function Admission(d: seq<Entry>, k: int, s: real): (r: Result<bool>)
    ensures r.Err? <==> |d| >= k && d == []
    ensures r.Ok? ==> (r.value <==> |d| < k || MinKey(d) < s)
  {
    if |d| < k then Ok(true)
    else if d == [] then Err(ValueError)
    else Ok(MinKey(d) < s)
  }

  /** The dictionary before an admitted key is stored: the lowest key is
      deleted when it already holds k entries. */
  function Evict(d: seq<Entry>, k: int): (r: seq<Entry>)
    requires |d| < k || d != []
    ensures forall e :: e in r ==> e in d
    ensures |d| < k ==> r == d
    ensures |d| >= k && DistinctKeys(d) ==>
      DistinctKeys(r) && Keys(r) == Keys(d) - {MinKey(d)} && |r| == |d| - 1
  {
    if |d| >= k then
      var m := MinKey(d);
      assert DistinctKeys(d) ==>
        DistinctKeys(Remove(d, m)) && Keys(Remove(d, m)) == Keys(d) - {m} && |Remove(d, m)| == |d| - 1 by {
        if DistinctKeys(d) {
          RemoveFacts(d, m);
        }
      }
      Remove(d, m)
    else d
  }

  /** The dictionary after the candidate at position c with score s is
      offered, or the ValueError of admission. */
  function Stored(d: seq<Entry>, k: int, s: real, c: nat): (r: Result<seq<Entry>>)
    ensures r.Err? <==> Admission(d, k, s).Err?
    ensures r.Ok? ==> r.value != []
    ensures r.Ok? && !Admission(d, k, s).value ==> r.value == d
    ensures r.Ok? && Admission(d, k, s).value ==> Entry(s, c) in r.value
    ensures r.Ok? && Admission(d, k, s).value && DistinctKeys(d) ==>
      && DistinctKeys(r.value)
      && Keys(r.value) == (if |d| >= k then Keys(d) - {MinKey(d)} else Keys(d)) + {s}
  {
    match Admission(d, k, s)
    case Err(e) => Err(e)
    case Ok(admit) =>
      if !admit then Ok(d)
      else
        var e := Evict(d, k);
        assert Entry(s, c) in Put(e, s, c) by {
          PutStores(e, s, c);
        }
        assert DistinctKeys(d) ==> DistinctKeys(Put(e, s, c)) && Keys(Put(e, s, c)) == Keys(e) + {s} by {
          if DistinctKeys(d) {
            PutFacts(e, s, c);
          }
        }
        Ok(Put(e, s, c))
  }

  /** One pass of the loop body for the candidate at position c with score
      s.  Once admission has not raised, the dictionary is non-empty (an
      admitted key was just stored, a rejected one met a full dictionary), so
      the `max` of its keys never raises. */
  function Step(st: Selection, k: int, s: real, c: nat): (r: Result<Selection>)
  {
    match Stored(st.entries, k, s, c)
    case Err(e) => Err(e)
    case Ok(d') => Ok(Selection(d', if st.best.None? || s > MaxKey(d') then Some(c) else st.best))
  }

  /** The state reached from st by the candidates from position i on, one
      `step` each, or the error the first failing one raises. */
  function SelectFrom(step: (Selection, int, real, nat) -> Result<Selection>, st: Selection,
                      scores: seq<real>, k: int, i: nat): Result<Selection>
    requires i <= |scores|
    decreases |scores| - i
  {
    if i == |scores| then Ok(st)
    else
      match step(st, k, scores[i], i)
      case Err(e) => Err(e)
      case Ok(next) => SelectFrom(step, next, scores, k, i + 1)
  }

  /** The selection after the given scores, one per candidate in order. */
  function Select(scores: seq<real>, k: int): Result<Selection> {
    SelectFrom(Step, Selection([], None), scores, k, 0)
  }

  /** The loop of load_ensemble_model over the candidates' precisions. */
  method SelectEnsemble(scores: seq<real>, k: int) returns (r: Result<Selection>)
    ensures r == Select(scores, k)
  {
    var entries: seq<Entry> := [];
    var best: Option<nat> := None;
    var i := 0;
    while i < |scores|
      invariant 0 <= i <= |scores|
      invariant SelectFrom(Step, Selection(entries, best), scores, k, i) == Select(scores, k)
    {
      var next := Offer(entries, best, k, scores[i], i);
      if next.Err? {
        return next;
      }
      entries, best := next.value.entries, next.value.best;
      i := i + 1;
    }
    r := Ok(Selection(entries, best));
  }

  /** The loop body for the candidate at position c with precision s. */
  method Offer(entries: seq<Entry>, best: Option<nat>, k: int, s: real, c: nat) returns (r: Result<Selection>)
    ensures r == Step(Selection(entries, best), k, s, c)
  {
    var d := entries;
    var admit := |d| < k;
    if !admit {
      if d == [] {
        return Err(ValueError);
      }
      admit := MinKey(d) < s;
    }
    if admit {
      if |d| >= k {
        d := Remove(d, MinKey(d));
      }
      assert d == Evict(entries, k);
      d := Put(d, s, c);
    }
    var newBest := best;
    if best.None? {
      newBest := Some(c);
    } else if s > MaxKey(d) {
      newBest := Some(c);
    }
    r := Ok(Selection(d, newBest));
  }

  /** With k <= 0 the first candidate already raises ValueError: the
      dictionary is empty and not shorter than k, so `min` of its keys fails. */
  lemma NonPositiveKRaises(scores: seq<real>, k: int)
    requires k <= 0 && |scores| > 0
    ensures Select(scores, k) == Err(ValueError)
  {
  }

  lemma RemoveFacts(d: seq<Entry>, key: real)
    requires DistinctKeys(d)
    ensures DistinctKeys(Remove(d, key))
    ensures Keys(Remove(d, key)) == Keys(d) - {key}
    ensures |Remove(d, key)| == if key in Keys(d) then |d| - 1 else |d|
  {
    RemoveKeys(d, key);
    RemoveKeepsDistinct(d, key);
    RemoveLength(d, key);
  }

  lemma KeysSnoc(d: seq<Entry>, e: Entry)
    ensures Keys(d + [e]) == Keys(d) + {e.score}
  {
    var de := d + [e];
    forall x ensures x in Keys(de) <==> x in Keys(d) + {e.score} {
      if x in Keys(d) {
        var i :| 0 <= i < |d| && d[i].score == x;
        assert de[i] == d[i];
      }
      if x == e.score {
        assert de[|d|] == e;
      }
      if x in Keys(de) {
        var i :| 0 <= i < |de| && de[i].score == x;
        if i < |d| {
          assert de[i] == d[i];
        }
      }
    }
  }

  lemma {:induction false} RemoveKeys(d: seq<Entry>, key: real)
    ensures Keys(Remove(d, key)) == Keys(d) - {key}
  {
    if d != [] {
      var l := |d| - 1;
      RemoveKeys(d[..l], key);
      if d[l].score != key {
        KeysSnoc(Remove(d[..l], key), d[l]);
      }
    }
  }

  lemma {:induction false} RemoveKeepsDistinct(d: seq<Entry>, key: real)
    requires DistinctKeys(d)
    ensures DistinctKeys(Remove(d, key))
  {
    if d != [] {
      var l := |d| - 1;
      var init := d[..l];
      assert DistinctKeys(init) by {
        assert forall i :: 0 <= i < l ==> init[i] == d[i];
      }
      RemoveKeepsDistinct(init, key);
      if d[l].score != key {
        RemoveKeys(init, key);
        assert d[l].score !in Keys(init);
        AppendKeepsDistinct(Remove(init, key), d[l]);
      }
    }
  }

  lemma {:induction false} RemoveLength(d: seq<Entry>, key: real)
    requires DistinctKeys(d)
    ensures |Remove(d, key)| == if key in Keys(d) then |d| - 1 else |d|
  {
    if d != [] {
      var l := |d| - 1;
      var init := d[..l];
      assert DistinctKeys(init) by {
        assert forall i :: 0 <= i < l ==> init[i] == d[i];
      }
      RemoveLength(init, key);
      assert d[l].score !in Keys(init);
    }
  }

  lemma AppendKeepsDistinct(d: seq<Entry>, e: Entry)
    requires DistinctKeys(d) && e.score !in Keys(d)
    ensures DistinctKeys(d + [e])
  {
  }

  lemma PutFacts(d: seq<Entry>, key: real, c: nat)
    requires DistinctKeys(d)
    ensures DistinctKeys(Put(d, key, c))
    ensures Keys(Put(d, key, c)) == Keys(d) + {key}
    ensures Entry(key, c) in Put(d, key, c)
  {
    var r := Put(d, key, c);
    if key in Keys(d) {
      assert forall i :: 0 <= i < |d| ==> r[i].score == d[i].score;
    }
    PutStores(d, key, c);
  }

  /** A stored key holds the candidate just stored under it. */
  lemma PutStores(d: seq<Entry>, key: real, c: nat)
    ensures Entry(key, c) in Put(d, key, c)
  {
    var r := Put(d, key, c);
    if key in Keys(d) {
      var i :| 0 <= i < |d| && d[i].score == key;
      assert r[i] == Entry(key, c);
    } else {
      assert r[|d|] == Entry(key, c);
    }
  }

  /** The dictionary's keys are distinct and each entry holds the candidate
      (among the first n) whose precision is its key. */
  predicate Consistent(d: seq<Entry>, scores: seq<real>, n: nat) {
    && DistinctKeys(d)
    && forall m :: 0 <= m < |d| ==> d[m].candidate < n <= |scores| && scores[d[m].candidate] == d[m].score
  }

  /** The loop state after n candidates, for k >= 1. */
  predicate Reachable(st: Selection, scores: seq<real>, k: int, n: nat) {
    && n <= |scores|
    && Consistent(st.entries, scores, n)
    && |st.entries| <= k
    && (n == 0 ==> st == Selection([], None))
    && (n > 0 ==> st.entries != [] && st.best == Some(0))
  }

  lemma StepKeepsReachable(st: Selection, scores: seq<real>, k: int, i: nat)
    requires k >= 1 && i < |scores| && Reachable(st, scores, k, i)
    ensures Step(st, k, scores[i], i).Ok?
    ensures Reachable(Step(st, k, scores[i], i).value, scores, k, i + 1)
  {
    var d := st.entries;
    var s := scores[i];
    if |d| < k || MinKey(d) < s {
      AdmitKeepsConsistent(d, scores, k, i);
    } else {
      assert Consistent(d, scores, i + 1);
    }
  }

  /** Storing an admitted precision keeps the dictionary consistent, within
      k entries, and holding the new key. */
  lemma AdmitKeepsConsistent(d: seq<Entry>, scores: seq<real>, k: int, i: nat)
    requires k >= 1 && i < |scores| && Consistent(d, scores, i) && |d| <= k
    requires |d| < k || MinKey(d) < scores[i]
    ensures var d' := Put(Evict(d, k), scores[i], i);
      && Consistent(d', scores, i + 1) && 0 < |d'| <= k && scores[i] in Keys(d')
  {
    var s := scores[i];
    var base := Evict(d, k);
    if |d| >= k {
      RemoveFacts(d, MinKey(d));
    }
    assert DistinctKeys(base) && |base| < k;
    PutFacts(base, s, i);
    var d' := Put(base, s, i);
    forall m | 0 <= m < |d'| ensures d'[m].candidate < i + 1 && scores[d'[m].candidate] == d'[m].score {
      if d'[m] != Entry(s, i) {
        assert d'[m] in base;
      }
    }
  }

  /** Induction over the loop: a property of the state that the initial
      state has and that every step keeps holds of the result. */
  lemma {:induction false} SelectFromInduction(step: (Selection, int, real, nat) -> Result<Selection>,
                                               inv: (Selection, nat) -> bool, st: Selection,
                                               scores: seq<real>, k: int, i: nat)
    requires i <= |scores| && inv(st, i)
    requires forall s: Selection, j: nat :: j < |scores| && inv(s, j) ==>
      step(s, k, scores[j], j).Ok? && inv(step(s, k, scores[j], j).value, j + 1)
    ensures SelectFrom(step, st, scores, k, i).Ok?
    ensures inv(SelectFrom(step, st, scores, k, i).value, |scores|)
    decreases |scores| - i
  {
    if i < |scores| {
      SelectFromInduction(step, inv, step(st, k, scores[i], i).value, scores, k, i + 1);
    }
  }

  lemma SelectionReachable(scores: seq<real>, k: int)
    requires k >= 1
    ensures Select(scores, k).Ok?
    ensures Reachable(Select(scores, k).value, scores, k, |scores|)
  {
    var inv := (st: Selection, i: nat) => i <= |scores| && Reachable(st, scores, k, i);
    forall st: Selection, i: nat | i < |scores| && inv(st, i)
      ensures Step(st, k, scores[i], i).Ok? && inv(Step(st, k, scores[i], i).value, i + 1)
    {
      StepKeepsReachable(st, scores, k, i);
    }
    SelectFromInduction(Step, inv, Selection([], None), scores, k, 0);
  }

  /** For k >= 1 the selection never raises, never holds more than k entries,
      holds the model of each of its keys, and best_model is the first
      candidate. */
  lemma SelectionBounds(scores: seq<real>, k: int)
    requires k >= 1
    ensures Select(scores, k).Ok?
    ensures var st := Select(scores, k).value;
      && |st.entries| <= k
      && DistinctKeys(st.entries)
      && (forall m :: 0 <= m < |st.entries| ==>
            st.entries[m].candidate < |scores| && scores[st.entries[m].candidate] == st.entries[m].score)
      && (|scores| > 0 ==> st.best == Some(0))
      && (|scores| == 0 ==> st == Selection([], None))
  {
    SelectionReachable(scores, k);
  }

  predicate DistinctScores(scores: seq<real>) {
    forall i, j :: 0 <= i < j < |scores| ==> scores[i] != scores[j]
  }

  /** The precisions of the first n candidates. */
  function Seen(scores: seq<real>, n: nat): set<real>
    requires n <= |scores|
  {
    set j | 0 <= j < n :: scores[j]
  }

  lemma SeenSnoc(scores: seq<real>, n: nat)
    requires n < |scores|
    ensures Seen(scores, n + 1) == Seen(scores, n) + {scores[n]}
  {
  }

  /** After n candidates with distinct precisions the keys are the n
      precisions when n <= k, and otherwise k of them that beat every
      precision left out. */
  predicate TopK(d: seq<Entry>, scores: seq<real>, k: int, n: nat)
    requires n <= |scores|
  {
    && |d| == Min(k, n)
    && (n <= k ==> Seen(scores, n) <= Keys(d))
    && forall x, y :: x in Seen(scores, n) && y in Keys(d) && x !in Keys(d) ==> x < y
  }

  lemma StepKeepsTopK(st: Selection, scores: seq<real>, k: int, i: nat)
    requires k >= 1 && i < |scores| && DistinctScores(scores)
    requires Reachable(st, scores, k, i) && TopK(st.entries, scores, k, i)
    ensures Step(st, k, scores[i], i).Ok?
    ensures TopK(Step(st, k, scores[i], i).value.entries, scores, k, i + 1)
  {
    StepKeepsReachable(st, scores, k, i);
    var d := st.entries;
    var s := scores[i];
    assert s !in Keys(d);
    SeenSnoc(scores, i);
    if |d| < k {
      assert Step(st, k, s, i).value.entries == d + [Entry(s, i)];
      TopKAfterAppend(d, scores, k, i);
    } else if MinKey(d) < s {
      var low := MinKey(d);
      var d' := Put(Remove(d, low), s, i);
      assert Step(st, k, s, i).value.entries == d';
      RemoveFacts(d, low);
      PutFacts(Remove(d, low), s, i);
      TopKAfterEvict(d, d', scores, k, i);
    } else {
      assert Step(st, k, s, i).value.entries == d;
      TopKAfterReject(d, scores, k, i);
    }
  }

  /** Fewer than k entries: the new precision is added. */
  lemma TopKAfterAppend(d: seq<Entry>, scores: seq<real>, k: int, i: nat)
    requires i < |scores| && |d| < k && TopK(d, scores, k, i)
    requires Seen(scores, i + 1) == Seen(scores, i) + {scores[i]}
    ensures TopK(d + [Entry(scores[i], i)], scores, k, i + 1)
  {
    KeysSnoc(d, Entry(scores[i], i));
  }

  /** k entries and a better precision: the lowest key is evicted. */
  lemma TopKAfterEvict(d: seq<Entry>, d': seq<Entry>, scores: seq<real>, k: int, i: nat)
    requires i < |scores| && |d| == k >= 1 && TopK(d, scores, k, i)
    requires MinKey(d) < scores[i]
    requires Keys(d') == Keys(d) - {MinKey(d)} + {scores[i]} && |d'| == |d|
    requires Seen(scores, i + 1) == Seen(scores, i) + {scores[i]}
    ensures TopK(d', scores, k, i + 1)
  {
    var low := MinKey(d);
    forall x, y | x in Seen(scores, i + 1) && y in Keys(d') && x !in Keys(d') ensures x < y {
      if y != scores[i] {
        var m :| 0 <= m < |d| && d[m].score == y;
      }
      if x != low {
        assert x < low;
      }
    }
  }

  /** k entries and no better precision: nothing changes. */
  lemma TopKAfterReject(d: seq<Entry>, scores: seq<real>, k: int, i: nat)
    requires i < |scores| && |d| == k >= 1 && TopK(d, scores, k, i)
    requires scores[i] <= MinKey(d) && scores[i] !in Keys(d)
    requires Seen(scores, i + 1) == Seen(scores, i) + {scores[i]}
    ensures TopK(d, scores, k, i + 1)
  {
    forall y | y in Keys(d) ensures scores[i] < y {
      var m :| 0 <= m < |d| && d[m].score == y;
    }
  }

  lemma SelectionTopK(scores: seq<real>, k: int)
    requires k >= 1 && DistinctScores(scores)
    ensures Select(scores, k).Ok?
    ensures TopK(Select(scores, k).value.entries, scores, k, |scores|)
  {
    var inv := (st: Selection, i: nat) => i <= |scores| && Reachable(st, scores, k, i) && TopK(st.entries, scores, k, i);
    forall st: Selection, i: nat | i < |scores| && inv(st, i)
      ensures Step(st, k, scores[i], i).Ok? && inv(Step(st, k, scores[i], i).value, i + 1)
    {
      StepKeepsReachable(st, scores, k, i);
      StepKeepsTopK(st, scores, k, i);
    }
    SelectFromInduction(Step, inv, Selection([], None), scores, k, 0);
  }

  /** With distinct precisions the ensemble holds exactly the min(k, n) best
      candidates: every candidate left out scored below every one kept. */
  lemma DistinctScoresSelectTopK(scores: seq<real>, k: int)
    requires k >= 1 && DistinctScores(scores)
    ensures Select(scores, k).Ok?
    ensures var d := Select(scores, k).value.entries;
      && |d| == Min(k, |scores|)
      && (forall m :: 0 <= m < |d| ==> d[m].candidate < |scores| && scores[d[m].candidate] == d[m].score)
      && (forall j, m :: 0 <= j < |scores| && 0 <= m < |d| && scores[j] !in Keys(d) ==> scores[j] < d[m].score)
  {
    SelectionTopK(scores, k);
    SelectionReachable(scores, k);
    var d := Select(scores, k).value.entries;
    assert TopK(d, scores, k, |scores|);
    forall j, m | 0 <= j < |scores| && 0 <= m < |d| && scores[j] !in Keys(d) ensures scores[j] < d[m].score {
      assert scores[j] in Seen(scores, |scores|);
      assert d[m].score in Keys(d);
    }
  }

  /** Equal precisions share one key: the later model replaces the earlier
      one, and with k = 2 two candidates give an ensemble of one. */
  lemma EqualScoresOverwrite()
    ensures Select([0.5, 0.5], 2) == Ok(Selection([Entry(0.5, 1)], Some(0)))
  {
    var scores := [0.5, 0.5];
    var d1 := [Entry(0.5, 0)];
    var last := Selection([Entry(0.5, 1)], Some(0));
    FirstStep(0.5, 2);
    assert Put(d1, 0.5, 1) == [Entry(0.5, 1)] by {
      assert 0.5 in Keys(d1) by { assert d1[0].score == 0.5; }
    }
    assert MaxKey([Entry(0.5, 1)]) == 0.5;
    assert Step(Selection(d1, Some(0)), 2, 0.5, 1) == Ok(last);
    assert SelectFrom(Step, Selection(d1, Some(0)), scores, 2, 1) == Ok(last);
  }

  /** The first candidate is always taken, when k >= 1. */
  lemma FirstStep(s: real, k: int)
    requires k >= 1
    ensures Step(Selection([], None), k, s, 0) == Ok(Selection([Entry(s, 0)], Some(0)))
  {
    assert Put([], s, 0) == [Entry(s, 0)];
  }

  /** An equal precision can evict a different entry and then overwrite the
      key it shares, so the ensemble shrinks below k: with k = 2 and
      precisions a < b, b the ensemble keeps one model. */
  lemma EqualScoreShrinksEnsemble(a: real, b: real)
    requires a < b
    ensures Select([a, b, b], 2) == Ok(Selection([Entry(b, 2)], Some(0)))
  {
    var scores := [a, b, b];
    var s1 := Selection([Entry(a, 0)], Some(0));
    var s2 := Selection([Entry(a, 0), Entry(b, 1)], Some(0));
    var s3 := Selection([Entry(b, 2)], Some(0));
    FirstStep(a, 2);
    AppendSecond(a, b);
    EvictThenOverwrite(a, b);
    assert SelectFrom(Step, s3, scores, 2, 3) == Ok(s3);
    assert SelectFrom(Step, s2, scores, 2, 2) == Ok(s3);
    assert SelectFrom(Step, s1, scores, 2, 1) == Ok(s3);
  }

  lemma EvictThenOverwrite(a: real, b: real)
    requires a < b
    ensures Step(Selection([Entry(a, 0), Entry(b, 1)], Some(0)), 2, b, 2) == Ok(Selection([Entry(b, 2)], Some(0)))
  {
    var d2 := [Entry(a, 0), Entry(b, 1)];
    var evicted := [Entry(b, 1)];
    assert MinKey(d2) == a by {
      assert d2[..1] == [Entry(a, 0)];
    }
    assert Remove(d2, a) == evicted by {
      assert d2[..1] == [Entry(a, 0)];
      assert Remove([Entry(a, 0)], a) == [] by {
        assert [Entry(a, 0)][..0] == [];
      }
    }
    assert Put(evicted, b, 2) == [Entry(b, 2)] by {
      assert evicted[0].score == b;
    }
    assert MaxKey([Entry(b, 2)]) == b;
  }

  lemma AppendSecond(a: real, b: real)
    requires a < b
    ensures Step(Selection([Entry(a, 0)], Some(0)), 2, b, 1) == Ok(Selection([Entry(a, 0), Entry(b, 1)], Some(0)))
  {
    var d1 := [Entry(a, 0)];
    var d2 := [Entry(a, 0), Entry(b, 1)];
    assert Admission(d1, 2, b) == Ok(true);
    assert Evict(d1, 2) == d1;
    assert Put(d1, b, 1) == d2 by {
      assert b !in Keys(d1);
    }
    assert MaxKey(d2) == b by {
      assert d2[..1] == d1;
    }
  }

  // ---------------------------------------------------------------------
  // best_model

  /** As written, best_model can be a model the ensemble no longer holds:
      with k = 1 and precisions 0.1 then 0.9, the second candidate replaces
      the first in the dictionary, yet best_model stays the first. */
  lemma BestModelMissesBetterCandidate()
    ensures Select([0.1, 0.9], 1) == Ok(Selection([Entry(0.9, 1)], Some(0)))
  {
    var scores := [0.1, 0.9];
    var s1 := Selection([Entry(0.1, 0)], Some(0));
    var s2 := Selection([Entry(0.9, 1)], Some(0));
    FirstStep(0.1, 1);
    ReplaceOnlyEntry(0.1, 0.9);
    assert SelectFrom(Step, s2, scores, 1, 2) == Ok(s2);
    assert SelectFrom(Step, s1, scores, 1, 1) == Ok(s2);
  }

  lemma ReplaceOnlyEntry(a: real, b: real)
    requires a < b
    ensures Step(Selection([Entry(a, 0)], Some(0)), 1, b, 1) == Ok(Selection([Entry(b, 1)], Some(0)))
  {
    var d1 := [Entry(a, 0)];
    assert Remove(d1, a) == [] by {
      assert d1[..0] == [];
    }
    assert Put([], b, 1) == [Entry(b, 1)];
    assert MaxKey([Entry(b, 1)]) == b;
  }

  /** The loop body with best_model compared against the keys held before
      the candidate's precision is stored, so that a strictly better candidate
      becomes best_model; the dictionary is updated as written. */
  function IntendedStep(st: Selection, k: int, s: real, c: nat): (r: Result<Selection>)
  {
    var d := st.entries;
    match Stored(d, k, s, c)
    case Err(e) => Err(e)
    case Ok(d') => Ok(Selection(d', if st.best.None? || d == [] || s > MaxKey(d) then Some(c) else st.best))
  }

  /** The selection with the intended best_model. */
  function IntendedSelect(scores: seq<real>, k: int): Result<Selection> {
    SelectFrom(IntendedStep, Selection([], None), scores, k, 0)
  }

  /** After n > 0 candidates best_model is the first of them with the highest
      precision, and the dictionary holds that precision. */
  predicate BestSoFar(st: Selection, scores: seq<real>, n: nat)
    requires n <= |scores|
  {
    n > 0 ==>
      && st.best.Some? && st.best.value < n
      && scores[st.best.value] in Keys(st.entries)
      && (forall j :: 0 <= j < n ==> scores[j] <= scores[st.best.value])
      && (forall j :: 0 <= j < st.best.value ==> scores[j] < scores[st.best.value])
  }

  /** The state of the intended loop after n candidates, for k >= 1. */
  predicate IntendedReachable(st: Selection, scores: seq<real>, k: int, n: nat) {
    && n <= |scores|
    && Consistent(st.entries, scores, n)
    && |st.entries| <= k
    && (n == 0 ==> st == Selection([], None))
    && (n > 0 ==> st.entries != [])
    && BestSoFar(st, scores, n)
  }

  lemma IntendedStepKeepsReachable(st: Selection, scores: seq<real>, k: int, i: nat)
    requires k >= 1 && i < |scores| && IntendedReachable(st, scores, k, i)
    ensures IntendedStep(st, k, scores[i], i).Ok?
    ensures IntendedReachable(IntendedStep(st, k, scores[i], i).value, scores, k, i + 1)
  {
    StoredFacts(st.entries, scores, k, i);
    IntendedStepKeepsBest(st, scores, k, i);
  }

  lemma IntendedStepKeepsBest(st: Selection, scores: seq<real>, k: int, i: nat)
    requires k >= 1 && i < |scores| && IntendedReachable(st, scores, k, i)
    ensures IntendedStep(st, k, scores[i], i).Ok?
    ensures BestSoFar(IntendedStep(st, k, scores[i], i).value, scores, i + 1)
  {
    var d := st.entries;
    StoredFacts(d, scores, k, i);
    var d' := Stored(d, k, scores[i], i).value;
    if i > 0 {
      HeldBestIsMaxKey(st, scores, i);
    }
    BestAfterStore(d, d', st.best, scores, k, i);
  }

  /** The precision of the intended best_model is the largest key held. */
  lemma HeldBestIsMaxKey(st: Selection, scores: seq<real>, n: nat)
    requires 0 < n <= |scores| && st.entries != [] && Consistent(st.entries, scores, n) && BestSoFar(st, scores, n)
    ensures MaxKey(st.entries) == scores[st.best.value]
    ensures MinKey(st.entries) <= MaxKey(st.entries)
  {
    var d := st.entries;
    var top :| 0 <= top < |d| && d[top].score == MaxKey(d);
    assert d[top].candidate < n;
    var at :| 0 <= at < |d| && d[at].score == scores[st.best.value];
  }

  /** The intended comparison, for a store that keeps every key at or above
      the precision offered and holds that precision when it was admitted. */
  lemma BestAfterStore(d: seq<Entry>, d': seq<Entry>, best: Option<nat>, scores: seq<real>, k: int, i: nat)
    requires k >= 1 && i < |scores| && BestSoFar(Selection(d, best), scores, i)
    requires i == 0 ==> d == []
    requires i > 0 ==> d != [] && MaxKey(d) == scores[best.value] && MinKey(d) <= MaxKey(d)
    requires (|d| < k || (d != [] && MinKey(d) < scores[i])) ==> scores[i] in Keys(d')
    requires forall x :: x in Keys(d) && x >= scores[i] ==> x in Keys(d')
    ensures BestSoFar(Selection(d', if best.None? || d == [] || scores[i] > MaxKey(d) then Some(i) else best),
                      scores, i + 1)
  {
    if i > 0 && scores[i] <= MaxKey(d) {
      assert MaxKey(d) in Keys(d);
    }
  }

  /** Offering the next candidate to a consistent dictionary of at most k
      entries never raises, keeps it consistent and within k entries, stores
      an admitted precision, and loses no key at or above the precision
      offered. */
  lemma StoredFacts(d: seq<Entry>, scores: seq<real>, k: int, i: nat)
    requires k >= 1 && i < |scores| && Consistent(d, scores, i) && |d| <= k
    ensures var r := Stored(d, k, scores[i], i);
      && r.Ok? && Consistent(r.value, scores, i + 1) && 0 < |r.value| <= k
      && ((|d| < k || (d != [] && MinKey(d) < scores[i])) ==> scores[i] in Keys(r.value))
      && (forall x :: x in Keys(d) && x >= scores[i] ==> x in Keys(r.value))
  {
    var s := scores[i];
    if |d| < k || MinKey(d) < s {
      AdmitKeepsConsistent(d, scores, k, i);
      var base := Evict(d, k);
      if |d| >= k {
        RemoveFacts(d, MinKey(d));
      }
      PutFacts(base, s, i);
    } else {
      assert Consistent(d, scores, i + 1);
    }
  }

  lemma IntendedSelectionReachable(scores: seq<real>, k: int)
    requires k >= 1
    ensures IntendedSelect(scores, k).Ok?
    ensures IntendedReachable(IntendedSelect(scores, k).value, scores, k, |scores|)
  {
    var inv := (st: Selection, i: nat) => i <= |scores| && IntendedReachable(st, scores, k, i);
    forall st: Selection, i: nat | i < |scores| && inv(st, i)
      ensures IntendedStep(st, k, scores[i], i).Ok? && inv(IntendedStep(st, k, scores[i], i).value, i + 1)
    {
      IntendedStepKeepsReachable(st, scores, k, i);
    }
    SelectFromInduction(IntendedStep, inv, Selection([], None), scores, k, 0);
  }

  /** With the comparison made before storing, best_model is the first
      candidate with the highest precision, and the ensemble holds a model
      of that precision. */
  lemma IntendedBestIsBest(scores: seq<real>, k: int)
    requires k >= 1 && |scores| > 0
    ensures IntendedSelect(scores, k).Ok?
    ensures var st := IntendedSelect(scores, k).value;
      && st.best.Some? && st.best.value < |scores|
      && (forall j :: 0 <= j < |scores| ==> scores[j] <= scores[st.best.value])
      && (forall j :: 0 <= j < st.best.value ==> scores[j] < scores[st.best.value])
      && scores[st.best.value] in Keys(st.entries)
  {
    IntendedSelectionReachable(scores, k);
    assert BestSoFar(IntendedSelect(scores, k).value, scores, |scores|);
  }

  /** The corrected comparison changes best_model only: the ensemble and the
      errors raised are those of the loop as written. */
  lemma IntendedSelectSameEnsemble(scores: seq<real>, k: int)
    ensures Select(scores, k).Err? ==> IntendedSelect(scores, k) == Select(scores, k)
    ensures Select(scores, k).Ok? ==>
      IntendedSelect(scores, k).Ok? && IntendedSelect(scores, k).value.entries == Select(scores, k).value.entries
  {
    SameEntriesFrom(Selection([], None), Selection([], None), scores, k, 0);
  }

  lemma {:induction false} SameEntriesFrom(st: Selection, st': Selection, scores: seq<real>, k: int, i: nat)
    requires i <= |scores| && st.entries == st'.entries
    ensures var a, b := SelectFrom(Step, st, scores, k, i), SelectFrom(IntendedStep, st', scores, k, i);
      && (a.Err? ==> b == a)
      && (a.Ok? ==> b.Ok? && b.value.entries == a.value.entries)
    decreases |scores| - i
  {
    if i < |scores| && Stored(st.entries, k, scores[i], i).Ok? {
      SameEntriesFrom(Step(st, k, scores[i], i).value, IntendedStep(st', k, scores[i], i).value, scores, k, i + 1);
    }
  }
}
