/** `get_suggestions` of the live (uncommented) part of `suggestion_app.py`:
    keep the rows whose task contains the chosen task, ignoring case, whose
    training power and parameter count are within the sliders' limits, then
    list them by power and parameter count and keep the first `k`. */
module SuggestionApp {
  import opened Table
  import opened Ranking
  import opened Criteria

  /** The rows passing both masks of `get_suggestions`, in table order. */
  function Candidates(t: seq<Row>, task: string, powerLim: int, paramLim: int): (c: seq<Row>)
    ensures multiset(c) <= multiset(t)
    ensures forall x :: multiset(c)[x] ==
              if MatchesTask(x, task) && WithinLimits(x, powerLim, paramLim) then multiset(t)[x] else 0
  {
    var byTask := Filter((x: Row) => MatchesTask(x, task), t);
    Filter((x: Row) => WithinLimits(x, powerLim, paramLim), byTask)
  }

  /** `get_suggestions(task, power_lim, param_lim, k)`: `None` when no row
      passes the filters, otherwise the first `k` passing rows by
      `(power, parameters)`. */
  function GetSuggestions(t: seq<Row>, task: string, powerLim: int, paramLim: int, k: nat)
    : (r: Option<seq<Row>>)
    ensures r.None? <==> forall x :: x in t ==> !(MatchesTask(x, task) && WithinLimits(x, powerLim, paramLim))
    ensures r.Some? ==> k > 0 ==> r.value != []
    ensures r.Some? ==> |r.value| <= k
    ensures r.Some? ==> |r.value| == if k < |Candidates(t, task, powerLim, paramLim)| then k
                                      else |Candidates(t, task, powerLim, paramLim)|
    ensures r.Some? ==> multiset(r.value) <= multiset(t)
    ensures r.Some? ==> forall x :: x in r.value ==> MatchesTask(x, task) && WithinLimits(x, powerLim, paramLim)
    ensures r.Some? ==> forall i, j :: 0 <= i < j < |r.value| ==> LighterOrEqual(r.value[i], r.value[j])
  {
    var filtered := Candidates(t, task, powerLim, paramLim);
    CandidatesPass(t, task, powerLim, paramLim);
    if filtered == [] then None
    else
      var top := Top(SuggestKeys, filtered, k);
      TopIsSound(filtered, task, powerLim, paramLim, top);
      Some(top)
  }

  /** The candidates are exactly the passing rows: there are none precisely
      when no row passes, and every candidate passes. */
  lemma CandidatesPass(t: seq<Row>, task: string, powerLim: int, paramLim: int)
    ensures var c := Candidates(t, task, powerLim, paramLim);
      && (c == [] <==> forall x :: x in t ==> !(MatchesTask(x, task) && WithinLimits(x, powerLim, paramLim)))
      && forall x :: x in c ==> MatchesTask(x, task) && WithinLimits(x, powerLim, paramLim)
  {
    var c := Candidates(t, task, powerLim, paramLim);
    forall x | x in c ensures MatchesTask(x, task) && WithinLimits(x, powerLim, paramLim) {
      assert multiset(c)[x] > 0;
    }
    if c == [] {
      forall x | x in t ensures !(MatchesTask(x, task) && WithinLimits(x, powerLim, paramLim)) {
        assert multiset(c)[x] == 0;
      }
    } else {
      assert c[0] in t by {
        assert multiset(c)[c[0]] > 0;
      }
    }
  }

  /** Every row of a sorted selection from passing rows passes, and the
      selection is in `(power, parameters)` order. */
  lemma TopIsSound(filtered: seq<Row>, task: string, powerLim: int, paramLim: int, top: seq<Row>)
    requires forall x :: x in filtered ==> MatchesTask(x, task) && WithinLimits(x, powerLim, paramLim)
    requires multiset(top) <= multiset(filtered) && SortedBy(SuggestKeys, top)
    ensures forall x :: x in top ==> MatchesTask(x, task) && WithinLimits(x, powerLim, paramLim)
    ensures forall i, j :: 0 <= i < j < |top| ==> LighterOrEqual(top[i], top[j])
  {
    forall x | x in top ensures x in filtered {
      assert x in multiset(top);
    }
    SortedSuggestions(top);
  }

  /** Top-K optimality: a passing row that was left out never sorts strictly
      ahead of a suggested one. */
  lemma GetSuggestionsOptimal(t: seq<Row>, task: string, powerLim: int, paramLim: int, k: nat, x: Row, y: Row)
    requires GetSuggestions(t, task, powerLim, paramLim, k).Some?
    requires y in GetSuggestions(t, task, powerLim, paramLim, k).value
    requires x in t && MatchesTask(x, task) && WithinLimits(x, powerLim, paramLim)
    requires x !in GetSuggestions(t, task, powerLim, paramLim, k).value
    ensures LighterOrEqual(y, x)
  {
    var filtered := Candidates(t, task, powerLim, paramLim);
    var top := Top(SuggestKeys, filtered, k);
    assert multiset(filtered)[x] > 0;
    assert x in multiset(filtered) - multiset(top);
    SuggestOrder(y, x);
  }
}
