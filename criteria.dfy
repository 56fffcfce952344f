/** The vocabulary the two suggestion apps share: the task and limit filters,
    the `(power, parameters)` ranking, and the bound of a slider, which a
    browser must be able to hold as an integer. */
module Criteria {
  import opened Table
  import opened Text
  import opened Ranking

  /** `JS_MAX_INT = (1 << 53) - 1`, the largest integer a JavaScript number
      holds exactly. */
  const JsMaxInt: int := 9_007_199_254_740_991

  /** The parameter slider counts billions: `param_lim * 1e9`. */
  const ParamScale: int := 1_000_000_000

  /** `df['task'].str.contains(task, case=False, na=False)` for one row. */
  predicate MatchesTask(r: Row, task: string) {
    r.task.Some? && ContainsIgnoringCase(r.task.value, task)
  }

  /** `(power <= power_lim) & (parameters <= param_lim * 1e9)` for one row. */
  predicate WithinLimits(r: Row, powerLim: int, paramLim: int) {
    AtMost(r.power, powerLim) && AtMost(r.params, paramLim * ParamScale)
  }

  /** `sort_values(['training_power_(watts)', 'parameters'])` */
  const SuggestKeys: seq<SortKey> := [SortKey(Power, Ascending), SortKey(Parameters, Ascending)]

  /** `x` may come before `y` in a suggestion list: less power, or equal
      power and no more parameters. */
  predicate LighterOrEqual(x: Row, y: Row) {
    && x.power.Some? && y.power.Some? && x.params.Some? && y.params.Some?
    && (x.power.value < y.power.value
        || (x.power.value == y.power.value && x.params.value <= y.params.value))
  }

  lemma SuggestOrder(x: Row, y: Row)
    requires x.power.Some? && y.power.Some? && x.params.Some? && y.params.Some?
    ensures Before(SuggestKeys, x, y) <==> LighterOrEqual(x, y)
  {
    BeforeTwoColumns(SortKey(Power, Ascending), SortKey(Parameters, Ascending), x, y);
  }

  /** A table sorted by `SuggestKeys` whose rows have both values lists them
      by power, ties broken by parameter count. */
  lemma SortedSuggestions(s: seq<Row>)
    requires SortedBy(SuggestKeys, s)
    requires forall x :: x in s ==> x.power.Some? && x.params.Some?
    ensures forall i, j :: 0 <= i < j < |s| ==> LighterOrEqual(s[i], s[j])
  {
    forall i, j | 0 <= i < j < |s| ensures LighterOrEqual(s[i], s[j]) {
      SuggestOrder(s[i], s[j]);
    }
  }

  /** `df[column].max(skipna=True)`: `None` when every value is absent (NaN). */
  function ColumnMax(t: seq<Row>, c: Column): (m: Option<int>)
    ensures m.None? <==> forall i :: 0 <= i < |t| ==> Value(t[i], c).None?
    ensures m.Some? ==> exists i :: 0 <= i < |t| && Value(t[i], c) == m
    ensures m.Some? ==> forall i :: 0 <= i < |t| && Value(t[i], c).Some? ==> Value(t[i], c).value <= m.value
  {
    if t == [] then None
    else
      var rest := ColumnMax(t[1..], c);
      var v := Value(t[0], c);
      assert forall i :: 1 <= i < |t| ==> t[1..][i - 1] == t[i];
      assert rest.Some? ==> exists i :: 1 <= i < |t| && Value(t[i], c) == rest by {
        if rest.Some? {
          var j :| 0 <= j < |t[1..]| && Value(t[1..][j], c) == rest;
          assert Value(t[j + 1], c) == rest;
        }
      }
      if v.None? then rest
      else if rest.None? || rest.value < v.value then v
      else rest
  }

  /** A slider's upper end and whether the app warns that it was cut. */
  datatype Clamped = Clamped(value: int, warned: bool)

  /** `min(raw, JS_MAX_INT)`, warning exactly when `raw > JS_MAX_INT`. */
  function ClampToJs(raw: int): (c: Clamped)
    ensures c.value <= JsMaxInt && c.value <= raw
    ensures c.value == raw || c.value == JsMaxInt
    ensures c.warned <==> raw > JsMaxInt
  {
    if raw > JsMaxInt then Clamped(JsMaxInt, true) else Clamped(raw, false)
  }

  /** The upper end of the slider over column `c`: the column's maximum cut
      to `JS_MAX_INT`. `None` is the `ValueError` that `int(NaN)` raises when
      the column holds no value at all. */
  function SliderBound(t: seq<Row>, c: Column): (b: Option<Clamped>)
    ensures b.None? <==> forall i :: 0 <= i < |t| ==> Value(t[i], c).None?
    ensures b.Some? ==> b.value.value <= JsMaxInt
    ensures b.Some? ==> (b.value.warned <==> exists i :: 0 <= i < |t| && Value(t[i], c).Some? && Value(t[i], c).value > JsMaxInt)
    ensures b.Some? && b.value.warned ==> b.value.value == JsMaxInt
    ensures b.Some? && !b.value.warned ==>
              && (exists i :: 0 <= i < |t| && Value(t[i], c) == Some(b.value.value))
              && (forall i :: 0 <= i < |t| && Value(t[i], c).Some? ==> Value(t[i], c).value <= b.value.value)
  {
    match ColumnMax(t, c)
    case None => None
    case Some(m) => Some(ClampToJs(m))
  }
}
