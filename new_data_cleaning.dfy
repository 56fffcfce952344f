/** `new_data_cleaning.py`: the thirty runs with the most training power among
    those with both power and compute, the descending bar order, and the
    `task - system` bar labels. */
module NewDataCleaning {
  import opened Table
  import opened Ranking

  /** `dropna(subset=['training_power_(watts)', 'training_compute_(flop)'])`
      for one row. */
  predicate Plottable(r: Row) {
    r.power.Some? && r.compute.Some?
  }

  /** Ordering by power, largest first. */
  const PowerDescending: seq<SortKey> := [SortKey(Power, Descending)]

  /** How many runs the bar charts show. */
  const BarCount: nat := 30

  lemma PowerOrder(x: Row, y: Row)
    requires x.power.Some? && y.power.Some?
    ensures Before(PowerDescending, x, y) <==> x.power.value >= y.power.value
  {
    BeforeOneColumn(SortKey(Power, Descending), x, y);
  }

  /** From the most power down, every row having a power value. */
  predicate ByPowerDescending(s: seq<Row>) {
    forall i, j :: 0 <= i < j < |s| ==>
      s[i].power.Some? && s[j].power.Some? && s[i].power.value >= s[j].power.value
  }

  lemma SelectionIsSound(complete: seq<Row>, top: seq<Row>)
    requires forall x :: multiset(complete)[x] > 0 ==> Plottable(x)
    requires multiset(top) <= multiset(complete) && SortedBy(PowerDescending, top)
    ensures forall x :: x in top ==> Plottable(x)
    ensures ByPowerDescending(top)
  {
    forall x | x in top ensures Plottable(x) {
      assert x in multiset(top);
    }
    forall i, j | 0 <= i < j < |top|
      ensures top[i].power.Some? && top[j].power.Some? && top[i].power.value >= top[j].power.value
    {
      assert top[i] in multiset(top) && top[j] in multiset(top);
      assert Before(PowerDescending, top[i], top[j]);
      PowerOrder(top[i], top[j]);
    }
  }

  /** `df.dropna(...).nlargest(30, 'training_power_(watts)')`: at most thirty
      rows, all with power and compute, from the most power down; as many as
      there are such rows when there are fewer than thirty. */
  function Top30(t: seq<Row>): (top: seq<Row>)
    ensures |top| <= BarCount
    ensures |top| == if BarCount < |Filter(Plottable, t)| then BarCount else |Filter(Plottable, t)|
    ensures multiset(top) <= multiset(t)
    ensures forall x :: x in top ==> Plottable(x)
    ensures SortedBy(PowerDescending, top)
    ensures ByPowerDescending(top)
  {
    var complete := Filter(Plottable, t);
    var top := Top(PowerDescending, complete, BarCount);
    SelectionIsSound(complete, top);
    top
  }

  /** No run with both values that was left out has strictly more power
      than a selected one. */
  lemma Top30Optimal(t: seq<Row>, x: Row, y: Row)
    requires x in t && Plottable(x) && x !in Top30(t)
    requires y in Top30(t)
    ensures y.power.value >= x.power.value
  {
    var complete := Filter(Plottable, t);
    var top := Top30(t);
    assert multiset(complete)[x] > 0;
    assert x in multiset(complete) - multiset(top);
    PowerOrder(y, x);
  }

  /** `df_top30.sort_values('training_power_(watts)', ascending=False)` */
  function BarOrder(top: seq<Row>): (bars: seq<Row>)
    ensures multiset(bars) == multiset(top)
    ensures SortedBy(PowerDescending, bars)
  {
    SortBy(PowerDescending, top)
  }

  /** The selection already comes from the most power down, so the bar order
      is the selection itself: the bars run from the most power down. */
  lemma BarOrderOfTop30(t: seq<Row>)
    ensures BarOrder(Top30(t)) == Top30(t)
    ensures ByPowerDescending(BarOrder(Top30(t)))
  {
    SortBySortedIsIdentity(PowerDescending, Top30(t));
  }

  /** `task + ' - ' + system` for one row; pandas gives NaN when either part
      is NaN. */
  function Label(r: Row): (l: Option<string>)
    ensures l.Some? <==> r.task.Some? && r.system.Some?
    ensures l.Some? ==>
              var n := |r.task.value|;
              && |l.value| == n + 3 + |r.system.value|
              && l.value[..n] == r.task.value
              && l.value[n..n + 3] == " - "
              && l.value[n + 3..] == r.system.value
  {
    if r.task.Some? && r.system.Some? then Some(r.task.value + " - " + r.system.value) else None
  }

  /** `df_sorted['task'] + ' - ' + df_sorted['system']`: one label per bar,
      in bar order. */
  function Labels(bars: seq<Row>): (ls: seq<Option<string>>)
    ensures |ls| == |bars|
    ensures forall i :: 0 <= i < |bars| ==> ls[i] == Label(bars[i])
  {
    if bars == [] then [] else [Label(bars[0])] + Labels(bars[1..])
  }
}
