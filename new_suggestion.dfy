/** `new_suggestion.py`: joining the emissions registry onto the model table
    (`merge_emissions`, exact join first, then a fuzzy fallback on the project
    name), and the Suggest tab's filter, order and cut. */
module NewSuggestion {
  import opened Table
  import opened Text
  import opened Ranking
  import opened Criteria

  /** A similarity ratio, as `difflib.SequenceMatcher.ratio()` returns. */
  type Score = r: real | 0.0 <= r <= 1.0

  /** `get_close_matches(..., cutoff=0.8)` */
  const Cutoff: real := 0.8

  /** One row of the emissions registry (`bloom_emissions.csv`). */
  datatype EmissionsRow = EmissionsRow(projectName: Option<string>, emissions: Option<int>)

  /** The registry, with whether its `project_name` and
      `carbon_emissions_(kg_co2)` columns exist. */
  datatype EmissionsTable = EmissionsTable(hasProjectName: bool, hasEmissions: bool, rows: seq<EmissionsRow>)

  predicate CanJoin(em: EmissionsTable) {
    em.hasProjectName && em.hasEmissions
  }

  /** Every registry row names its project, and no project is named twice,
      so that a pandas left join yields one row per model row. */
  predicate UniqueKeys(rows: seq<EmissionsRow>) {
    && (forall i :: 0 <= i < |rows| ==> rows[i].projectName.Some?)
    && (forall i, j :: 0 <= i < j < |rows| ==> rows[i].projectName != rows[j].projectName)
  }

  /** `em_df['project_name'].dropna().astype(str).tolist()` */
  function ProjectNames(rows: seq<EmissionsRow>): (names: seq<string>)
    ensures forall n :: n in names <==> exists i :: 0 <= i < |rows| && rows[i].projectName == Some(n)
  {
    if rows == [] then []
    else
      var rest := ProjectNames(rows[1..]);
      assert forall i :: 1 <= i < |rows| ==> rows[1..][i - 1] == rows[i];
      (if rows[0].projectName.Some? then [rows[0].projectName.value] else []) + rest
  }

  /** The registry row whose project name equals `key`, if any. */
  function Lookup(rows: seq<EmissionsRow>, key: string): (e: Option<EmissionsRow>)
    ensures e.Some? ==> e.value in rows && e.value.projectName == Some(key)
    ensures e.None? ==> forall i :: 0 <= i < |rows| ==> rows[i].projectName != Some(key)
  {
    if rows == [] then None
    else if rows[0].projectName == Some(key) then Some(rows[0])
    else
      var rest := Lookup(rows[1..], key);
      assert forall i :: 1 <= i < |rows| ==> rows[1..][i - 1] == rows[i];
      rest
  }

  /** With unique keys, the row `Lookup` finds is the only row with that key. */
  lemma LookupUnique(rows: seq<EmissionsRow>, key: string, i: nat)
    requires UniqueKeys(rows) && i < |rows| && rows[i].projectName == Some(key)
    ensures Lookup(rows, key) == Some(rows[i])
  {
    var e := Lookup(rows, key);
    assert e.Some?;
    var j :| 0 <= j < |rows| && rows[j] == e.value;
    assert j == i;
  }

  /** Python's `(score_a, a) >= (score_b, b)` on the `(ratio, candidate)`
      pairs that `get_close_matches` ranks with `heapq.nlargest`. */
  predicate Outranks(word: string, a: string, b: string, sim: (string, string) -> Score) {
    sim(word, a) > sim(word, b) || (sim(word, a) == sim(word, b) && !StrLt(a, b))
  }

  lemma OutranksTotal(word: string, a: string, b: string, sim: (string, string) -> Score)
    ensures Outranks(word, a, b, sim) || Outranks(word, b, a, sim)
  {
    StrLtTrichotomy(a, b);
    if StrLt(a, b) {
      StrLtAsymmetric(a, b);
    }
  }

  lemma OutranksTransitive(word: string, a: string, b: string, c: string, sim: (string, string) -> Score)
    requires Outranks(word, a, b, sim) && Outranks(word, b, c, sim)
    ensures Outranks(word, a, c, sim)
  {
    if sim(word, a) == sim(word, b) == sim(word, c) && a != b && b != c {
      StrLtTrichotomy(a, b);
      StrLtTrichotomy(b, c);
      StrLtTransitive(c, b, a);
      StrLtAsymmetric(c, a);
    }
  }

  /** `difflib.get_close_matches(word, names, n=1, cutoff=0.8)`: of the names
      scoring at least the cutoff, the one that ranks highest; none when no
      name reaches the cutoff. */
  function BestCandidate(word: string, names: seq<string>, sim: (string, string) -> Score)
    : (m: Option<string>)
    ensures m.Some? ==> m.value in names && sim(word, m.value) >= Cutoff
    ensures m.Some? ==> forall x :: x in names && sim(word, x) >= Cutoff ==> Outranks(word, m.value, x, sim)
    ensures m.None? <==> forall x :: x in names ==> sim(word, x) < Cutoff
  {
    if names == [] then None
    else
      var rest := BestCandidate(word, names[1..], sim);
      var x := names[0];
      assert names == [x] + names[1..];
      if sim(word, x) < Cutoff then rest
      else if rest.None? then
        StrLtIrreflexive(x);
        Some(x)
      else
        OutranksTotal(word, x, rest.value, sim);
        if Outranks(word, x, rest.value, sim) then
          assert forall y :: y in names[1..] && sim(word, y) >= Cutoff ==> Outranks(word, x, y, sim) by {
            forall y | y in names[1..] && sim(word, y) >= Cutoff ensures Outranks(word, x, y, sim) {
              OutranksTransitive(word, x, rest.value, y, sim);
            }
          }
          StrLtIrreflexive(x);
          Some(x)
        else rest
  }

  /** The inner `match(name)`: no candidate for an absent (non-string) or
      blank name, otherwise the close match of the name among `names`. */
  function CloseMatch(name: Option<string>, names: seq<string>, sim: (string, string) -> Score)
    : (m: Option<string>)
    ensures name.None? ==> m.None?
    ensures name.Some? && Strip(name.value) == [] ==> m.None?
    ensures m.Some? ==> m.value in names && sim(name.value, m.value) >= Cutoff
    ensures m.Some? ==> forall x :: x in names && sim(name.value, x) >= Cutoff ==> Outranks(name.value, m.value, x, sim)
    ensures name.Some? && Strip(name.value) != [] ==>
              (m.None? <==> forall x :: x in names ==> sim(name.value, x) < Cutoff)
  {
    if name.None? || Strip(name.value) == [] then None
    else BestCandidate(name.value, names, sim)
  }

  /** Emissions the exact left join on `system == project_name` brings to a
      model row (absent when no project has that name, or when the matching
      project's emissions are NaN). */
  function ExactEmissions(r: Row, rows: seq<EmissionsRow>): (e: Option<int>)
    ensures r.system.None? ==> e.None?
    ensures e.Some? ==> exists j :: 0 <= j < |rows| && rows[j].projectName == r.system && rows[j].emissions == e
  {
    if r.system.None? then None
    else
      match Lookup(rows, r.system.value)
      case None => None
      case Some(e) => e.emissions
  }

  /** Emissions the second join on `matched_project` brings to a model row. */
  function FuzzyEmissions(r: Row, rows: seq<EmissionsRow>, sim: (string, string) -> Score): (e: Option<int>)
    ensures CloseMatch(r.system, ProjectNames(rows), sim).None? ==> e.None?
    ensures e.Some? ==>
              exists j :: 0 <= j < |rows| && rows[j].projectName == CloseMatch(r.system, ProjectNames(rows), sim)
                          && rows[j].emissions == e
  {
    match CloseMatch(r.system, ProjectNames(rows), sim)
    case None => None
    case Some(p) =>
      match Lookup(rows, p)
      case None => None
      case Some(e) => e.emissions
  }

  /** `fillna`: the exact value where there is one, else the fuzzy one. */
  function FillNa(exact: Option<int>, fuzzy: Option<int>): (v: Option<int>)
    ensures exact.Some? ==> v == exact
    ensures exact.None? ==> v == fuzzy
  {
    if exact.Some? then exact else fuzzy
  }

  function MergedRow(r: Row, rows: seq<EmissionsRow>, sim: (string, string) -> Score): Row {
    r.(co2 := FillNa(ExactEmissions(r, rows), FuzzyEmissions(r, rows, sim)))
  }

  /** The table `merge_emissions(models_df, em_df)` returns: the model rows,
      in order, with their emissions column filled from the registry; the
      model table itself when the registry lacks either column. Which
      columns the result carries is modelled apart, by `MergedColumns`. */
  function Merge(models: seq<Row>, em: EmissionsTable, sim: (string, string) -> Score): (merged: seq<Row>)
    ensures |merged| == |models|
    ensures forall i :: 0 <= i < |models| ==> merged[i] == models[i].(co2 := merged[i].co2)
    ensures !CanJoin(em) ==> merged == models
  {
    if CanJoin(em) then seq(|models|, i requires 0 <= i < |models| => MergedRow(models[i], em.rows, sim))
    else models
  }

  /** `merge_emissions`, step by step on the model rows: the exact left join
      writes every row's emissions, then each row whose emissions are still
      missing gets the emissions of its close match. */
  method MergeEmissions(models: array<Row>, em: EmissionsTable, sim: (string, string) -> Score)
    requires CanJoin(em) ==> UniqueKeys(em.rows)
    modifies models
    ensures models[..] == Merge(old(models[..]), em, sim)
  {
    if CanJoin(em) {
      ExactJoin(models, em.rows);
      FuzzyFill(models, em.rows, sim);
    }
  }

  /** The first `merge(..., left_on='system', right_on='project_name', how='left')`. */
  method ExactJoin(models: array<Row>, rows: seq<EmissionsRow>)
    modifies models
    ensures forall j :: 0 <= j < models.Length ==>
              models[j] == old(models[j]).(co2 := ExactEmissions(old(models[j]), rows))
  {
    var i := 0;
    while i < models.Length
      invariant 0 <= i <= models.Length
      invariant forall j :: 0 <= j < i ==> models[j] == old(models[j]).(co2 := ExactEmissions(old(models[j]), rows))
      invariant forall j :: i <= j < models.Length ==> models[j] == old(models[j])
    {
      models[i] := models[i].(co2 := ExactEmissions(models[i], rows));
      i := i + 1;
    }
  }

  /** A row after `fillna` with the emissions of its close match. */
  function Filled(r: Row, rows: seq<EmissionsRow>, sim: (string, string) -> Score): Row {
    r.(co2 := FillNa(r.co2, FuzzyEmissions(r, rows, sim)))
  }

  /** One model row of the fuzzy fallback: when its emissions are missing,
      `match(name)` on its system name, the look-up of the matched
      project's emissions, and `fillna`. */
  method FillRow(models: array<Row>, i: nat, rows: seq<EmissionsRow>, names: seq<string>, sim: (string, string) -> Score)
    requires i < models.Length && names == ProjectNames(rows)
    modifies models
    ensures models[i] == Filled(old(models[i]), rows, sim)
    ensures forall j :: 0 <= j < models.Length && j != i ==> models[j] == old(models[j])
  {
    var r := models[i];
    if r.co2.None? {
      var matched := CloseMatch(r.system, names, sim);
      var fuzzy := None;
      if matched.Some? {
        var e := Lookup(rows, matched.value);
        if e.Some? {
          fuzzy := e.value.emissions;
        }
      }
      models[i] := r.(co2 := fuzzy);
    }
  }

  /** The mask of rows still missing emissions, `match` on their system
      names, the second join on `matched_project`, and `fillna`, row by row. */
  method FuzzyFill(models: array<Row>, rows: seq<EmissionsRow>, sim: (string, string) -> Score)
    modifies models
    ensures forall j :: 0 <= j < models.Length ==> models[j] == Filled(old(models[j]), rows, sim)
  {
    var names := ProjectNames(rows);
    var i := 0;
    while i < models.Length
      invariant 0 <= i <= models.Length
      invariant names == ProjectNames(rows)
      invariant forall j :: 0 <= j < i ==> models[j] == Filled(old(models[j]), rows, sim)
      invariant forall j :: i <= j < models.Length ==> models[j] == old(models[j])
    {
      FillRow(models, i, rows, names, sim);
      i := i + 1;
    }
  }

  /** Exact-match precedence: a model row whose system names a project with
      known emissions gets exactly those emissions, whatever the fuzzy match
      would have found. */
  lemma ExactMatchWins(models: seq<Row>, em: EmissionsTable, sim: (string, string) -> Score, i: nat, j: nat)
    requires CanJoin(em) && UniqueKeys(em.rows)
    requires i < |models| && j < |em.rows|
    requires models[i].system.Some? && em.rows[j].projectName == models[i].system
    requires em.rows[j].emissions.Some?
    ensures Merge(models, em, sim)[i].co2 == em.rows[j].emissions
  {
    LookupUnique(em.rows, models[i].system.value, j);
  }

  /** The fuzzy fallback: a row without exact emissions (no project of that
      name, or one whose emissions are NaN) takes the emissions of the close
      match of its system name. */
  lemma FuzzyFillsMissing(models: seq<Row>, em: EmissionsTable, sim: (string, string) -> Score, i: nat, j: nat)
    requires CanJoin(em) && UniqueKeys(em.rows)
    requires i < |models| && j < |em.rows|
    requires ExactEmissions(models[i], em.rows).None?
    requires em.rows[j].projectName.Some?
    requires CloseMatch(models[i].system, ProjectNames(em.rows), sim) == em.rows[j].projectName
    ensures Merge(models, em, sim)[i].co2 == em.rows[j].emissions
  {
    LookupUnique(em.rows, em.rows[j].projectName.value, j);
  }

  /** A row gets no emissions at all when there is no exact value and no
      project name scores at least the cutoff against its system name. */
  lemma NoMatchLeavesMissing(models: seq<Row>, em: EmissionsTable, sim: (string, string) -> Score, i: nat)
    requires CanJoin(em)
    requires i < |models| && ExactEmissions(models[i], em.rows).None?
    requires models[i].system.Some? ==>
               forall j :: 0 <= j < |em.rows| && em.rows[j].projectName.Some? ==>
                 sim(models[i].system.value, em.rows[j].projectName.value) < Cutoff
    ensures Merge(models, em, sim)[i].co2.None?
  {
    var names := ProjectNames(em.rows);
    if models[i].system.Some? && Strip(models[i].system.value) != [] {
      forall x | x in names ensures sim(models[i].system.value, x) < Cutoff {
        var j :| 0 <= j < |em.rows| && em.rows[j].projectName == Some(x);
      }
    }
  }

  // ---------------------------------------------------------------------
  // The columns `merge_emissions` leaves behind
  // ---------------------------------------------------------------------

  const ProjectName: string := "project_name"
  const MatchedProject: string := "matched_project"
  const EmissionsColumn: string := "carbon_emissions_(kg_co2)"
  const FuzzySuffix: string := "_fuzzy"

  /** The model table has none of the names the joins add. */
  predicate FreshColumns(models: seq<string>) {
    && ProjectName !in models && MatchedProject !in models && EmissionsColumn !in models
    && ProjectName + FuzzySuffix !in models && EmissionsColumn + FuzzySuffix !in models
  }

  /** `mask.any()`: some row is still missing emissions after the exact
      join, so the fuzzy step runs. */
  predicate FuzzyStepRuns(models: seq<Row>, rows: seq<EmissionsRow>) {
    exists i :: 0 <= i < |models| && ExactEmissions(models[i], rows).None?
  }

  /** The columns after the joins: the exact join adds the registry's key
      and emissions columns; the fuzzy step, which runs when some row is
      still missing emissions, adds `matched_project`, and its join adds the
      registry's two columns again, both of which clash with columns already
      present and so take the `_fuzzy` suffix. */
  function JoinedColumns(models: seq<string>, fuzzyStep: bool): (cols: seq<string>)
    ensures models <= cols
  {
    var exact := models + [ProjectName, EmissionsColumn];
    if fuzzyStep then exact + [MatchedProject, ProjectName + FuzzySuffix, EmissionsColumn + FuzzySuffix]
    else exact
  }

  /** `df.drop(columns=to_drop)`: the columns not listed, in order. */
  function DropColumns(cols: seq<string>, dropped: seq<string>): (kept: seq<string>)
    ensures |kept| <= |cols|
    ensures forall c :: c in kept ==> c !in dropped
  {
    if cols == [] then []
    else (if cols[0] in dropped then [] else [cols[0]]) + DropColumns(cols[1..], dropped)
  }

  lemma {:induction false} DropKeeps(cols: seq<string>, dropped: seq<string>)
    ensures forall c :: c in DropColumns(cols, dropped) <==> c in cols && c !in dropped
  {
    if cols != [] {
      DropKeeps(cols[1..], dropped);
      assert cols == [cols[0]] + cols[1..];
    }
  }

  lemma {:induction false} DropConcat(a: seq<string>, b: seq<string>, dropped: seq<string>)
    ensures DropColumns(a + b, dropped) == DropColumns(a, dropped) + DropColumns(b, dropped)
  {
    if a == [] {
      assert a + b == b;
    } else {
      var ab := a + b;
      assert ab[0] == a[0] && ab[1..] == a[1..] + b;
      DropConcat(a[1..], b, dropped);
    }
  }

  lemma {:induction false} DropNone(a: seq<string>, dropped: seq<string>)
    requires forall c :: c in a ==> c !in dropped
    ensures DropColumns(a, dropped) == a
  {
    if a != [] {
      DropNone(a[1..], dropped);
    }
  }

  /** The clean-up list as the script writes it. */
  const DroppedAsWritten: seq<string> := [ProjectName, MatchedProject, EmissionsColumn + FuzzySuffix]

  /** The columns of the merged table as the script computes them. */
  function MergedColumnsAsWritten(models: seq<string>, fuzzyStep: bool): (cols: seq<string>)
    ensures forall c :: c in cols <==> c in JoinedColumns(models, fuzzyStep) && c !in DroppedAsWritten
  {
    DropKeeps(JoinedColumns(models, fuzzyStep), DroppedAsWritten);
    DropColumns(JoinedColumns(models, fuzzyStep), DroppedAsWritten)
  }

  /** Whenever some model row has no exact match, the fuzzy join's copy of
      the registry key survives the clean-up as written. */
  lemma FuzzyKeySurvives(columns: seq<string>, models: seq<Row>, rows: seq<EmissionsRow>)
    requires FuzzyStepRuns(models, rows)
    ensures ProjectName + FuzzySuffix in MergedColumnsAsWritten(columns, FuzzyStepRuns(models, rows))
  {
    var key := ProjectName + FuzzySuffix;
    assert JoinedColumns(columns, true)[|columns| + 3] == key;
    assert key != ProjectName && key != MatchedProject && key != EmissionsColumn + FuzzySuffix by {
      assert |key| != |ProjectName| && |key| != |MatchedProject|;
      assert key[0] != (EmissionsColumn + FuzzySuffix)[0];
    }
  }

  /** The clean-up list with the fuzzy join's copy of the key added. */
  const Dropped: seq<string> := DroppedAsWritten + [ProjectName + FuzzySuffix]

  /** The columns of the merged table with every helper column dropped: the
      model table's own columns, in order, and the emissions column after
      them, whether or not the fuzzy step ran. */
  function MergedColumns(models: seq<string>, fuzzyStep: bool): (cols: seq<string>)
    requires FreshColumns(models)
    ensures cols == models + [EmissionsColumn]
  {
    var added := if fuzzyStep
      then [ProjectName, EmissionsColumn, MatchedProject, ProjectName + FuzzySuffix, EmissionsColumn + FuzzySuffix]
      else [ProjectName, EmissionsColumn];
    assert JoinedColumns(models, fuzzyStep) == models + added;
    DropConcat(models, added, Dropped);
    DropNone(models, Dropped);
    AddedColumnsDropped();
    DropColumns(JoinedColumns(models, fuzzyStep), Dropped)
  }

  /** Of the columns the joins add, only the emissions column is kept. */
  lemma AddedColumnsDropped()
    ensures DropColumns([ProjectName, EmissionsColumn], Dropped) == [EmissionsColumn]
    ensures DropColumns([ProjectName, EmissionsColumn, MatchedProject, ProjectName + FuzzySuffix,
                         EmissionsColumn + FuzzySuffix], Dropped) == [EmissionsColumn]
  {
    var pf, ef := ProjectName + FuzzySuffix, EmissionsColumn + FuzzySuffix;
    assert Dropped == [ProjectName, MatchedProject, ef, pf];
    assert |EmissionsColumn| == 25 && |ProjectName| == 12 && |MatchedProject| == 15 && |pf| == 18 && |ef| == 31;
    assert EmissionsColumn !in Dropped;
    assert DropColumns([ef], Dropped) == [];
    assert DropColumns([pf, ef], Dropped) == [];
    assert DropColumns([MatchedProject, pf, ef], Dropped) == [];
    assert DropColumns([EmissionsColumn], Dropped) == [EmissionsColumn];
    assert DropColumns([EmissionsColumn, MatchedProject, pf, ef], Dropped) == [EmissionsColumn];
  }

  /** The Suggest tab's masks (lines 113-116): task, power and parameter
      limits, and the CO2 limit when the emissions slider exists. */
  predicate Eligible(r: Row, task: string, power: int, params: int, co2: Option<int>) {
    && MatchesTask(r, task)
    && WithinLimits(r, power, params)
    && (co2.Some? ==> AtMost(r.co2, co2.value))
  }

  function SuggestCandidates(t: seq<Row>, task: string, power: int, params: int, co2: Option<int>)
    : (c: seq<Row>)
    ensures multiset(c) <= multiset(t)
    ensures forall x :: multiset(c)[x] == if Eligible(x, task, power, params, co2) then multiset(t)[x] else 0
  {
    var sel := Filter((x: Row) => MatchesTask(x, task), t);
    var sel' := Filter((x: Row) => WithinLimits(x, power, params), sel);
    if co2.Some? then Filter((x: Row) => AtMost(x.co2, co2.value), sel') else sel'
  }

  /** `sel.sort_values([power, parameters], na_position='last').head(topk)`
      over the eligible rows. */
  function Suggest(t: seq<Row>, task: string, power: int, params: int, co2: Option<int>, topk: nat)
    : (sug: seq<Row>)
    ensures |sug| <= topk
    ensures |sug| == if topk < |SuggestCandidates(t, task, power, params, co2)| then topk
                     else |SuggestCandidates(t, task, power, params, co2)|
    ensures multiset(sug) <= multiset(t)
    ensures forall x :: x in sug ==> Eligible(x, task, power, params, co2)
    ensures forall i, j :: 0 <= i < j < |sug| ==> LighterOrEqual(sug[i], sug[j])
  {
    var sel := SuggestCandidates(t, task, power, params, co2);
    var sug := Top(SuggestKeys, sel, topk);
    SuggestIsSound(sel, task, power, params, co2, sug);
    sug
  }

  lemma SuggestIsSound(sel: seq<Row>, task: string, power: int, params: int, co2: Option<int>, sug: seq<Row>)
    requires forall x :: multiset(sel)[x] > 0 ==> Eligible(x, task, power, params, co2)
    requires multiset(sug) <= multiset(sel) && SortedBy(SuggestKeys, sug)
    ensures forall x :: x in sug ==> Eligible(x, task, power, params, co2)
    ensures forall i, j :: 0 <= i < j < |sug| ==> LighterOrEqual(sug[i], sug[j])
  {
    forall x | x in sug ensures Eligible(x, task, power, params, co2) {
      assert x in multiset(sug);
    }
    SortedSuggestions(sug);
  }

  /** Top-K optimality of the Suggest tab: an eligible row left out never
      sorts strictly ahead of a suggested one. */
  lemma SuggestOptimal(t: seq<Row>, task: string, power: int, params: int, co2: Option<int>, topk: nat, x: Row, y: Row)
    requires y in Suggest(t, task, power, params, co2, topk)
    requires x in t && Eligible(x, task, power, params, co2)
    requires x !in Suggest(t, task, power, params, co2, topk)
    ensures LighterOrEqual(y, x)
  {
    var sel := SuggestCandidates(t, task, power, params, co2);
    var sug := Top(SuggestKeys, sel, topk);
    assert multiset(sel)[x] > 0;
    assert x in multiset(sel) - multiset(sug);
    SuggestOrder(y, x);
  }
}
