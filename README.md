# BASS-ML dataset queries, modelled in Dafny

BASS-ML is a set of Streamlit and matplotlib scripts for exploring tables of large AI models. Each table has training power, parameter count, compute, carbon emissions, citations and application domains. This project models the query logic inside those scripts and proves what each query returns. The scripts are:

- `suggestion_app.py` — `get_suggestions`: keep the models whose task contains the chosen task (ignoring case) and whose power and parameter count are within the slider limits. List them by power, then parameters, and keep the first `k`.
- `new_suggestion.py` — `merge_emissions`, the Suggest tab's filter, sort and head, and the slider clamps:
  - the merge first joins an emissions registry to the model table exactly on `system == project_name`;
  - any row still missing emissions then gets the emissions of its closest project name (similarity at least 0.8);
  - the two results are combined with `fillna`.
- `data-manipulation.py` — splitting a domain string at commas, the sorted domain menu, the per-domain ranking (citations descending, then power ascending) with `head(top_k)`, the plot tab's domain filter, and the axis choices.
- `new_data_cleaning.py` — the thirty runs with the most training power among those that have both power and compute, the bar order, and the `task - system` labels.

Modules, in dependency order:

- `Table` — rows and tables. A row is a `Row` value, and NaN is `None`. `AtMost` is pandas' `<=`, which is false on NaN. `Filter` is a boolean mask and `Head` is `head(n)`.
- `Text` — `str.strip` with Python's whitespace set, lower-casing, substring search, code-point string order, and column-name normalisation.
- `Ranking` — `sort_values` as a stable sort on keys built from `(column, direction)` pairs, with missing values last in either direction. `Top` is sort then `head`.
- `Criteria` — the filters and ranking shared by the two suggestion apps, and the `JS_MAX_INT` slider clamp.
- `SuggestionApp`, `NewSuggestion`, `DataManipulation`, `NewDataCleaning` — one module per script.

`merge_emissions` updates its table step by step, so it is a method over an `array<Row>`. An exact-join loop writes every row's emissions. A fuzzy-fill loop then fills each still-missing row. The method is proved equal to the function `Merge`, and the precedence lemmas are stated about `Merge`. Everything else in the scripts is chains of pandas expressions, so it is modelled by functions and lemmas.

Three behaviours of the code are easy to miss, and the model keeps them:

- When several project names are equally similar to a system name, the match is the name that is larger in code-point order. This is because `difflib.get_close_matches` takes the largest `(score, name)` pair.
- `get_suggestions` returns `None`, not an empty table, when no row passes the filters.
- The fuzzy step also runs for a row whose exact match exists but has NaN emissions, since the mask at new_suggestion.py:46 tests only for missing emissions.

## Model

| member | source | states |
|---|---|---|
| Text.NormalizeColumnName | data-manipulation.py:13-18 | character `i` of the normalised name is `_` where character `i` of the stripped name is replaced (a space, and `(`/`)` in this script), and that character lower-cased everywhere else; the result has the stripped name's length, no upper-case letter, no replaced character and no whitespace at either end |
| Text.NormalizeColumnNameIdempotent | data-manipulation.py:13-18 | normalising an already-normalised name changes nothing |
| Text.LowerIdempotent | suggestion_app.py:69 | lower-casing twice is lower-casing once |
| Text.StripEmptyIffBlank | new_suggestion.py:50 | `name.strip()` is empty exactly when every character is whitespace |
| Text.Lower | suggestion_app.py:69 | lower-casing keeps the length and lower-cases each character in place |
| Text.Strip | new_suggestion.py:50 | `strip()` cuts only leading and trailing whitespace: the result is the slice of the string after its leading whitespace, everything after the slice is whitespace, and the result has no whitespace at either end |
| Text.ContainsIgnoringCaseAt | suggestion_app.py:105 | the task test holds exactly when the task occurs at some position of the row's task, character by character up to case; an empty task is found in every string |
| Text.StripTight | new_suggestion.py:12 | a string with no whitespace at either end is its own strip |
| Text.StrLtTransitive | data-manipulation.py:50 | the string order `sorted` uses is transitive |
| Text.StrLtTrichotomy | data-manipulation.py:50 | any two distinct strings are ordered one way or the other |
| Text.StrLtAsymmetric | data-manipulation.py:50 | the string order never holds both ways |
| Table.Filter | suggestion_app.py:105-109 | a mask keeps each row exactly as often as the table has it when the row passes, and never otherwise |
| Table.FilterKeepsOrder | suggestion_app.py:105-109 | the mask keeps table order: filtering two tables one after the other gives the two filtered tables in the same order |
| Table.FilterOne | suggestion_app.py:105-109 | a single row is kept exactly when it passes |
| Table.Head | suggestion_app.py:114 | `head(n)` is a prefix of length `min(n, rows)` |
| Ranking.SortBy | suggestion_app.py:112-113 | the sort is a permutation of the table and is ordered by the sort keys |
| Ranking.SortByStable | data-manipulation.py:59 | rows with equal keys keep their table order |
| Ranking.SortBySortedIsIdentity | new_data_cleaning.py:46 | sorting an already sorted table changes nothing |
| Ranking.MissingLast | new_suggestion.py:117 | after a row missing the first sort column, every row misses it too (`na_position='last'`) |
| Ranking.LexLeTransitive | suggestion_app.py:112-113 | the key order is transitive |
| Ranking.LexLeTotal | suggestion_app.py:112-113 | any two keys are comparable |
| Ranking.LexLeAntisymmetric | suggestion_app.py:112-113 | keys ordered both ways are equal |
| Ranking.InsertSorted | suggestion_app.py:112-113 | inserting into a sorted table keeps it sorted |
| Ranking.HeadOfSortedIsOptimal | suggestion_app.py:112-114 | no row cut off by `head` sorts strictly ahead of a kept one |
| Ranking.Top | suggestion_app.py:112-114 | sort-then-head returns `min(n, rows)` rows drawn from the table, sorted, and no left-out row sorts ahead of a returned one |
| Ranking.BeforeTwoColumns | suggestion_app.py:112-113 | with both columns present, the two-key order is the first column's order with ties broken by the second's |
| Criteria.SuggestOrder | suggestion_app.py:112-113 | for rows with power and parameters, the sort order is "less power, or equal power and no more parameters" |
| Criteria.SortedSuggestions | suggestion_app.py:112-113 | a sorted list of such rows is in that order pair by pair |
| Criteria.ColumnMax | suggestion_app.py:96 | `max(skipna=True)` is absent exactly when every value is missing; otherwise it is some row's value and at least every present value |
| Criteria.ClampToJs | new_suggestion.py:92-95 | the slider end is `min(raw, 2^53-1)` and the warning is issued exactly when `raw > 2^53-1` |
| Criteria.SliderBound | suggestion_app.py:95-96 | the bound never exceeds `2^53-1`; it equals the data maximum when that fits and `2^53-1` when it does not; it is absent (the `int(NaN)` error) exactly when the column has no value |
| SuggestionApp.Candidates | suggestion_app.py:105-109 | exactly the rows matching the task and within both limits survive, with their multiplicities |
| SuggestionApp.CandidatesPass | suggestion_app.py:105-111 | there are no candidates exactly when no row passes, and every candidate passes |
| SuggestionApp.GetSuggestions | suggestion_app.py:104-114 | `None` exactly when no row passes; otherwise `min(k, passing)` passing rows drawn from the table, ordered by power then parameters |
| SuggestionApp.TopIsSound | suggestion_app.py:112-114 | a sorted selection of passing rows passes and is in power-then-parameters order |
| SuggestionApp.GetSuggestionsOptimal | suggestion_app.py:112-114 | a passing row that was left out never has less power, or equal power and fewer parameters, than a suggested row |
| NewSuggestion.ProjectNames | new_suggestion.py:48 | the candidate names are exactly the registry's present project names |
| NewSuggestion.Lookup | new_suggestion.py:41-44 | a lookup finds a registry row with that name, or reports that there is none |
| NewSuggestion.LookupUnique | new_suggestion.py:41-44 | with unique keys, the lookup finds the one row bearing the name |
| NewSuggestion.OutranksTotal | new_suggestion.py:52 | of two candidates one always ranks at least as high |
| NewSuggestion.OutranksTransitive | new_suggestion.py:52 | candidate ranking by (score, name) is transitive |
| NewSuggestion.BestCandidate | new_suggestion.py:52-53 | the match is a candidate scoring at least 0.8 that outranks every other such candidate; there is none exactly when every candidate scores below 0.8 |
| NewSuggestion.CloseMatch | new_suggestion.py:49-53 | no match for a missing or blank name; otherwise the best candidate at cutoff 0.8 |
| NewSuggestion.ExactEmissions | new_suggestion.py:41-44 | a row without a system gets no emissions from the exact join; any emissions it gets are those of a registry row whose project name equals its system |
| NewSuggestion.FuzzyEmissions | new_suggestion.py:52-59 | a row without a close match gets no emissions from the second join; any emissions it gets are those of a registry row named by its close match |
| NewSuggestion.FillNa | new_suggestion.py:61-63 | a present exact value is kept; otherwise the fuzzy value is taken |
| NewSuggestion.Merge | new_suggestion.py:38-68 | the result has exactly the model rows, in order, with only the emissions changed; it is the model table itself when the registry lacks either column |
| NewSuggestion.MergeEmissions | new_suggestion.py:38-68 | the array ends up holding `Merge` of its old contents |
| NewSuggestion.ExactJoin | new_suggestion.py:41-44 | every row's emissions become those of its exact match, and nothing else changes |
| NewSuggestion.FillRow | new_suggestion.py:49-63 | one row with missing emissions takes its close match's emissions; other rows are untouched |
| NewSuggestion.FuzzyFill | new_suggestion.py:46-63 | every row is filled from its close match when its emissions are missing, and kept otherwise |
| NewSuggestion.ExactMatchWins | new_suggestion.py:61-63 | a row whose exact match has emissions keeps exactly those emissions |
| NewSuggestion.FuzzyFillsMissing | new_suggestion.py:46-63 | a row without exact emissions, including a row whose exact match has NaN emissions, takes the emissions of its close match |
| NewSuggestion.NoMatchLeavesMissing | new_suggestion.py:52-63 | with no exact value and no name scoring at least 0.8, the row's emissions stay missing |
| NewSuggestion.JoinedColumns | new_suggestion.py:41-59 | the joins keep the model table's columns in front |
| NewSuggestion.DropColumns | new_suggestion.py:65-66 | no listed column survives `drop`, and it never adds columns |
| NewSuggestion.DropKeeps | new_suggestion.py:65-66 | after `drop`, a column is present exactly when it was present before and is not on the drop list |
| NewSuggestion.DropConcat | new_suggestion.py:65-66 | dropping columns from two lists joined together gives the two dropped lists joined together |
| NewSuggestion.MergedColumnsAsWritten | new_suggestion.py:55-66 | the result's columns as the script computes them: the joined columns minus the three listed helpers |
| NewSuggestion.FuzzyKeySurvives | new_suggestion.py:55-66 | whenever the fuzzy step runs, `project_name_fuzzy` is still among the result's columns |
| NewSuggestion.MergedColumns | new_suggestion.py:65-66 | with every helper dropped, the result's columns are the model table's columns followed by the emissions column, with or without the fuzzy step |
| NewSuggestion.SuggestCandidates | new_suggestion.py:113-116 | exactly the rows passing the task, power and parameter masks, and the CO₂ mask when that slider exists, survive |
| NewSuggestion.Suggest | new_suggestion.py:113-117 | at most `topk` rows, as many as pass when fewer do; each passes every mask; ordered by power then parameters |
| NewSuggestion.SuggestIsSound | new_suggestion.py:113-117 | a sorted selection of eligible rows is eligible and in power-then-parameters order |
| NewSuggestion.SuggestOptimal | new_suggestion.py:117 | an eligible row left out never sorts strictly ahead of a suggested one |
| DataManipulation.FirstComma | data-manipulation.py:32 | the first comma's position; no comma comes before it |
| DataManipulation.SplitDomains | data-manipulation.py:32 | the split has at least one piece, no piece holds a comma, and the first piece is a prefix of the string; `SplitMatchesFields` ties every piece to the cell |
| DataManipulation.Fields | data-manipulation.py:32 | the literal split at every comma has at least one field and no field holds a comma |
| DataManipulation.JoinFields | data-manipulation.py:32 | joining the literal fields with commas gives the cell back |
| DataManipulation.SplitMatchesFields | data-manipulation.py:32 | the split has as many pieces as the cell has literal fields, and piece `k` is field `k` with its leading whitespace removed unless it is the first field and its trailing whitespace removed unless it is the last |
| DataManipulation.SplitExample | data-manipulation.py:32 | the cell `" a , b "` splits into `" a"` and `"b "` |
| DataManipulation.Join | data-manipulation.py:32 | the comma-join starts with the first piece and, when there are more pieces, a comma follows it |
| DataManipulation.SplitWellFormed | data-manipulation.py:32 | no piece has whitespace next to a split point |
| DataManipulation.SplitJoin | data-manipulation.py:32 | splitting the comma-join of well-formed pieces gives the pieces back |
| DataManipulation.JoinSplit | data-manipulation.py:32 | a string with no whitespace next to a comma is the comma-join of its split |
| DataManipulation.JoinTight | data-manipulation.py:32 | joining well-formed pieces leaves no whitespace next to a comma |
| DataManipulation.SplitCount | data-manipulation.py:32 | the split has one more piece than the string has commas |
| DataManipulation.JoinOfSplitIsTight | data-manipulation.py:32 | the join of a split has no whitespace next to a comma, and splitting it again gives the same pieces |
| DataManipulation.InsertUnique | data-manipulation.py:50 | inserting into a strictly sorted list keeps it strictly sorted and adds exactly that domain |
| DataManipulation.AddAll | data-manipulation.py:50 | adding a row's domains keeps the list strictly sorted and adds exactly those domains |
| DataManipulation.DomainMenu | data-manipulation.py:50 | the menu is strictly sorted, and a domain is on it exactly when some row's domain list mentions it |
| DataManipulation.MenuHasNoDuplicates | data-manipulation.py:50 | no domain appears twice on the menu |
| DataManipulation.DomainRows | data-manipulation.py:54-55 | exactly the rows whose domain list contains the selected domain are kept |
| DataManipulation.DomainRowsKeepOrder | data-manipulation.py:54-55 | the domain filter keeps table order |
| DataManipulation.DomainSuggestTableOrder | data-manipulation.py:55-60 | without the two ranking columns the suggestions are the first `top_k` domain rows in table order: rows further down are never shown while the rows above hold `top_k` domain rows |
| DataManipulation.DomainOrder | data-manipulation.py:59 | the ranking order is "more citations, or equal citations and no more power" |
| DataManipulation.RankedIsOrdered | data-manipulation.py:59 | a sorted list of rows with both values is in that order pair by pair |
| DataManipulation.DomainRanking | data-manipulation.py:57-59 | when both columns exist, exactly the domain's rows with citations and power are kept, ordered by citations descending and then power ascending; otherwise the domain's rows, unsorted |
| DataManipulation.DomainSuggest | data-manipulation.py:57-60 | the suggestions are a prefix of the ranking, of length `min(top_k, ranked)`, all in the domain, and ordered when both columns exist |
| DataManipulation.DomainSuggestOptimal | data-manipulation.py:59-60 | a ranked row left out never has more citations, or equal citations and less power, than a suggestion |
| DataManipulation.PlotRows | data-manipulation.py:75-76 | exactly the rows whose domain list shares a domain with the selection are kept |
| DataManipulation.PlotDefaultSelection | data-manipulation.py:73-75 | with the default selection (the whole menu), a row is plotted exactly when its domain list is non-empty |
| DataManipulation.DefaultX | data-manipulation.py:83-85 | no x column exactly when there are no columns; otherwise `publication_date` when present, else the first column |
| DataManipulation.YChoices | data-manipulation.py:86 | the y choices are exactly the columns other than the x column, drawn from the columns |
| NewDataCleaning.PowerOrder | new_data_cleaning.py:16 | the largest-power-first order is `>=` on power |
| NewDataCleaning.SelectionIsSound | new_data_cleaning.py:15-16 | a sorted selection of complete rows is complete and from the most power down |
| NewDataCleaning.Top30 | new_data_cleaning.py:15-16 | at most 30 rows, as many as there are complete rows when fewer; each has power and compute; from the most power down |
| NewDataCleaning.Top30Optimal | new_data_cleaning.py:15-16 | a complete row left out never has more power than a selected row |
| NewDataCleaning.BarOrder | new_data_cleaning.py:46 | the bars are a permutation of the selection, ordered by power descending |
| NewDataCleaning.BarOrderOfTop30 | new_data_cleaning.py:46 | sorting the top thirty by power keeps them as they are, from the most power down |
| NewDataCleaning.Label | new_data_cleaning.py:47 | a label exists exactly when task and system do, and it reads task, then ` - `, then system |
| NewDataCleaning.Labels | new_data_cleaning.py:47 | one label per bar, in bar order |

## Findings

| source | as written | input that shows it | evidently intended | confidence | as-written member | corrected member |
|---|---|---|---|---|---|---|
| new_suggestion.py:55-66 | the fuzzy join's right key `project_name` clashes with the `project_name` column the exact join added, so pandas names it `project_name_fuzzy`; the clean-up list does not contain that name, so it stays in the result | any model table with one row whose `system` has no exact emissions (for instance a NaN system), so that `mask.any()` holds | the clean-up drops every helper column, leaving the model columns plus the emissions column | not executed; follows pandas' suffix rule for overlapping non-key columns | NewSuggestion.FuzzyKeySurvives | NewSuggestion.MergedColumns |

## Left out

- The Streamlit user interface is not modelled. This covers widgets, tabs, `st.dataframe`/`st.table`, `st.cache_data`, the Emissions Explorer tab (new_suggestion.py:127-137) and the field glossary tab (new_suggestion.py:139-146). Slider values and the selected task or domain are plain parameters.
- Help texts and data dictionaries are not modelled: the dictionary reads (new_suggestion.py:76-79) and the help lookups (new_suggestion.py:96, 99, 108) only feed text to widgets.
- CSV reading and pandas coercion (`read_csv`, `to_numeric(errors='coerce')`, `to_datetime`) are not modelled. Their output is a `Row` whose values are numbers or absent.
- Floating point is not modelled. Values are exact integers, NaN is `None`, and `param_lim * 1e9` is `param_lim * 1000000000`.
- All plotting is not modelled: matplotlib, the Altair chart, and the dtype detection behind `numeric_date` (data-manipulation.py:78-82). `DefaultX` and `YChoices` take the list of plottable columns as a parameter.
- DataManipulation.DomainRanking: which columns the table has is a parameter (`columns`). The power and citations columns are looked up by their names in that list.
- Text.ContainsIgnoringCase: `str.contains` reads the task as a regular expression; the model treats it as a literal substring.
- Text.Lower: lower-cases ASCII letters only; Python's `str.lower` also lower-cases other alphabets.
- NewSuggestion.BestCandidate: difflib's `SequenceMatcher.ratio` is the parameter `sim`, with scores in [0, 1]. The choice among candidates (highest score, then largest name) is modelled exactly.
- NewSuggestion.MergeEmissions: requires unique, present project names whenever the registry has both columns. pandas' row fan-out for repeated keys, and its joining of NaN keys to NaN keys, are not modelled.
- NewSuggestion.Merge: the model table is taken to have no emissions column of its own before the merge. If it had one, pandas would rename the two copies with `_x`/`_y` suffixes.
- NewSuggestion.ExactJoin: the `project_name` column the join adds is not a field of `Row`. The columns are modelled apart, by `JoinedColumns` and `MergedColumns`.
- Criteria.SliderBound: `int(max or 0)` at new_suggestion.py:92 and 104 raises when the whole column is NaN, as `int(NaN)` does at suggestion_app.py:96. The model returns `None` in that case and clamps only a present maximum.
- NewDataCleaning.BarOrder: the sort at new_data_cleaning.py:46 is pandas' default quicksort, which is not stable. The model uses the stable sort, so among equal powers it fixes one order where pandas may choose another.
- The other bar charts of new_data_cleaning.py are not modelled: the per-system and per-task charts (22-23, 34-35) use the same order as `BarOrder`, and the compute-ordered chart (61-62) is drawing only.
- Streamlit's `selectbox` returns `None` when it has no options; the model's task and domain are always given.
- Commented-out code is not modelled: suggestion_app.py:1-56, 133-217, 222-301 and new_data_cleaning.py:75-113.
