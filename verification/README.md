# IPC dashboard core, modelled in Dafny

The repository is a Dash dashboard for Ecuador's consumer price index (IPC).
It exists in two near-identical copies. `prueba.py` reads an Excel sheet and
`app.py` reads a generated module. Under the Dash and Plotly calls sit five
small rules, and this project models them as pure functions over an immutable
table:

1. **Year-over-year column** (`anual`). Each index value is divided by the one
   twelve rows earlier, minus one, times one hundred. This is computed once
   over the whole series, before any filtering.
2. **Selection reconciler** (`actualizar_grafico`). A multi-year picker and
   three shortcut cards (2006–2016, 2017–2021, 2022–2025) feed one callback.
   It decides the years to plot and the value the picker shows next.
3. **Chart projection.** It keeps the rows whose year is in the selection,
   orders them by month, and emits aligned month / IPC / `anual` traces.
4. **Click-to-card lookup** (`actualizar_tarjetas`). It finds the row whose
   month is nearest to the clicked date and fills the four card texts.
5. **Sidebar toggle** (`toggle_sidebar`). Click-count parity sets the
   `display` key of the sidebar's style.

Files, one module each: `wrappers.dfy` (`Option`), `dataset.dfy` (rows, yoy
column, headline, picker options), `selection.dfy` (reconciler),
`chart.dfy` (projection and the chart callback), `cards.dfy` (nearest lookup
and card texts), `sidebar.dfy` (toggle).

Representation:
- A loaded row is `Observation(month: Option<Month>, ipc: real)`. `Month`
  counts months from year 0, and `None` is a label that
  `errors="coerce"` turned into NaT. Such rows stay in the table.
- The `anual` column is `Annual = Missing | Pct(p) | PosInf | NegInf`, the
  float values that pandas' division can produce.
- Years are `Option<int>`, where `None` is the NaN that `df["Año"]` holds for
  a NaT month.
- The two copies differ in two places. The default selection is modelled for
  both (`Selection.DefaultPrueba` and `Selection.DefaultApp`), chosen by a
  `Variant`. The picker-options expression is modelled as `prueba.py` writes
  it (see "## Left out").

The model keeps these behaviours of the code as written:
- The yoy division has no zero guard. A zero index twelve rows back gives
  ±infinity, or NaN when both values are zero.
- An emptied picker gives a blank figure and an empty selection.
- An empty table makes `iloc[-1]` raise at start-up, so `Dataset.LastRow`
  returns `None`.
- Rows whose month does not parse are kept in the table. If no month parses
  at all, the default selection is `[NaN]`. The model assumes that pandas'
  `isin` counts that NaN as equal to the NaN years of those rows, so those
  rows are then plotted (`Selection.NaNOnlyFromUnparsedTable`,
  `Chart.UnparsedRowsNeverPlotted`).
- In `app.py` the default is `[max] if max else []`. NaN is truthy, so a
  table with no parsed month also gets `[NaN]`. A latest year equal to 0 is
  falsy and gives `[]`.
- The nearest-row lookup promises only a row at minimal distance. It does not
  promise the first of several equally near rows, because `argsort` uses an
  unstable sort.

## Model

| member | source | states |
|---|---|---|
| Dataset.YoyOf | prueba.py:24 | the yoy value is NaN exactly when both indices are 0; it is +inf or −inf exactly when the earlier index is 0 and the current one is positive or negative; it is finite exactly when the earlier index is non-zero |
| Dataset.YoyInverse | prueba.py:24 | a finite yoy value p holds iff the earlier index is non-zero and current = earlier × (1 + p/100), so the index can be rebuilt from the percentage |
| Dataset.Derive | prueba.py:24 | the enriched table has the same length, months and indices as the input; `anual` is NaN on rows 0–11 and, from row 12 on, is the ratio against the row exactly 12 positions earlier |
| Dataset.DeriveIsLocal | app.py:17 | a row's yoy value depends only on that row and the row 12 positions earlier |
| Dataset.TenPercentYear | app.py:17 | thirteen rows whose last index is 1.10 times the first give a yoy value of exactly 10% |
| Dataset.DeriveThenFilterDiffers | prueba.py:24 | computing the column once and then filtering keeps 10% for the last month of a 13-month series; computing it on the filtered single row gives NaN |
| Dataset.LastRow | prueba.py:27-29 | the headline is the last row's index, date and yoy value; there is none (start-up raises) exactly when the table is empty |
| Dataset.HeadlineYoy | app.py:20-22 | the headline yoy value is NaN for tables of at most 12 rows, otherwise the ratio of the last index to the index 12 rows before it |
| Dataset.PickerOptions | prueba.py:291 | the options are strictly ascending, and a year is an option iff some row's parsed month falls in it (NaN excluded) |
| Dataset.LatestYear | prueba.py:292 | `df["Año"].max()` is NaN iff no month parsed; otherwise it is a year of some row and no row's year exceeds it |
| Dataset.LatestIsLastOption | prueba.py:291-292 | the latest year is the last picker option, and there is one exactly when the options are non-empty |
| Selection.ShortcutYears | prueba.py:326-334 | each shortcut selects exactly the years 2006..2016, 2017..2021 or 2022..2025 inclusive, and nothing else |
| Selection.AsList | prueba.py:336-337 | a list selection is kept as it is; a bare value becomes a one-element list |
| Selection.DefaultPrueba | prueba.py:316 | the default selection is empty iff the table has no rows, and otherwise is `[latest year]` (NaN when no month parsed) |
| Selection.DefaultApp | app.py:302 | the default selection is empty iff the latest year is 0 (falsy), and otherwise is `[latest year]`, including `[NaN]` for a table without a parsed month |
| Selection.Reconcile | prueba.py:313-337 | with no trigger: default years, picker echoed. Picker fired: the picker's years (a bare value wrapped), picker echoed. A shortcut: its fixed span, picker reset to `[]` |
| Selection.PickerIsAuthoritative | app.py:312-315 | when the picker fires, the plotted years are exactly its years, its value is echoed unchanged, and an emptied picker empties the selection |
| Selection.ShortcutClearsPicker | app.py:316-324 | after any shortcut the picker's returned value is `[]` and the selection is non-empty |
| Selection.InitialPicker | prueba.py:292 | the picker starts with one value: `Some(y)` is in it iff y is a row's year that no row's year exceeds |
| Selection.InitialPickerMatchesDefault | app.py:302-313 | on a non-empty table, the picker firing with its initial value selects what the untriggered first call selects (in `app.py` unless the latest year is 0) |
| Selection.NaNOnlyFromUnparsedTable | prueba.py:316-334 | if some month parsed and the picker holds no NaN, no trigger yields a selection containing NaN |
| Chart.SortByMonth | prueba.py:343 | the ordering is a permutation of its input, ascending by month with NaT last |
| Chart.PlotOrder | prueba.py:342-343 | the plotted rows are exactly the rows whose year is in the selection, each once, ascending by month |
| Chart.Project | prueba.py:345-361 | the three traces have equal length, one point per plotted row: point k shows the k-th row of `PlotOrder` (its month, index and whole-series yoy value), so every selected row is shown exactly once; months ascend |
| Chart.UpdateChart | prueba.py:339-375 | the figure is blank exactly when the resolved selection is empty, and otherwise is the projection of that selection; the picker value returned is the reconciled one |
| Chart.EmptyPickerBlanksChart | app.py:330-332 | emptying the picker returns a blank figure and an empty picker, with no latest-year fallback |
| Chart.UnparsedRowsNeverPlotted | prueba.py:342 | a selection without NaN never plots a row whose month did not parse |
| Chart.PlotReadsSelectionAsSet | app.py:334 | two selections with the same members plot the same rows in the same order, so order and repetitions in the picker do not matter |
| Chart.TwoMonthScenario | app.py:334-353 | the rows Jan-24 = 150.0 and Feb-24 = 151.5 give the single option 2024; selecting 2024 plots both months in order, with IPC [150.0, 151.5] and both yoy values NaN |
| Cards.Nearest | prueba.py:390 | the chosen row has a parsed month whose distance to the clicked time is minimal over all dated rows of the full series; none exists iff no month parsed |
| Cards.UpdateCards | prueba.py:385-403 | with no click: the placeholder ("", "Seleccione punto", "", "Seleccione punto"). Otherwise a nearest row's date on both cards, its IPC, and its yoy value or "No disponible" when NaN |
| Cards.ClickOnPointShowsIt | app.py:379-385 | clicking exactly on a dated row's month, when no other row has that month, selects that row |
| Cards.StampIncreasing | prueba.py:388-390 | later months have strictly later timestamps, so the distance between month starts is faithful to month order |
| Sidebar.Toggle | prueba.py:411-419 | no count: the style kept, or `{"display": "none"}` when it is absent or empty. A count: display is "block" iff the count is odd and "none" iff even, display is the only key added, all other keys unchanged. No style: raises |
| Sidebar.ToggleParity | app.py:409-413 | counts n and n+2 give the same style; counts n and n+1 give different `display` values |
| Sidebar.ToggleIdempotent | app.py:405-413 | applying the same count again leaves the style unchanged |

## Left out

- Data loading: the Excel read, the generated-module import, and pandas' parsing of `%b-%y` labels and decimal-comma numbers. Rows arrive parsed, with `None` for a month that did not parse.
- Missing or infinite index values (`NaN` from an empty cell) are not modelled; the index is a `real`.
- Floating-point rounding and the signed zero of IEEE division. Values are `real`, and a zero divisor is one zero.
- String formatting (`strftime("%b-%Y")`, `:.2f`, the `%` suffix): card texts are abstract `CardText` values.
- Layout and style dictionaries, Plotly trace and axis styling, and Dash callback plumbing, including parsing the trigger id. The trigger is the `Trigger` datatype, and the picker's current value is a separate input.
- Chart.SortByMonth: the order among rows that share a month is not promised. `sort_values(by="Mes")` uses an unstable quicksort, while the model's insertion sort keeps table order, so the figure fixes one order the source does not.
- Dash's re-running of callbacks after an output changes an input: each call is modelled on its own.
- Server start-up (`app.run`) and the environment port lookup.
- Cards.Nearest: searches only rows with a parsed month. pandas' `argsort` gives −1 to NaT positions and counts positions among the non-NaT values only. With NaT rows present, the source's index can therefore point at a different row; that behaviour is not modelled.
- Cards.UpdateCards: returns `None` when a click arrives and no month parsed. The source raises on an empty table, and its behaviour on a table whose months are all NaT is not modelled.
- Cards.Nearest: does not promise which row wins among equally near ones, because `argsort`'s default sort is unstable.
- Dataset.PickerOptions: follows `prueba.py`, which drops NaN before sorting. `app.py` sorts first, and Python's sort is not guaranteed to order a list that contains NaN; that ordering is not modelled.
- Click times are whole nanoseconds since the epoch, and rows are placed at the start of their month. Parsing of the click string is not modelled.
- `pages/index.tsx` is a React page that fetches the data and renders it, with no logic of its own beyond scaling `anual` by 100. It is not part of this model.
