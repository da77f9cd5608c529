/** The chart projection of `actualizar_grafico`: keep the rows whose year is
    in the resolved selection, order them by month, and emit the aligned
    month / index / yoy traces of the figure. */
module Chart {
  import opened Wrappers
  import opened Dataset
  import opened Selection

  /** `go.Figure()` with no traces, or the two traces sharing one x axis. */
  datatype Figure = Blank | Traces(x: seq<Option<Month>>, ipc: seq<real>, anual: seq<Annual>)

  /** What the callback returns: the figure and the picker's new value. */
  datatype ChartUpdate = ChartUpdate(figure: Figure, picker: PickerValue)

  /** The row's year as the float column holds it (NaN for NaT). */
  function YearKeyOf(m: Option<Month>): YearKey {
    match m
    case None => None
    case Some(v) => Some(Year(v))
  }

  /** `df["Año"].isin(years)`; pandas matches NaN against NaN. */
  predicate Selected(rows: seq<Row>, years: seq<YearKey>, i: int) {
    0 <= i < |rows| && YearKeyOf(rows[i].month) in years
  }

  /** `sort_values(by="Mes")` order: ascending months, NaT last. */
  predicate MonthLe(a: Option<Month>, b: Option<Month>) {
    match (a, b)
    case (Some(x), Some(y)) => x <= y
    case (Some(_), None) => true
    case (None, Some(_)) => false
    case (None, None) => true
  }

  predicate InRange(rows: seq<Row>, xs: seq<nat>) {
    forall k :: 0 <= k < |xs| ==> xs[k] < |rows|
  }

  predicate SortedByMonth(rows: seq<Row>, xs: seq<nat>)
    requires InRange(rows, xs)
  {
    forall a, b :: 0 <= a < b < |xs| ==> MonthLe(rows[xs[a]].month, rows[xs[b]].month)
  }

  predicate Increasing(xs: seq<nat>) {
    forall a, b :: 0 <= a < b < |xs| ==> xs[a] < xs[b]
  }

  /** The positions of the selected rows among the first `n`, in table order. */
  function SelectedBelow(rows: seq<Row>, years: seq<YearKey>, n: nat): (r: seq<nat>)
    requires n <= |rows|
    ensures Increasing(r)
    ensures forall k :: 0 <= k < |r| ==> r[k] < n
    ensures forall i :: i in r <==> 0 <= i < n && Selected(rows, years, i)
  {
    if n == 0 then []
    else
      var prev := SelectedBelow(rows, years, n - 1);
      if Selected(rows, years, n - 1) then prev + [n - 1] else prev
  }

  /** Inserts row `i` before the first row with a later month. */
  function InsertByMonth(rows: seq<Row>, i: nat, xs: seq<nat>): (r: seq<nat>)
    requires i < |rows| && InRange(rows, xs) && SortedByMonth(rows, xs)
    ensures InRange(rows, r) && SortedByMonth(rows, r)
    ensures multiset(r) == multiset(xs) + multiset{i}
    decreases |xs|
  {
    if xs == [] then [i]
    else if MonthLe(rows[i].month, rows[xs[0]].month) then
      ConsSorted(rows, i, xs);
      [i] + xs
    else
      var rest := InsertByMonth(rows, i, xs[1..]);
      assert xs == [xs[0]] + xs[1..];
      forall k | k in rest ensures MonthLe(rows[xs[0]].month, rows[k].month) {
        assert k in multiset(xs[1..]) + multiset{i};
        if k != i {
          var b :| 0 <= b < |xs[1..]| && xs[1..][b] == k;
          assert xs[b + 1] == k;
        }
      }
      ConsSorted(rows, xs[0], rest);
      [xs[0]] + rest
  }

  /** A row no later than every row of a sorted sequence may go first. */
  lemma ConsSorted(rows: seq<Row>, h: nat, t: seq<nat>)
    requires h < |rows| && InRange(rows, t) && SortedByMonth(rows, t)
    requires forall k :: k in t ==> MonthLe(rows[h].month, rows[k].month)
    ensures InRange(rows, [h] + t) && SortedByMonth(rows, [h] + t)
  {
  }

  /** Orders row positions by month. */
  function SortByMonth(rows: seq<Row>, xs: seq<nat>): (r: seq<nat>)
    requires InRange(rows, xs)
    ensures InRange(rows, r) && SortedByMonth(rows, r)
    ensures multiset(r) == multiset(xs)
    decreases |xs|
  {
    if xs == [] then []
    else
      assert xs == [xs[0]] + xs[1..];
      InsertByMonth(rows, xs[0], SortByMonth(rows, xs[1..]))
  }

  /** The positions of the rows to plot: every selected row exactly once,
      nothing else, ascending by month. */
  function PlotOrder(rows: seq<Row>, years: seq<YearKey>): (r: seq<nat>)
    ensures InRange(rows, r) && SortedByMonth(rows, r)
    ensures forall i :: i in r <==> Selected(rows, years, i)
    ensures forall a, b :: 0 <= a < b < |r| ==> r[a] != r[b]
  {
    var sel := SelectedBelow(rows, years, |rows|);
    var r := SortByMonth(rows, sel);
    assert forall i :: i in r <==> i in multiset(sel);
    forall a, b | 0 <= a < b < |r|
      ensures r[a] != r[b]
    {
      if r[a] == r[b] {
        TwiceCountsTwice(r, a, b);
        IncreasingCountsOnce(sel, r[a]);
      }
    }
    r
  }

  lemma {:induction false} IncreasingCountsOnce(xs: seq<nat>, x: nat)
    requires Increasing(xs)
    ensures multiset(xs)[x] <= 1
    decreases |xs|
  {
    if xs != [] {
      assert xs == [xs[0]] + xs[1..];
      IncreasingCountsOnce(xs[1..], x);
      if x == xs[0] {
        assert x !in xs[1..];
      }
    }
  }

  lemma TwiceCountsTwice(xs: seq<nat>, a: nat, b: nat)
    requires a < b < |xs| && xs[a] == xs[b]
    ensures multiset(xs)[xs[a]] >= 2
  {
    assert xs == xs[..b] + xs[b..];
    assert xs[a] in xs[..b];
    assert xs[b] == xs[b..][0];
  }

  /** Point `k` of the figure shows `row`: its month on the x axis, its
      index on the first trace and its yoy value on the second. */
  predicate Shows(f: Figure, k: int, row: Row) {
    && f.Traces?
    && 0 <= k < |f.x| && k < |f.ipc| && k < |f.anual|
    && f.x[k] == row.month && f.ipc[k] == row.ipc && f.anual[k] == row.anual
  }

  /** Point `k` of the figure shows some selected row. */
  ghost predicate ShowsSelectedRow(rows: seq<Row>, years: seq<YearKey>, f: Figure, k: int) {
    exists i :: Selected(rows, years, i) && Shows(f, k, rows[i])
  }

  /** The traces of the rows at `order`, point for point. */
  function TracesAt(rows: seq<Row>, order: seq<nat>): (f: Figure)
    requires InRange(rows, order)
    ensures f.Traces? && |f.x| == |f.ipc| == |f.anual| == |order|
    ensures forall k :: 0 <= k < |order| ==> Shows(f, k, rows[order[k]])
  {
    Traces(seq(|order|, k requires 0 <= k < |order| => rows[order[k]].month),
           seq(|order|, k requires 0 <= k < |order| => rows[order[k]].ipc),
           seq(|order|, k requires 0 <= k < |order| => rows[order[k]].anual))
  }

  /** The two traces over the plotted rows: every point is a selected row,
      every selected row is a point, months ascend, and the yoy values are
      those of the whole-series column. */
  function Project(rows: seq<Row>, years: seq<YearKey>): (f: Figure)
    ensures f.Traces?
    ensures |f.x| == |f.ipc| == |f.anual|
    ensures forall k :: 0 <= k < |f.x| ==> ShowsSelectedRow(rows, years, f, k)
    ensures forall i :: Selected(rows, years, i) ==>
      exists k :: 0 <= k < |f.x| && Shows(f, k, rows[i])
    ensures forall a, b :: 0 <= a < b < |f.x| ==> MonthLe(f.x[a], f.x[b])
    ensures |f.x| == |PlotOrder(rows, years)|
    ensures forall k :: 0 <= k < |f.x| ==> Shows(f, k, rows[PlotOrder(rows, years)[k]])
  {
    var order := PlotOrder(rows, years);
    var f := TracesAt(rows, order);
    forall k | 0 <= k < |f.x|
      ensures ShowsSelectedRow(rows, years, f, k)
    {
      assert order[k] in order;
      assert Shows(f, k, rows[order[k]]);
    }
    forall i | Selected(rows, years, i)
      ensures exists k :: 0 <= k < |f.x| && Shows(f, k, rows[i])
    {
      assert i in order;
      var k :| 0 <= k < |order| && order[k] == i;
      assert Shows(f, k, rows[order[k]]);
    }
    forall a, b | 0 <= a < b < |f.x|
      ensures MonthLe(f.x[a], f.x[b])
    {
      assert Shows(f, a, rows[order[a]]) && Shows(f, b, rows[order[b]]);
    }
    f
  }

  /** The callback: reconcile, then a blank figure for an empty selection
      or the projected traces otherwise; the picker value goes back as
      reconciled. */
  function UpdateChart(v: Variant, rows: seq<Row>, picker: PickerValue, t: Trigger): (u: ChartUpdate)
    ensures u.picker == Reconcile(v, rows, picker, t).picker
    ensures u.figure.Blank? <==> Reconcile(v, rows, picker, t).years == []
    ensures u.figure.Traces? ==> u.figure == Project(rows, Reconcile(v, rows, picker, t).years)
  {
    var res := Reconcile(v, rows, picker, t);
    if res.years == [] then ChartUpdate(Blank, res.picker)
    else ChartUpdate(Project(rows, res.years), res.picker)
  }

  /** Emptying the picker blanks the chart; no latest-year fallback. */
  lemma EmptyPickerBlanksChart(v: Variant, rows: seq<Row>)
    ensures UpdateChart(v, rows, Many([]), PickerChanged) == ChartUpdate(Blank, Many([]))
  {
  }

  /** Rows whose month did not parse are plotted only under a selection
      holding the NaN year. */
  lemma UnparsedRowsNeverPlotted(rows: seq<Row>, years: seq<YearKey>)
    requires None !in years
    ensures forall k :: 0 <= k < |Project(rows, years).x| ==> Project(rows, years).x[k].Some?
  {
  }

  /** The filter reads the selection as a set: its order and repetitions do
      not change the plotted rows, from which the figure is built. */
  lemma PlotReadsSelectionAsSet(rows: seq<Row>, ys: seq<YearKey>, zs: seq<YearKey>)
    requires forall y :: y in ys <==> y in zs
    ensures PlotOrder(rows, ys) == PlotOrder(rows, zs)
  {
    SameSelection(rows, ys, zs, |rows|);
  }

  lemma {:induction false} SameSelection(rows: seq<Row>, ys: seq<YearKey>, zs: seq<YearKey>, n: nat)
    requires n <= |rows|
    requires forall y :: y in ys <==> y in zs
    ensures SelectedBelow(rows, ys, n) == SelectedBelow(rows, zs, n)
  {
    if n > 0 {
      SameSelection(rows, ys, zs, n - 1);
    }
  }

  /** Two months of 2024: one option, both yoy values NaN, and selecting the
      year plots both points in order. */
  lemma TwoMonthScenario()
    ensures var rows := Derive([Observation(Some(2024 * 12), 150.0), Observation(Some(2024 * 12 + 1), 151.5)]);
      && PickerOptions(rows) == [2024]
      && Project(rows, [Some(2024)])
         == Traces([Some(2024 * 12), Some(2024 * 12 + 1)], [150.0, 151.5], [Missing, Missing])
  {
    var obs := [Observation(Some(2024 * 12), 150.0), Observation(Some(2024 * 12 + 1), 151.5)];
    var rows := [Row(Some(2024 * 12), 150.0, Missing), Row(Some(2024 * 12 + 1), 151.5, Missing)];
    assert Derive(obs) == rows;
    TwoMonthOptions(rows);
    TwoMonthProjection(rows);
  }

  lemma TwoMonthOptions(rows: seq<Row>)
    requires rows == [Row(Some(2024 * 12), 150.0, Missing), Row(Some(2024 * 12 + 1), 151.5, Missing)]
    ensures PickerOptions(rows) == [2024]
  {
    assert YearsBelow(rows, 1) == [2024];
    assert YearsBelow(rows, 2) == InsertYear(2024, [2024]) == [2024];
  }

  lemma TwoMonthProjection(rows: seq<Row>)
    requires rows == [Row(Some(2024 * 12), 150.0, Missing), Row(Some(2024 * 12 + 1), 151.5, Missing)]
    ensures Project(rows, [Some(2024)])
         == Traces([Some(2024 * 12), Some(2024 * 12 + 1)], [150.0, 151.5], [Missing, Missing])
  {
    TwoMonthOrder(rows);
    var f := TracesAt(rows, [0, 1]);
    assert Project(rows, [Some(2024)]) == f;
    assert Shows(f, 0, rows[0]) && Shows(f, 1, rows[1]);
    assert f.x == [Some(2024 * 12), Some(2024 * 12 + 1)];
    assert f.ipc == [150.0, 151.5];
    assert f.anual == [Missing, Missing];
  }

  lemma TwoMonthOrder(rows: seq<Row>)
    requires rows == [Row(Some(2024 * 12), 150.0, Missing), Row(Some(2024 * 12 + 1), 151.5, Missing)]
    ensures PlotOrder(rows, [Some(2024)]) == [0, 1]
  {
    var ys := [Some(2024)];
    assert Year(2024 * 12) == 2024 && Year(2024 * 12 + 1) == 2024;
    assert Selected(rows, ys, 0) && Selected(rows, ys, 1);
    assert SelectedBelow(rows, ys, 0) == [];
    assert SelectedBelow(rows, ys, 1) == [0];
    assert SelectedBelow(rows, ys, 2) == [0, 1];
    assert SortByMonth(rows, [1]) == [1];
    assert SortByMonth(rows, [0, 1]) == InsertByMonth(rows, 0, [1]) == [0, 1];
  }
}
