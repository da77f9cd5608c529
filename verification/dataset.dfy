/** The in-memory IPC table of the dashboard: rows as loaded, the
    year-over-year column derived once over the whole series, the headline
    summary of the last row, and the year picker's options. */
module Dataset {
  import opened Wrappers

  /** A month counted from year 0: year `m / 12`, month of year `m % 12 + 1`. */
  type Month = int

  /** A row as loaded: `month` is None when the label did not parse (NaT). */
  datatype Observation = Observation(month: Option<Month>, ipc: real)

  /** The float `anual` column under IEEE rules: NaN, a finite percentage,
      or an infinity from a division by a zero index. */
  datatype Annual = Missing | Pct(percent: real) | PosInf | NegInf

  /** A row of the enriched table. */
  datatype Row = Row(month: Option<Month>, ipc: real, anual: Annual)

  /** The summary of the last row shown in the two headline cards. */
  datatype Headline = Headline(date: Option<Month>, ipc: real, anual: Annual)

  /** Lookback of the yoy column, in rows. */
  const Lookback: nat := 12

  function Year(m: Month): int {
    m / 12
  }

  /** `(cur / prev - 1) * 100` on floats: no guard against a zero divisor. */
  function YoyOf(prev: real, cur: real): (a: Annual)
    ensures a == Missing <==> prev == 0.0 && cur == 0.0
    ensures a == PosInf <==> prev == 0.0 && cur > 0.0
    ensures a == NegInf <==> prev == 0.0 && cur < 0.0
    ensures a.Pct? <==> prev != 0.0
  {
    if prev != 0.0 then Pct((cur / prev - 1.0) * 100.0)
    else if cur > 0.0 then PosInf
    else if cur < 0.0 then NegInf
    else Missing
  }

  /** A finite yoy value is the percentage by which the current index exceeds
      the one a year earlier: the index can be rebuilt from it. */
  lemma YoyInverse(prev: real, cur: real, p: real)
    ensures YoyOf(prev, cur) == Pct(p) <==> prev != 0.0 && cur == prev * (1.0 + p / 100.0)
  {
  }

  /** The yoy value at row `i`: undefined for the first twelve rows, else the
      ratio against the row twelve positions earlier. */
  function YoyAt(obs: seq<Observation>, i: nat): Annual
    requires i < |obs|
  {
    if i < Lookback then Missing else YoyOf(obs[i - Lookback].ipc, obs[i].ipc)
  }

  /** Adds the `anual` column once, over the whole series and by position. */
  function Derive(obs: seq<Observation>): (rows: seq<Row>)
    ensures |rows| == |obs|
    ensures forall i :: 0 <= i < |rows| ==>
      rows[i].month == obs[i].month && rows[i].ipc == obs[i].ipc
    ensures forall i :: 0 <= i < |rows| && i < 12 ==> rows[i].anual == Missing
    ensures forall i :: 12 <= i < |rows| ==>
      rows[i].anual == YoyOf(obs[i - 12].ipc, obs[i].ipc)
  {
    seq(|obs|, i requires 0 <= i < |obs| => Row(obs[i].month, obs[i].ipc, YoyAt(obs, i)))
  }

  /** The yoy value of a row depends only on that row and the row twelve
      positions earlier: two series agreeing there agree on the value. */
  lemma DeriveIsLocal(a: seq<Observation>, b: seq<Observation>, i: nat)
    requires i < |a| && i < |b|
    requires a[i].ipc == b[i].ipc
    requires i >= 12 ==> a[i - 12].ipc == b[i - 12].ipc
    ensures Derive(a)[i].anual == Derive(b)[i].anual
  {
  }

  /** Thirteen months where the last is 1.10 times the first give 10%. */
  lemma TenPercentYear(obs: seq<Observation>)
    requires |obs| == 13 && obs[0].ipc > 0.0
    requires obs[12].ipc == 1.1 * obs[0].ipc
    ensures Derive(obs)[12].anual == Pct(10.0)
  {
    YoyInverse(obs[0].ipc, obs[12].ipc, 10.0);
  }

  /** Deriving after filtering is not the same as deriving once and then
      filtering: a thirteen-row series cut to its last row loses its value. */
  lemma DeriveThenFilterDiffers()
    ensures var obs := seq(13, k => Observation(Some(2023 * 12 + k), if k == 12 then 110.0 else 100.0));
      Derive(obs)[12].anual == Pct(10.0) && Derive(obs[12..])[0].anual == Missing
  {
  }

  /** Headline cards: the last row's index, date and yoy value. The source
      indexes `iloc[-1]`, which raises on an empty table (None here). */
  function LastRow(rows: seq<Row>): (h: Option<Headline>)
    ensures h.None? <==> |rows| == 0
    ensures h.Some? ==>
      h.value.ipc == rows[|rows| - 1].ipc && h.value.date == rows[|rows| - 1].month
      && h.value.anual == rows[|rows| - 1].anual
  {
    if |rows| == 0 then None
    else var last := rows[|rows| - 1]; Some(Headline(last.month, last.ipc, last.anual))
  }

  /** The headline yoy card shows the ratio of the last index to the one
      twelve rows before it, or NaN when the table has twelve rows or fewer. */
  lemma HeadlineYoy(obs: seq<Observation>)
    requires |obs| > 0
    ensures var h := LastRow(Derive(obs));
      h.Some? && h.value.ipc == obs[|obs| - 1].ipc
      && (|obs| <= 12 ==> h.value.anual == Missing)
      && (|obs| > 12 ==> h.value.anual == YoyOf(obs[|obs| - 13].ipc, obs[|obs| - 1].ipc))
  {
  }

  /** Row `i` exists and its month parsed. */
  predicate Dated(rows: seq<Row>, i: int) {
    0 <= i < |rows| && rows[i].month.Some?
  }

  /** Some row of `rows[..n]` has a month in year `y`. */
  predicate HasYearBelow(rows: seq<Row>, n: nat, y: int)
    requires n <= |rows|
  {
    exists i :: 0 <= i < n && Dated(rows, i) && Year(rows[i].month.value) == y
  }

  /** Some row has a month in year `y`. */
  predicate HasYear(rows: seq<Row>, y: int) {
    HasYearBelow(rows, |rows|, y)
  }

  predicate StrictlyIncreasing(xs: seq<int>) {
    forall a, b :: 0 <= a < b < |xs| ==> xs[a] < xs[b]
  }

  /** Adds `y` to a strictly increasing sequence, keeping it so. */
  function InsertYear(y: int, xs: seq<int>): (r: seq<int>)
    requires StrictlyIncreasing(xs)
    ensures StrictlyIncreasing(r)
    ensures forall z :: z in r <==> z == y || z in xs
    decreases |xs|
  {
    if xs == [] then [y]
    else if y < xs[0] then [y] + xs
    else if y == xs[0] then xs
    else
      var rest := InsertYear(y, xs[1..]);
      forall z | z in rest ensures xs[0] < z {
        if z != y {
          var b :| 0 <= b < |xs[1..]| && xs[1..][b] == z;
          assert xs[b + 1] == z;
        }
      }
      ConsIncreasing(xs[0], rest);
      [xs[0]] + rest
  }

  lemma ConsIncreasing(h: int, t: seq<int>)
    requires StrictlyIncreasing(t)
    requires forall z :: z in t ==> h < z
    ensures StrictlyIncreasing([h] + t)
  {
    var r := [h] + t;
    forall a, b | 0 <= a < b < |r| ensures r[a] < r[b] {
      if a == 0 {
        assert r[b] == t[b - 1] && t[b - 1] in t;
      } else {
        assert r[a] == t[a - 1] && r[b] == t[b - 1];
      }
    }
  }

  /** The distinct years of `rows[..n]`, ascending. */
  function YearsBelow(rows: seq<Row>, n: nat): (r: seq<int>)
    requires n <= |rows|
    ensures StrictlyIncreasing(r)
    ensures forall y :: y in r <==> HasYearBelow(rows, n, y)
  {
    if n == 0 then []
    else
      var prev := YearsBelow(rows, n - 1);
      var last := rows[n - 1];
      if last.month.None? then prev else InsertYear(Year(last.month.value), prev)
  }

  /** The picker's options: the distinct years that some row's month falls
      in, ascending, without the NaN of unparsed months. */
  function PickerOptions(rows: seq<Row>): (r: seq<int>)
    ensures StrictlyIncreasing(r)
    ensures forall y :: y in r <==> HasYear(rows, y)
  {
    YearsBelow(rows, |rows|)
  }

  /** `df["Año"].max()`: the latest year of a parsed month, or NaN (None)
      when no month parsed. */
  function LatestYear(rows: seq<Row>): (r: Option<int>)
    ensures r.None? <==> forall i :: 0 <= i < |rows| ==> rows[i].month.None?
    ensures r.Some? ==> HasYear(rows, r.value)
    ensures r.Some? ==> forall i :: Dated(rows, i) ==> Year(rows[i].month.value) <= r.value
    decreases |rows|
  {
    if |rows| == 0 then None
    else
      var prev := LatestYear(rows[..|rows| - 1]);
      var last := rows[|rows| - 1];
      if last.month.None? then prev
      else match prev
        case None => Some(Year(last.month.value))
        case Some(p) => Some(if p < Year(last.month.value) then Year(last.month.value) else p)
  }

  /** The latest year is the last picker option, and there is one exactly
      when the options are not empty. */
  lemma LatestIsLastOption(rows: seq<Row>)
    ensures var opts := PickerOptions(rows);
      (LatestYear(rows).None? <==> opts == [])
      && (opts != [] ==> LatestYear(rows) == Some(opts[|opts| - 1]))
  {
    var opts := PickerOptions(rows);
    var latest := LatestYear(rows);
    if opts != [] {
      var top := opts[|opts| - 1];
      assert top in opts;
      var i :| 0 <= i < |rows| && Dated(rows, i) && Year(rows[i].month.value) == top;
      assert latest.Some? && top <= latest.value;
      assert latest.value in opts;
    }
    if latest.Some? {
      assert latest.value in opts;
    }
  }
}
