/** The click-to-card lookup of `actualizar_tarjetas`: the row whose month is
    nearest to the clicked date fills the two "selected" cards. */
module Cards {
  import opened Wrappers
  import opened Dataset

  /** A card's text, with number formatting kept abstract. */
  datatype CardText =
    | Plain(text: string)          // a literal string
    | MonthLabel(month: Month)     // `strftime("%b-%Y")` of a month
    | TwoDecimals(value: real)     // `f"{v:.2f}"`
    | Percent(anual: Annual)       // `f"{v:.2f}%"`

  /** Date and index of the IPC card, date and yoy value of the annual card. */
  datatype Cards = Cards(ipcDate: CardText, ipcValue: CardText, anualDate: CardText, anualValue: CardText)

  const NotAvailable: string := "No disponible"
  const PickPoint: string := "Seleccione punto"

  /** What the cards show before any click. */
  const Placeholder: Cards := Cards(Plain(""), Plain(PickPoint), Plain(""), Plain(PickPoint))

  const NanosPerDay: int := 86_400_000_000_000

  /** January 1970, the month of the epoch. */
  const EpochMonth: Month := 1970 * 12

  predicate IsLeapYear(y: int) {
    y % 4 == 0 && (y % 100 != 0 || y % 400 == 0)
  }

  /** Days in month `m` of the proleptic Gregorian calendar. */
  function MonthLength(m: Month): (d: int)
    ensures 28 <= d <= 31
  {
    var mo := m % 12 + 1;
    if mo == 2 then (if IsLeapYear(Year(m)) then 29 else 28)
    else if mo == 4 || mo == 6 || mo == 9 || mo == 11 then 30
    else 31
  }

  /** Days from 1970-01-01 to the first day of month `m`. */
  function DaysToMonthStart(m: Month): int
    decreases if m < EpochMonth then EpochMonth - m else m - EpochMonth
  {
    if m == EpochMonth then 0
    else if m > EpochMonth then DaysToMonthStart(m - 1) + MonthLength(m - 1)
    else DaysToMonthStart(m + 1) - MonthLength(m)
  }

  /** The timestamp of a parsed month's first instant, in nanoseconds since the epoch. */
  function Stamp(m: Month): int {
    DaysToMonthStart(m) * NanosPerDay
  }

  /** `abs(df["Mes"] - clicked)` for a row with a month. */
  function Distance(m: Month, t: int): nat {
    if Stamp(m) <= t then t - Stamp(m) else Stamp(m) - t
  }

  /** Row `i` is a dated row no farther from `t` than any other dated row. */
  predicate IsNearest(rows: seq<Row>, t: int, i: int) {
    && Dated(rows, i)
    && forall j :: 0 <= j < |rows| && rows[j].month.Some? ==>
         Distance(rows[i].month.value, t) <= Distance(rows[j].month.value, t)
  }

  /** The dated row of `rows[lo..]` nearest to `t`, or None when none is
      dated. Which of several equally near rows wins is not promised. */
  function NearestFrom(rows: seq<Row>, t: int, lo: nat): (r: Option<nat>)
    requires lo <= |rows|
    ensures r.None? <==> forall j :: lo <= j < |rows| ==> rows[j].month.None?
    ensures r.Some? ==> lo <= r.value && Dated(rows, r.value)
    ensures r.Some? ==> forall j :: lo <= j && Dated(rows, j) ==>
      Distance(rows[r.value].month.value, t) <= Distance(rows[j].month.value, t)
    decreases |rows| - lo
  {
    if lo == |rows| then None
    else
      var rest := NearestFrom(rows, t, lo + 1);
      if rows[lo].month.None? then rest
      else match rest
        case None => Some(lo)
        case Some(k) =>
          if Distance(rows[lo].month.value, t) <= Distance(rows[k].month.value, t) then Some(lo) else Some(k)
  }

  /** The nearest dated row over the whole series. */
  function Nearest(rows: seq<Row>, t: int): (r: Option<nat>)
    ensures r.None? <==> forall j :: 0 <= j < |rows| ==> rows[j].month.None?
    ensures r.Some? ==> IsNearest(rows, t, r.value)
  {
    NearestFrom(rows, t, 0)
  }

  /** The cards show a dated row: its date on both, its index, and its yoy
      value or "No disponible" when that is NaN. */
  predicate ShowsRow(c: Cards, row: Row) {
    && row.month.Some?
    && c.ipcDate == MonthLabel(row.month.value)
    && c.anualDate == c.ipcDate
    && c.ipcValue == TwoDecimals(row.ipc)
    && (row.anual.Missing? ==> c.anualValue == Plain(NotAvailable))
    && (!row.anual.Missing? ==> c.anualValue == Percent(row.anual))
  }

  /** The callback: the placeholder without a click; otherwise the nearest
      row's date on both cards, its index, and its yoy value or "No
      disponible" when that is NaN. None when no row has a month to match. */
  function UpdateCards(rows: seq<Row>, click: Option<int>): (c: Option<Cards>)
    ensures click.None? ==> c == Some(Placeholder)
    ensures click.Some? ==> (c.None? <==> forall j :: 0 <= j < |rows| ==> rows[j].month.None?)
    ensures click.Some? && c.Some? ==>
      exists i :: IsNearest(rows, click.value, i) && ShowsRow(c.value, rows[i])
  {
    match click
    case None => Some(Placeholder)
    case Some(t) =>
      match Nearest(rows, t) {
        case None => None
        case Some(i) =>
          var date := MonthLabel(rows[i].month.value);
          var anual := if rows[i].anual.Missing? then Plain(NotAvailable) else Percent(rows[i].anual);
          Some(Cards(date, TwoDecimals(rows[i].ipc), date, anual))
      }
  }

  /** Clicking exactly on a row's month start when no other row shares that
      month shows that row. */
  lemma ClickOnPointShowsIt(rows: seq<Row>, i: nat)
    requires Dated(rows, i)
    requires forall j :: Dated(rows, j) && j != i ==> rows[j].month != rows[i].month
    ensures Nearest(rows, Stamp(rows[i].month.value)) == Some(i)
  {
    var t := Stamp(rows[i].month.value);
    var r := Nearest(rows, t);
    assert Distance(rows[i].month.value, t) == 0;
    assert r.Some?;
    if r.value != i {
      assert Distance(rows[r.value].month.value, t) == 0;
      StampInjective(rows[r.value].month.value, rows[i].month.value);
    }
  }

  lemma StampInjective(a: Month, b: Month)
    requires Stamp(a) == Stamp(b)
    ensures a == b
  {
    if a < b {
      StampIncreasing(a, b);
    } else if b < a {
      StampIncreasing(b, a);
    }
  }

  /** Later months start at strictly later instants. */
  lemma StampIncreasing(a: Month, b: Month)
    requires a < b
    ensures Stamp(a) < Stamp(b)
  {
    DaysIncreasing(a, b);
  }

  lemma {:induction false} DaysIncreasing(a: Month, b: Month)
    requires a < b
    ensures DaysToMonthStart(a) < DaysToMonthStart(b)
    decreases b - a
  {
    NextMonthStart(a);
    if a + 1 < b {
      DaysIncreasing(a + 1, b);
    }
  }

  /** A month starts as many days after the previous one as that one is long. */
  lemma NextMonthStart(m: Month)
    ensures DaysToMonthStart(m + 1) == DaysToMonthStart(m) + MonthLength(m)
  {
  }
}
