/** The selection reconciler of `actualizar_grafico`: a year picker and three
    fixed-range shortcut cards feed one callback, which decides the years to
    plot and the value the picker shows next. */
module Selection {
  import opened Wrappers
  import opened Dataset

  /** A year as the float column holds it: None is NaN. */
  type YearKey = Option<int>

  /** The picker's value: normally a list, possibly a bare value. */
  datatype PickerValue = Many(keys: seq<YearKey>) | Single(key: YearKey)

  /** The control that fired the callback; the trigger-id string is not modelled. */
  datatype Trigger = NoTrigger | PickerChanged | Range0616 | Range1721 | Range2225

  /** The two copies of the dashboard differ in their default selection. */
  datatype Variant = Prueba | App

  /** The years to plot and the value the picker should now show. */
  datatype Resolution = Resolution(years: seq<YearKey>, picker: PickerValue)

  /** `list(range(lo, hi))` as year keys. */
  function YearSpan(lo: int, hi: int): (r: seq<YearKey>)
    requires lo <= hi
    ensures |r| == hi - lo
    ensures forall k :: 0 <= k < |r| ==> r[k] == Some(lo + k)
  {
    seq(hi - lo, k => Some(lo + k))
  }

  /** The year span a shortcut card stands for; NoTrigger and the picker have none. */
  function ShortcutSpan(t: Trigger): seq<YearKey>
    requires t.Range0616? || t.Range1721? || t.Range2225?
  {
    match t
    case Range0616 => YearSpan(2006, 2017)
    case Range1721 => YearSpan(2017, 2022)
    case Range2225 => YearSpan(2022, 2026)
  }

  /** Each shortcut selects exactly its inclusive range of years, in order. */
  lemma ShortcutYears(t: Trigger, y: YearKey)
    requires t.Range0616? || t.Range1721? || t.Range2225?
    ensures var lo := if t.Range0616? then 2006 else if t.Range1721? then 2017 else 2022;
      var hi := if t.Range0616? then 2016 else if t.Range1721? then 2021 else 2025;
      (y in ShortcutSpan(t) <==> y.Some? && lo <= y.value <= hi)
      && |ShortcutSpan(t)| == hi - lo + 1
  {
    var span := ShortcutSpan(t);
    var lo := if t.Range0616? then 2006 else if t.Range1721? then 2017 else 2022;
    if y.Some? && lo <= y.value < lo + |span| {
      assert span[y.value - lo] == y;
    }
  }

  /** A bare picker value is wrapped into a one-element list. */
  function AsList(v: PickerValue): (r: seq<YearKey>)
    ensures v.Many? ==> r == v.keys
    ensures v.Single? ==> r == [v.key]
  {
    match v
    case Many(keys) => keys
    case Single(key) => [key]
  }

  /** prueba.py: `[df["Año"].max()]` unless the table has no rows. */
  function DefaultPrueba(rows: seq<Row>): (r: seq<YearKey>)
    ensures |rows| == 0 <==> r == []
    ensures |rows| > 0 ==> r == [LatestYear(rows)]
  {
    if |rows| == 0 then [] else [LatestYear(rows)]
  }

  /** app.py: `[df["Año"].max()] if df["Año"].max() else []`. NaN is truthy,
      so a table without any parsed month keeps `[NaN]`; only a latest year
      equal to 0 is falsy and gives the empty list. */
  function DefaultApp(rows: seq<Row>): (r: seq<YearKey>)
    ensures r == [] <==> LatestYear(rows) == Some(0)
    ensures r != [] ==> r == [LatestYear(rows)]
  {
    match LatestYear(rows)
    case None => [None]
    case Some(y) => if y == 0 then [] else [Some(y)]
  }

  function DefaultSelection(v: Variant, rows: seq<Row>): seq<YearKey> {
    match v
    case Prueba => DefaultPrueba(rows)
    case App => DefaultApp(rows)
  }

  /** Resolves the years to plot from the control that fired, given the
      picker's current value. */
  function Reconcile(v: Variant, rows: seq<Row>, picker: PickerValue, t: Trigger): (r: Resolution)
    ensures t.NoTrigger? ==> r.years == DefaultSelection(v, rows) && r.picker == picker
    ensures t.PickerChanged? ==> r.years == AsList(picker) && r.picker == picker
    ensures t.Range0616? ==> r.years == YearSpan(2006, 2017) && r.picker == Many([])
    ensures t.Range1721? ==> r.years == YearSpan(2017, 2022) && r.picker == Many([])
    ensures t.Range2225? ==> r.years == YearSpan(2022, 2026) && r.picker == Many([])
  {
    match t
    case NoTrigger => Resolution(DefaultSelection(v, rows), picker)
    case PickerChanged => Resolution(AsList(picker), picker)
    case _ => Resolution(ShortcutSpan(t), Many([]))
  }

  /** The picker is authoritative when it fires: the plotted years are its
      years, emptying it empties the selection (there is no fallback year),
      and its value is echoed back unchanged. */
  lemma PickerIsAuthoritative(v: Variant, rows: seq<Row>, ys: seq<YearKey>)
    ensures Reconcile(v, rows, Many(ys), PickerChanged) == Resolution(ys, Many(ys))
    ensures Reconcile(v, rows, Many([]), PickerChanged).years == []
  {
  }

  /** After a shortcut the picker reads empty, never the shortcut's range. */
  lemma ShortcutClearsPicker(v: Variant, rows: seq<Row>, picker: PickerValue, t: Trigger)
    requires t.Range0616? || t.Range1721? || t.Range2225?
    ensures Reconcile(v, rows, picker, t).picker == Many([])
    ensures |Reconcile(v, rows, picker, t).years| > 0
  {
  }

  /** The picker's initial value, `[df["Año"].max()]`, in both copies. */
  function InitialPicker(rows: seq<Row>): (r: PickerValue)
    ensures r.Many? && |r.keys| == 1
    ensures forall y :: Some(y) in r.keys <==> HasYear(rows, y) && forall i :: Dated(rows, i) ==> Year(rows[i].month.value) <= y
  {
    Many([LatestYear(rows)])
  }

  /** On a non-empty table the picker's initial value and the default
      selection agree: the picker firing with its initial value plots what
      the first, untriggered call plots. */
  lemma InitialPickerMatchesDefault(rows: seq<Row>)
    requires |rows| > 0
    ensures Reconcile(Prueba, rows, InitialPicker(rows), PickerChanged).years
         == Reconcile(Prueba, rows, InitialPicker(rows), NoTrigger).years
    ensures LatestYear(rows) != Some(0) ==>
      Reconcile(App, rows, InitialPicker(rows), PickerChanged).years
      == Reconcile(App, rows, InitialPicker(rows), NoTrigger).years
  {
  }

  /** A selection holds the NaN year only through the default on a table
      none of whose months parsed, or through a picker value holding it. */
  lemma NaNOnlyFromUnparsedTable(v: Variant, rows: seq<Row>, picker: PickerValue, t: Trigger)
    requires None !in AsList(picker)
    requires exists i :: Dated(rows, i)
    ensures None !in Reconcile(v, rows, picker, t).years
  {
  }
}
