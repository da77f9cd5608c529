/** The sidebar toggle of `toggle_sidebar`: the menu button's click count
    decides, by parity, whether the sidebar is displayed. */
module Sidebar {
  import opened Wrappers

  /** A style dictionary of the sidebar. */
  type Style = map<string, string>

  const Display: string := "display"

  /** The default when there is no style: hidden. */
  const Hidden: Style := map[Display := "none"]

  /** `toggle_sidebar(n_clicks, style)`. Without a click count the style is
      kept, an absent or empty one (falsy) becoming `Hidden`. With a count
      the `display` key is set; an absent style cannot be assigned into and
      the callback raises (None). */
  function Toggle(clicks: Option<int>, style: Option<Style>): (r: Option<Style>)
    ensures clicks.None? && style.Some? && style.value != map[] ==> r == style
    ensures clicks.None? && (style.None? || style.value == map[]) ==> r == Some(Hidden)
    ensures clicks.Some? ==> (r.None? <==> style.None?)
    ensures clicks.Some? && r.Some? ==>
      && r.value.Keys == style.value.Keys + {Display}
      && (r.value[Display] == "block" <==> clicks.value % 2 == 1)
      && (r.value[Display] == "none" <==> clicks.value % 2 == 0)
      && forall k :: k in style.value && k != Display ==> r.value[k] == style.value[k]
  {
    match clicks
    case None =>
      if style.None? || style.value == map[] then Some(Hidden) else style
    case Some(n) =>
      match style {
        case None => None
        case Some(s) => Some(s[Display := if n % 2 == 1 then "block" else "none"])
      }
  }

  /** Only the parity of the count matters, and the next click flips it. */
  lemma ToggleParity(n: int, s: Style)
    ensures Toggle(Some(n + 2), Some(s)) == Toggle(Some(n), Some(s))
    ensures Toggle(Some(n + 1), Some(s)).value[Display] != Toggle(Some(n), Some(s)).value[Display]
  {
  }

  /** Each click sets `display` from scratch, so the result does not depend
      on the displayed state before it: re-applying the same count is a
      no-op. */
  lemma ToggleIdempotent(n: int, s: Style)
    ensures Toggle(Some(n), Toggle(Some(n), Some(s))) == Toggle(Some(n), Some(s))
  {
    var once := Toggle(Some(n), Some(s)).value;
    var twice := Toggle(Some(n), Some(once)).value;
    assert twice == once;
  }
}
