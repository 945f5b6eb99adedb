/** The two pieces of arithmetic the screen layout relies on (src/ui.rs): the area inside a
    bordered block, and the scroll offset that keeps the selected row of a list on screen. */
module Ui {

  /** A terminal rectangle: its top-left cell and its size in cells. */
  datatype Rect = Rect(x: nat, y: nat, width: nat, height: nat)

  /** `r` lies within `outer`. */
  predicate Within(r: Rect, outer: Rect)
  {
    outer.x <= r.x && r.x + r.width <= outer.x + outer.width
    && outer.y <= r.y && r.y + r.height <= outer.y + outer.height
  }

  /** `inner_rect`: the area inside a one-cell border. Each axis loses a cell on both sides
      when it is at least two cells long, and is kept as it is otherwise. */
  function InnerRect(area: Rect): (inner: Rect)
    ensures area.width >= 2 ==> inner.x == area.x + 1 && inner.width == area.width - 2
    ensures area.width < 2 ==> inner.x == area.x && inner.width == area.width
    ensures area.height >= 2 ==> inner.y == area.y + 1 && inner.height == area.height - 2
    ensures area.height < 2 ==> inner.y == area.y && inner.height == area.height
    ensures Within(inner, area)
  {
    var horizontal := if area.width >= 2 then area.(x := area.x + 1, width := area.width - 2) else area;
    if horizontal.height >= 2 then horizontal.(y := horizontal.y + 1, height := horizontal.height - 2)
    else horizontal
  }

  /** Taking the inner area twice peels two borders: the result still lies inside the
      first inner area, and an area too small to peel is a fixed point. */
  lemma InnerRectNests(area: Rect)
    ensures Within(InnerRect(InnerRect(area)), InnerRect(area))
    ensures area.width < 2 && area.height < 2 ==> InnerRect(area) == area
  {
  }

  /** `min(current, total - 1)`: the current offset pulled back into the list. */
  function Clamped(current: nat, total: nat): (r: nat)
    requires total > 0
    ensures r < total
    ensures r <= current
    ensures current < total ==> r == current
  {
    if current < total - 1 then current else total - 1
  }

  /** `ensure_visible`: the new scroll offset of a list of `total` rows shown `viewHeight`
      at a time, with row `selected` chosen and the list scrolled to `current` before. */
  function EnsureVisible(current: nat, selected: nat, total: nat, viewHeight: nat): (scroll: nat)
    ensures total == 0 || viewHeight == 0 ==> scroll == 0
    ensures selected < total && viewHeight > 0 ==> scroll <= selected < scroll + viewHeight
    ensures selected < total ==> scroll < total
    ensures total > 0 && viewHeight > 0 && Clamped(current, total) <= selected < Clamped(current, total) + viewHeight
            ==> scroll == Clamped(current, total)
  {
    if total == 0 || viewHeight == 0 then 0
    else
      var base := Clamped(current, total);
      if selected < base then selected
      else if selected >= base + viewHeight then selected + 1 - viewHeight
      else base
  }

  /** The rows a caller shows after scrolling: from the offset up to `viewHeight` rows, cut
      at the end of the list. */
  function VisibleEnd(scroll: nat, total: nat, viewHeight: nat): nat
  {
    if scroll + viewHeight < total then scroll + viewHeight else total
  }

  /** The window the callers slice out is a valid range of the list, and it holds the
      selected row. */
  lemma VisibleWindow(current: nat, selected: nat, total: nat, viewHeight: nat)
    requires selected < total && viewHeight > 0
    ensures var start := EnsureVisible(current, selected, total, viewHeight);
      start <= VisibleEnd(start, total, viewHeight) <= total
      && start <= selected < VisibleEnd(start, total, viewHeight)
  {
  }

  /** The offset moves as little as it can: among all offsets that show the selected row,
      none is closer to where the list was (clamped into the list). */
  lemma EnsureVisibleIsNearest(current: nat, selected: nat, total: nat, viewHeight: nat, other: nat)
    requires selected < total && viewHeight > 0
    requires other <= selected < other + viewHeight
    ensures var base := Clamped(current, total);
      Distance(EnsureVisible(current, selected, total, viewHeight), base) <= Distance(other, base)
  {
  }

  /** How far apart two offsets are. */
  function Distance(a: nat, b: nat): nat
  {
    if a < b then b - a else a - b
  }
}
