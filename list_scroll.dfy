/** The "keep the active row visible" decision both widgets make after the
    keyboard moves the highlight. Coordinates are client-rectangle values,
    growing downward; the DOM measurement itself is not modelled. */
module ListScroll {

  /** The test in both widgets' `handleListScroll`: the row sticks out of the
      list container when its top is above the container's top or its bottom
      below the container's bottom. */
  predicate RowOutside(listTop: real, listBottom: real, rowTop: real, rowBottom: real)
  {
    rowTop < listTop || rowBottom > listBottom
  }

  /** What a widget asks the browser to do with the list container. */
  datatype ScrollRequest =
    | NoScroll
      /** `container.scroll({top})`: the Selectbox scrolls to the row's `offsetTop`. */
    | ScrollTo(top: real)
      /** `row.scrollIntoView(alignToTop)`: the Textfield aligns the row with the
          container's top edge when moving up and with its bottom edge when moving down. */
    | ScrollIntoView(alignToTop: bool)

  /** The Selectbox's decision for the row at `rowOffsetTop` (measured from the
      top of the container's content). */
  function SelectboxScroll(listTop: real, listBottom: real, rowTop: real, rowBottom: real,
                           rowOffsetTop: real): (r: ScrollRequest)
    ensures r == NoScroll || r == ScrollTo(rowOffsetTop)
    ensures r == NoScroll <==> listTop <= rowTop && rowBottom <= listBottom
  {
    if RowOutside(listTop, listBottom, rowTop, rowBottom) then ScrollTo(rowOffsetTop) else NoScroll
  }

  /** The Textfield's decision after an `ArrowUp` (`up`) or `ArrowDown` step. */
  function TextfieldScroll(listTop: real, listBottom: real, rowTop: real, rowBottom: real,
                           up: bool): (r: ScrollRequest)
    ensures r == NoScroll || r == ScrollIntoView(up)
    ensures r == NoScroll <==> listTop <= rowTop && rowBottom <= listBottom
  {
    if RowOutside(listTop, listBottom, rowTop, rowBottom) then ScrollIntoView(up) else NoScroll
  }

  /** Where the row's top and bottom are once `r` has been carried out:
      scrolling the container to the row's own offset brings the row's top to
      the container's top; `scrollIntoView` aligns the chosen edges. */
  function RowAfter(listTop: real, listBottom: real, rowTop: real, rowBottom: real,
                    r: ScrollRequest): (real, real)
  {
    var height := rowBottom - rowTop;
    match r
    case NoScroll => (rowTop, rowBottom)
    case ScrollTo(_) => (listTop, listTop + height)
    case ScrollIntoView(alignToTop) =>
      if alignToTop then (listTop, listTop + height) else (listBottom - height, listBottom)
  }

  /** The decision settles: a row no taller than the container, once
      scrolled as requested, is inside the container, so asking again at the
      same index requests nothing. */
  lemma ScrollSettles(listTop: real, listBottom: real, rowTop: real, rowBottom: real,
                      rowOffsetTop: real, up: bool)
    requires rowTop <= rowBottom && rowBottom - rowTop <= listBottom - listTop
    ensures var (t, b) := RowAfter(listTop, listBottom, rowTop, rowBottom,
                                   SelectboxScroll(listTop, listBottom, rowTop, rowBottom, rowOffsetTop));
            SelectboxScroll(listTop, listBottom, t, b, rowOffsetTop) == NoScroll
    ensures var (t, b) := RowAfter(listTop, listBottom, rowTop, rowBottom,
                                   TextfieldScroll(listTop, listBottom, rowTop, rowBottom, up));
            TextfieldScroll(listTop, listBottom, t, b, up) == NoScroll
  {
  }
}
