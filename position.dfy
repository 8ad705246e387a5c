/** Where an element lands on the grid: the start row from `position`,
    `top` and `bottom`, the horizontal offset from `right`, `middle` and
    `left`, and each line's column from `text-align`. Rows and columns are
    the 1-based cursor coordinates the terminal expects. */
module Position {
  import opened Wrappers
  import opened Lengths
  import opened StyleSheet
  import opened SizeContext

  /** The start row: flowing with the text around it (PHP `false`), a fixed
      row, or, for a fixed element with neither `top` nor `bottom`, the
      variable the code leaves unset (PHP `null`). */
  datatype StartRow = Flow | Row(n: int) | Unset

  datatype Align = Left | Center | Right

  /** `key` is set to an integer or percentage value. */
  predicate LengthAt(style: Style, key: string)
  {
    key in style && ParseLength(style[key]).Some?
  }

  /** The value of `key` in cells along an axis of `extent` cells. */
  function Offset(style: Style, key: string, extent: int): int
    requires LengthAt(style, key)
  {
    Resolve(ParseLength(style[key]).value, extent)
  }

  predicate IsFixed(style: Style)
  {
    "position" in style && style["position"] == "fixed"
  }

  /** The one of `top` / `bottom` that a fixed element reads holds a length. */
  predicate StartRowDefined(style: Style)
  {
    IsFixed(style) ==>
      if "top" in style then LengthAt(style, "top") else "bottom" in style ==> LengthAt(style, "bottom")
  }

  /** `_getStartRow`: `top` counts down from the first row, `bottom` up from
      the last; `top` wins when both are set. */
  function GetStartRow(style: Style, size: Size): (r: StartRow)
    requires StartRowDefined(style)
    ensures r == Flow <==> !IsFixed(style)
    ensures r == Unset <==> IsFixed(style) && "top" !in style && "bottom" !in style
  {
    if !IsFixed(style) then Flow
    else if "top" in style then Row(Offset(style, "top", size.rows) + 1)
    else if "bottom" in style then Row(size.rows - Offset(style, "bottom", size.rows))
    else Unset
  }

  /** The one of `right` / `middle` / `left` that is read holds a length. */
  predicate HOffDefined(style: Style)
  {
    if "right" in style then LengthAt(style, "right")
    else if "middle" in style then LengthAt(style, "middle")
    else "left" in style ==> LengthAt(style, "left")
  }

  /** `_getHOff`: the column offset of an element `width` cells wide in a
      viewport `cols` cells wide, the element then occupying columns
      r .. r + width - 1. `right: n` leaves n columns free after it,
      `middle: n` puts its cell at index width/2 on column n, `left: n`
      leaves n columns free before it, and with none of them it starts at
      column 0. */
  function GetHOff(style: Style, cols: int, width: nat): (r: int)
    requires HOffDefined(style)
    ensures "right" in style ==> cols - (r + width - 1) == Offset(style, "right", cols)
    ensures "right" !in style && "middle" in style ==> r + width / 2 - 1 == Offset(style, "middle", cols)
    ensures "right" !in style && "middle" !in style && "left" in style ==> r - 1 == Offset(style, "left", cols)
    ensures "right" !in style && "middle" !in style && "left" !in style ==> r == 0
  {
    if "right" in style then cols - width - Offset(style, "right", cols) + 1
    else if "middle" in style then Offset(style, "middle", cols) - width / 2 + 1
    else if "left" in style then Offset(style, "left", cols) + 1
    else 0
  }

  /** `text-align`, where a missing or unknown value means `left`. */
  function AlignOf(style: Style): Align
  {
    if "text-align" in style && style["text-align"] == "center" then Center
    else if "text-align" in style && style["text-align"] == "right" then Right
    else Left
  }

  /** How far a line of `len` cells is shifted inside an element `width`
      cells wide. */
  function AlignShift(a: Align, len: int, width: int): int
  {
    match a
    case Left => 0
    case Center => (width - len) / 2
    case Right => width - len
  }

  /** `_getStartCol`: the column where a line of `len` cells starts inside
      an element `width` cells wide: on the offset when left-aligned, ending
      on the element's right edge when right-aligned, and with as much room
      on its left as on its right, or one cell less, when centred. */
  function GetStartCol(style: Style, cols: int, len: int, width: nat): (r: int)
    requires HOffDefined(style)
    ensures AlignOf(style) == Left ==> r == GetHOff(style, cols, width)
    ensures AlignOf(style) == Right ==> r + len == GetHOff(style, cols, width) + width
    ensures AlignOf(style) == Center ==>
      var before := r - GetHOff(style, cols, width);
      var after := width - len - before;
      before <= after <= before + 1
  {
    GetHOff(style, cols, width) + AlignShift(AlignOf(style), len, width)
  }

  // Properties of the start row

  /** With `top` set, `bottom` is never looked at. */
  lemma TopWins(style: Style, size: Size)
    requires StartRowDefined(style) && IsFixed(style) && "top" in style
    ensures StartRowDefined(style - {"bottom"})
    ensures GetStartRow(style, size) == GetStartRow(style - {"bottom"}, size)
  {
  }

  /** A fixed element with `top: t` starts t rows below the first row; a
      percentage between 0 and 100 keeps it between row 1 and one past the
      last row. */
  lemma RowFromTop(style: Style, size: Size)
    requires IsFixed(style) && LengthAt(style, "top")
    ensures GetStartRow(style, size).Row?
    ensures GetStartRow(style, size).n - 1 == Offset(style, "top", size.rows)
    ensures ParseLength(style["top"]).value.Percent? && 0 <= ParseLength(style["top"]).value.p <= 100
            && size.rows >= 0 ==>
      1 <= GetStartRow(style, size).n <= size.rows + 1
  {
    var l := ParseLength(style["top"]).value;
    if l.Percent? && 0 <= l.p <= 100 && size.rows >= 0 {
      ResolveWithin(l.p, size.rows);
    }
  }

  /** A fixed element with only `bottom: b` starts b rows above the last row;
      a percentage between 0 and 100 keeps it between row 0 and the last row. */
  lemma RowFromBottom(style: Style, size: Size)
    requires IsFixed(style) && "top" !in style && LengthAt(style, "bottom")
    ensures GetStartRow(style, size).Row?
    ensures GetStartRow(style, size).n + Offset(style, "bottom", size.rows) == size.rows
    ensures ParseLength(style["bottom"]).value.Percent? && 0 <= ParseLength(style["bottom"]).value.p <= 100
            && size.rows >= 0 ==>
      0 <= GetStartRow(style, size).n <= size.rows
  {
    var l := ParseLength(style["bottom"]).value;
    if l.Percent? && 0 <= l.p <= 100 && size.rows >= 0 {
      ResolveWithin(l.p, size.rows);
    }
  }

  // Properties of the horizontal offset

  /** Only the first of `right`, `middle`, `left` that is set matters; with
      none of them the offset is 0. */
  lemma HOffPrecedence(style: Style, cols: int, width: nat)
    requires HOffDefined(style)
    ensures "right" in style ==>
      GetHOff(style, cols, width) == GetHOff(map["right" := style["right"]], cols, width)
    ensures "right" !in style && "middle" in style ==>
      GetHOff(style, cols, width) == GetHOff(map["middle" := style["middle"]], cols, width)
    ensures "right" !in style && "middle" !in style && "left" in style ==>
      GetHOff(style, cols, width) == GetHOff(map["left" := style["left"]], cols, width)
    ensures "right" !in style && "middle" !in style && "left" !in style ==>
      GetHOff(style, cols, width) == 0
  {
  }

  /** A larger percentage for `left` never moves the element left. */
  lemma LeftPercentMonotone(style: Style, p: int, q: int, cols: nat, width: nat)
    requires "right" !in style && "middle" !in style
    requires p <= q
    ensures HOffDefined(style["left" := ShowLength(Percent(p))])
    ensures HOffDefined(style["left" := ShowLength(Percent(q))])
    ensures GetHOff(style["left" := ShowLength(Percent(p))], cols, width) <=
            GetHOff(style["left" := ShowLength(Percent(q))], cols, width)
  {
    ParseShowLength(Percent(p));
    ParseShowLength(Percent(q));
    ResolveMonotone(p, q, cols);
  }

  // Properties of the start column

  /** Only `center` and `right` shift a line; any other value, or none,
      aligns it on the offset like `left`. */
  lemma UnknownAlignIsLeft(style: Style, cols: int, len: int, width: nat)
    requires HOffDefined(style)
    requires "text-align" !in style || style["text-align"] !in {"center", "right"}
    ensures GetStartCol(style, cols, len, width) == GetHOff(style, cols, width)
  {
  }

  /** A line no wider than the element starts inside it and ends inside it. */
  lemma AlignWithin(style: Style, cols: int, len: int, width: nat)
    requires HOffDefined(style)
    requires 0 <= len <= width
    ensures GetHOff(style, cols, width) <= GetStartCol(style, cols, len, width)
    ensures GetStartCol(style, cols, len, width) + len <= GetHOff(style, cols, width) + width
  {
  }

  /** A line as wide as the element starts on the offset whatever the
      alignment; this is how `applyFocus` finds the element's left edge. */
  lemma FullWidthIsOffset(style: Style, cols: int, width: nat)
    requires HOffDefined(style)
    ensures GetStartCol(style, cols, width, width) == GetHOff(style, cols, width)
  {
  }

  /** `right` beats `left`: 80 columns, width 10, `right: 5; left: 2` gives
      offset 80 - 10 - 5 + 1 = 66. */
  lemma RightBeatsLeftExample()
    ensures HOffDefined(map["right" := "5", "left" := "2"])
    ensures GetHOff(map["right" := "5", "left" := "2"], 80, 10) == 66
  {
    assert ParseLength("5") == Some(Cells(5));
  }

  /** Centring a 4-cell line in a 10-cell element at offset 0 gives column 3. */
  lemma CenterExample()
    ensures GetStartCol(map["text-align" := "center"], 80, 4, 10) == 3
  {
  }
}
