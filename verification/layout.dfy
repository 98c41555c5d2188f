/** The grid's layout configuration and the row height it asks for. */
module GridLayout {
  import opened Wrappers

  /** Padding around each row, in points. */
  datatype EdgeInsets = EdgeInsets(top: real, leading: real, bottom: real, trailing: real)

  /** The size the framework measures for the grid (its `GeometryProxy`). */
  datatype Geometry = Geometry(width: real, height: real)

  /** A caller-supplied row height: given the row id, the grid's geometry,
      the item spacing and the column count. */
  type RowHeightBlock = (int, Geometry, real, int) -> real

  /** How tall each row is. */
  datatype RowHeight =
    | Constant(height: real)
    | SameAsItemWidth
    | Dynamic(block: RowHeightBlock)

  /** The layout a grid starts with; `Layout()` gives the defaults: no
      padding, three columns, spacing 2 and square items. */
  datatype Layout = Layout(
    rowPadding: EdgeInsets := EdgeInsets(0.0, 0.0, 0.0, 0.0),
    numberOfColumns: int := 3,
    itemSpacing: real := 2.0,
    rowHeight: RowHeight := SameAsItemWidth)

  /** The default layout has three columns, item spacing 2, rows as tall as
      an item is wide and zero padding on every edge. */
  lemma DefaultLayout()
    ensures Layout().numberOfColumns == 3
    ensures Layout().itemSpacing == 2.0
    ensures Layout().rowHeight.SameAsItemWidth?
    ensures Layout().rowPadding == EdgeInsets(0.0, 0.0, 0.0, 0.0)
  {
  }

  /** The height of row `row`. Without a measured geometry the height is 0;
      a constant height is used as is; a square row takes the column width
      `columnWidth` computes from the layout and the measured width; a
      dynamic height asks the caller's block. */
  function RowHeightFor(row: int, metrics: Option<Geometry>, layout: Layout,
                        columnWidth: (Layout, real) -> real): (h: real)
    ensures metrics.None? ==> h == 0.0
    ensures metrics.Some? && layout.rowHeight.Constant? ==> h == layout.rowHeight.height
    ensures metrics.Some? && layout.rowHeight.SameAsItemWidth? ==>
              h == columnWidth(layout, metrics.value.width)
  {
    match metrics
    case None => 0.0
    case Some(m) =>
      match layout.rowHeight
      case Constant(c) => c
      case SameAsItemWidth => columnWidth(layout, m.width)
      case Dynamic(block) => block(row, m, layout.itemSpacing, layout.numberOfColumns)
  }
}
