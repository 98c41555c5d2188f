/** The grid view's state: the items it shows, the shared selection, the
    selection-mode flag and its layout. */
module CollectionViews {
  import opened GridLayout
  import opened RowChunking
  import opened Selection

  /** Under the default layout every row holds one to three items, every
      row but the last holds exactly three, and there are
      `ceil(|items| / 3)` rows. */
  lemma DefaultLayoutRows<T>(items: seq<T>)
    ensures forall k :: 0 <= k < |Rows(items, Layout().numberOfColumns)| ==>
              0 < |Rows(items, Layout().numberOfColumns)[k].items| <= 3
    ensures forall k :: 0 <= k < |Rows(items, Layout().numberOfColumns)| - 1 ==>
              |Rows(items, Layout().numberOfColumns)[k].items| == 3
    ensures |Rows(items, Layout().numberOfColumns)| == (|items| + 2) / 3
  {
    RowsSizes(items, 3);
    RowsCount(items, 3);
  }

  class CollectionView<T(==)> {
    var items: seq<T>
    var selectedItems: seq<T>
    var selectionMode: bool
    var layout: Layout

    constructor (items: seq<T>, selectedItems: seq<T>, selectionMode: bool,
                 layout: Layout := Layout())
      ensures this.items == items && this.selectedItems == selectedItems
      ensures this.selectionMode == selectionMode && this.layout == layout
    {
      this.items := items;
      this.selectedItems := selectedItems;
      this.selectionMode := selectionMode;
      this.layout := layout;
    }

    /** Sets the row padding and returns the same view. */
    method RowPadding(padding: EdgeInsets) returns (view: CollectionView<T>)
      modifies this`layout
      ensures view == this
      ensures layout.rowPadding == padding
      ensures layout.numberOfColumns == old(layout.numberOfColumns)
      ensures layout.itemSpacing == old(layout.itemSpacing)
      ensures layout.rowHeight == old(layout.rowHeight)
    {
      layout := layout.(rowPadding := padding);
      view := this;
    }

    /** Sets the spacing between items and rows and returns the same view. */
    method ItemSpacing(itemSpacing: real) returns (view: CollectionView<T>)
      modifies this`layout
      ensures view == this
      ensures layout.itemSpacing == itemSpacing
      ensures layout.rowPadding == old(layout.rowPadding)
      ensures layout.numberOfColumns == old(layout.numberOfColumns)
      ensures layout.rowHeight == old(layout.rowHeight)
    {
      layout := layout.(itemSpacing := itemSpacing);
      view := this;
    }

    /** Sets the column count and returns the same view. */
    method NumberOfColumns(numberOfColumns: int) returns (view: CollectionView<T>)
      modifies this`layout
      ensures view == this
      ensures layout.numberOfColumns == numberOfColumns
      ensures layout.rowPadding == old(layout.rowPadding)
      ensures layout.itemSpacing == old(layout.itemSpacing)
      ensures layout.rowHeight == old(layout.rowHeight)
    {
      layout := layout.(numberOfColumns := numberOfColumns);
      view := this;
    }

    /** Sets the row height strategy and returns the same view. */
    method RowHeight(rowHeight: GridLayout.RowHeight) returns (view: CollectionView<T>)
      modifies this`layout
      ensures view == this
      ensures layout.rowHeight == rowHeight
      ensures layout.rowPadding == old(layout.rowPadding)
      ensures layout.numberOfColumns == old(layout.numberOfColumns)
      ensures layout.itemSpacing == old(layout.itemSpacing)
    {
      layout := layout.(rowHeight := rowHeight);
      view := this;
    }

    /** The rows the view's body lays out for its current items. */
    method Body() returns (rows: seq<ItemRow<T>>)
      ensures rows == Rows(items, layout.numberOfColumns)
    {
      rows := ChunkRows(items, layout.numberOfColumns);
    }

    /** A tap on `item` updates the shared selection in place. */
    method Tap(item: T)
      modifies this`selectedItems
      ensures selectedItems == Tapped(old(selectedItems), selectionMode, item)
    {
      if selectionMode {
        var index := FirstIndexOf(selectedItems, item);
        match index
        case Some(i) =>
          selectedItems := selectedItems[..i] + selectedItems[i + 1..];
        case None =>
          selectedItems := selectedItems + [item];
      } else {
        selectedItems := [item];
      }
    }
  }
}
