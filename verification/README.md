# CollectionView grid logic in Dafny

This project models the non-rendering logic of `CollectionView`, a SwiftUI
grid view that lays out a list of items in fixed-column rows and lets the
user select items by tapping. Four pieces are modelled and proved:

- **Row chunking** (the loop at the top of the view's `body`). The flat
  `items` list is cut into `ItemRow`s of at most `numberOfColumns` items,
  each numbered by how many rows came before it. `RowChunking.ChunkRows` is
  the loop. `RowChunking.Rows` is a recursive reference definition that
  takes `w` items at a time, where `w = max(numberOfColumns, 1)`. The loop
  is proved equal to it. The lemmas about `Rows` state the shape:
  - the rows concatenate back to `items`;
  - rows are non-empty and hold at most `w` items;
  - every row but the last is full;
  - the row count is `ceil(|items| / w)`;
  - ids equal indices;
  - these properties determine the rows uniquely.
- **Tap selection** (the `onTapGesture` handler). `Selection.Tapped` is the
  new selection list. `Selection.FirstIndex` and the linear search
  `Selection.FirstIndexOf` model `firstIndex(of:)`. The class method
  `CollectionViews.CollectionView.Tap` updates the view's `selectedItems`
  field in place.
- **Layout** (`GridLayout.Layout`): its default values and the four
  modifiers. Each modifier is a method of the view class that changes one
  field of `layout` and returns the same view.
- **Row height** (`GridLayout.RowHeightFor`): the branches of
  `getRowHeight`.

Items are a type parameter with equality, `T(==)`, which stands for Swift's
`Equatable`. `CGFloat` values are modelled as `real`: the model only stores
and returns them and does no arithmetic on them. Swift's `Int` is modelled
as an unbounded `int`.

`body` builds every row. It loops over all `items` (CollectionView.swift
lines 128-142) and hands every row to a `ForEach` inside a plain `VStack`
(lines 144-154). Nothing in the code limits rendering to rows on screen.

## Model

| member | source | states |
|---|---|---|
| `RowChunking.FlushAtWidth` | Sources/CollectionView/CollectionView.swift:134 | for a row holding at least one item, the flush test `count >= numberOfColumns` holds exactly when the row has reached `max(numberOfColumns, 1)` items |
| `RowChunking.Rows` | Sources/CollectionView/CollectionView.swift:128-142 | the reference row list: taking `max(numberOfColumns, 1)` items at a time, its rows concatenate back to `items`, and it is empty exactly when `items` is empty |
| `RowChunking.ChunkRows` | Sources/CollectionView/CollectionView.swift:128-142 | the append/flush loop with its final flush of a non-empty remainder returns exactly the reference row list `Rows(items, numberOfColumns)` |
| `RowChunking.RowsFromAt` | Sources/CollectionView/CollectionView.swift:131-141 | row `k` has id `k` and holds items `k*w` up to `min((k+1)*w, count)`, and its first index is inside the list |
| `RowChunking.RowsConcatenate` | Sources/CollectionView/CollectionView.swift:131-142 | concatenating the rows' items in order gives back `items` exactly |
| `RowChunking.RowsSizes` | Sources/CollectionView/CollectionView.swift:131-141 | no row is empty; no row holds more than `max(numberOfColumns, 1)` items; with `numberOfColumns >= 1` every row but the last holds exactly `numberOfColumns`; with `numberOfColumns <= 1` every row holds one item |
| `RowChunking.RowsCount` | Sources/CollectionView/CollectionView.swift:131-142 | the number of rows is `ceil(count / max(numberOfColumns, 1))`, which is `ceil(count / numberOfColumns)` when that is at least 1; there are no rows exactly when `items` is empty |
| `RowChunking.RowsIds` | Sources/CollectionView/CollectionView.swift:135-141 | each row's id equals its index, so the ids are `0, 1, ..., rows.count - 1` |
| `RowChunking.RowsCharacterized` | Sources/CollectionView/CollectionView.swift:128-142 | any row list that concatenates to `items`, is numbered from 0, has 1 to `max(numberOfColumns, 1)` items per row and is full in every row but the last equals `Rows(items, numberOfColumns)` |
| `Selection.FirstIndex` | Sources/CollectionView/CollectionView.swift:185 | `firstIndex(of:)` is nil exactly when the item is absent; otherwise it is an in-range index holding the item with no earlier occurrence |
| `Selection.FirstIndexOf` | Sources/CollectionView/CollectionView.swift:185 | the linear search returns the same index as the reference `FirstIndex` |
| `Selection.Tapped` | Sources/CollectionView/CollectionView.swift:184-192 | the selection after a tap. Outside selection mode it is exactly `[item]`. In selection mode an absent item is appended at the end. A present item loses one copy, so the list is one shorter and the multiset drops one `item` |
| `Selection.TapRemovesFirstOccurrence` | Sources/CollectionView/CollectionView.swift:184-186 | in selection mode, tapping an item whose first occurrence is at `i` gives `selected[..i] + selected[i+1..]`; the list loses one element and one copy of the item, and everything else keeps its relative order |
| `Selection.TapAppendsAbsent` | Sources/CollectionView/CollectionView.swift:187-188 | in selection mode, tapping an absent item appends it: the old selection is an unchanged prefix and the item is the new last element |
| `Selection.TapTwiceRestores` | Sources/CollectionView/CollectionView.swift:185-188 | in selection mode, tapping an absent item twice gives back the original selection list |
| `Selection.TapOutsideSelectionMode` | Sources/CollectionView/CollectionView.swift:190-191 | outside selection mode the selection becomes exactly `[item]`, whatever it held |
| `Selection.TapToggles` | Sources/CollectionView/CollectionView.swift:184-189 | on a duplicate-free selection, a tap in selection mode toggles the item's membership, leaves every other item's membership alone and keeps the list duplicate-free |
| `GridLayout.DefaultLayout` | Sources/CollectionView/CollectionView.swift:61-69 | the default layout has 3 columns, item spacing 2, row height `.sameAsItemWidth` and zero padding |
| `GridLayout.RowHeightFor` | Sources/CollectionView/CollectionView.swift:215-225 | with no geometry the row height is 0; `.constant(c)` gives `c`; `.sameAsItemWidth` gives the column width computed from the layout and the measured width |
| `CollectionViews.DefaultLayoutRows` | Sources/CollectionView/CollectionView.swift:62 | with the default column count, rows hold 1 to 3 items, all but the last hold exactly 3, and there are `ceil(count / 3)` rows |
| `CollectionViews.CollectionView.constructor` | Sources/CollectionView/CollectionView.swift:104-120 | the view stores the given items, selection, selection-mode flag and layout, which defaults to `Layout()` |
| `CollectionViews.CollectionView.RowPadding` | Sources/CollectionView/CollectionView.swift:12-15 | sets `layout.rowPadding`, leaves the other three layout fields and all other state unchanged, and returns the same view |
| `CollectionViews.CollectionView.ItemSpacing` | Sources/CollectionView/CollectionView.swift:17-20 | sets `layout.itemSpacing`, leaves the other three layout fields and all other state unchanged, and returns the same view |
| `CollectionViews.CollectionView.NumberOfColumns` | Sources/CollectionView/CollectionView.swift:22-25 | sets `layout.numberOfColumns`, leaves the other three layout fields and all other state unchanged, and returns the same view |
| `CollectionViews.CollectionView.RowHeight` | Sources/CollectionView/CollectionView.swift:27-30 | sets `layout.rowHeight`, leaves the other three layout fields and all other state unchanged, and returns the same view |
| `CollectionViews.CollectionView.Body` | Sources/CollectionView/CollectionView.swift:127-142 | the rows the body builds are `Rows(items, layout.numberOfColumns)` for the view's current items and column count |
| `CollectionViews.CollectionView.Tap` | Sources/CollectionView/CollectionView.swift:183-192 | a tap replaces `selectedItems` in place with `Tapped(old selection, selectionMode, item)` and changes nothing else |

## Left out

- All SwiftUI view construction: `GeometryReader`, `ScrollView`, the stacks, `ForEach`, `ZStack`, the selection-indicator circle, z-order, hit-testing and padding application. These are rendering by the host framework. `Body` returns only the rows the view would render.
- Gesture recognition and the user callbacks `tapAction`, `longPressAction` and `pressAction`, including the long-press duration and distance (lines 194-201). These are framework event delivery and opaque closures.
- `getColumnWidth` (lines 209-213) is floating-point arithmetic that divides by `numberOfColumns` without a zero guard. `RowHeightFor` takes it as a parameter `columnWidth`. That parameter receives the layout and the measured width, the same inputs the source reads.
- `GridLayout.RowHeightFor`: its contract does not state the `.dynamic` branch. That branch returns whatever the caller's block returns for the row id, geometry, spacing and column count. The block is modelled as a total function, and `GeometryProxy` is reduced to the measured size.
- `CGFloat` rounding and Swift `Int` overflow are not modelled. Values are `real` and unbounded `int`.
- `CollectionViews.CollectionView.constructor`: the model stores the given layout, as the assignment `self.layout = layout` at line 119 is written. In the source, `layout` is a SwiftUI `@State` property (line 80), and this write happens before the view is installed. SwiftUI ignores writes to `@State` made in that window, so the running view most likely keeps `Layout()`. The model gives the written assignment, not that framework behaviour.
- `CollectionViews.CollectionView.RowPadding`: the model applies the write to `layout.rowPadding` (line 13). In the source, this write goes to the `@State` property of a view value that is not yet installed, so SwiftUI most likely drops it. The model gives the written assignment, not that framework behaviour.
- `CollectionViews.CollectionView.ItemSpacing`: the model applies the write to `layout.itemSpacing` (line 18). In the source, this write goes to the `@State` property of a view value that is not yet installed, so SwiftUI most likely drops it. The model gives the written assignment, not that framework behaviour.
- `CollectionViews.CollectionView.NumberOfColumns`: the model applies the write to `layout.numberOfColumns` (line 23). In the source, this write goes to the `@State` property of a view value that is not yet installed, so SwiftUI most likely drops it. The model gives the written assignment, not that framework behaviour.
- `CollectionViews.CollectionView.RowHeight`: the model applies the write to `layout.rowHeight` (line 28). In the source, this write goes to the `@State` property of a view value that is not yet installed, so SwiftUI most likely drops it. The model gives the written assignment, not that framework behaviour.
- The `@Binding` and `@State` wrappers are modelled as plain fields of the view object. Sharing a binding with a parent view (aliasing) is not modelled.
- Sources/CollectionView/CollectionView_Utils.swift is not part of this model. It holds main-queue scheduling and a scroll-offset reporting view, which are concurrency and UI plumbing.
- `CollectionView_Previews` is preview scaffolding and is not modelled.
