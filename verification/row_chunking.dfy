/** The grid's row chunking: the flat item list is cut into rows of at most
    `numberOfColumns` items, numbered 0, 1, 2, ... in order. */
module RowChunking {

  /** One row of the grid: its identifier and the items it shows. */
  datatype ItemRow<T> = ItemRow(id: int, items: seq<T>)

  function Min(a: int, b: int): (m: int) { if a <= b then a else b }

  /** The number of items at which a growing row is flushed. The loop flushes
      as soon as `count >= numberOfColumns`; since a row holds at least one
      item when it is tested, a column count below 1 acts as 1. */
  function Width(numberOfColumns: int): (w: nat)
    ensures w >= 1
  {
    if numberOfColumns < 1 then 1 else numberOfColumns
  }

  /** The flush test of the loop, `count >= numberOfColumns`, fires exactly
      when the row has reached `Width(numberOfColumns)` items. */
  lemma FlushAtWidth(count: int, numberOfColumns: int)
    requires count >= 1
    ensures count >= numberOfColumns <==> count >= Width(numberOfColumns)
  {
  }

  /** All items of the rows, in row order. */
  function Flatten<T>(rows: seq<ItemRow<T>>): (s: seq<T>)
  {
    if rows == [] then [] else rows[0].items + Flatten(rows[1..])
  }

  /** Reference definition: take `w` items (or all that are left) as the row
      numbered `id`, then chunk the rest starting from `id + 1`. */
  function RowsFrom<T>(items: seq<T>, w: nat, id: int): (r: seq<ItemRow<T>>)
    requires w >= 1
    decreases |items|
  {
    if |items| == 0 then []
    else
      var k := Min(w, |items|);
      [ItemRow(id, items[..k])] + RowsFrom(items[k..], w, id + 1)
  }

  /** The rows the grid shows for `items` with the given column count. */
  function Rows<T>(items: seq<T>, numberOfColumns: int): (r: seq<ItemRow<T>>)
    ensures Flatten(r) == items
    ensures r == [] <==> items == []
  {
    RowsFromFlatten(items, Width(numberOfColumns), 0);
    RowsFrom(items, Width(numberOfColumns), 0)
  }

  /** Concatenating the rows gives back the items. */
  lemma {:induction false} RowsFromFlatten<T>(items: seq<T>, w: nat, id: int)
    requires w >= 1
    ensures Flatten(RowsFrom(items, w, id)) == items
    decreases |items|
  {
    if |items| > 0 {
      var k := Min(w, |items|);
      RowsFromFlatten(items[k..], w, id + 1);
      assert items[..k] + items[k..] == items;
    }
  }

  /** `x / w` is the unique `q` with `x == q * w + r` and `0 <= r < w`. */
  lemma DivUnique(x: int, w: int, q: int, r: int)
    requires w >= 1 && 0 <= r < w && x == q * w + r
    ensures x / w == q
  {
    var q', r' := x / w, x % w;
    assert x == q' * w + r';
    if q' < q {
      assert (q - q') * w >= w by { MulAtLeast(q - q', w); }
      assert false;
    } else if q' > q {
      assert (q' - q) * w >= w by { MulAtLeast(q' - q, w); }
      assert false;
    }
  }

  lemma MulAtLeast(a: int, w: int)
    requires a >= 1 && w >= 1
    ensures a * w >= w
  {
  }

  /** The number of rows is the ceiling of `|items| / w`. */
  lemma {:induction false} RowsFromLength<T>(items: seq<T>, w: nat, id: int)
    requires w >= 1
    ensures |RowsFrom(items, w, id)| == (|items| + w - 1) / w
    decreases |items|
  {
    if |items| == 0 {
      DivUnique(w - 1, w, 0, w - 1);
    } else if |items| <= w {
      assert RowsFrom(items[|items|..], w, id + 1) == [];
      DivUnique(|items| + w - 1, w, 1, |items| - 1);
    } else {
      RowsFromLength(items[w..], w, id + 1);
      CeilStep(|items|, w);
    }
  }

  /** One more full row adds one to the ceiling. */
  lemma CeilStep(n: int, w: int)
    requires n > w >= 1
    ensures (n + w - 1) / w == (n - w + w - 1) / w + 1
  {
    var q, r := (n - 1) / w, (n - 1) % w;
    MulSucc(q, w);
    DivUnique(n + w - 1, w, q + 1, r);
  }

  lemma MulSucc(k: int, w: int)
    ensures (k + 1) * w == k * w + w
  {
  }

  /** Row `k` is numbered `id + k` and holds items `k*w` up to `(k+1)*w`
      (or up to the end of the list for the last row). */
  lemma {:induction false} RowsFromAt<T>(items: seq<T>, w: nat, id: int, k: nat)
    requires w >= 1
    requires k < |RowsFrom(items, w, id)|
    ensures k * w < |items|
    ensures RowsFrom(items, w, id)[k] == ItemRow(id + k, items[k * w .. Min((k + 1) * w, |items|)])
    decreases |items|
  {
    if k == 0 {
      assert k * w == 0 && (k + 1) * w == w;
    } else {
      RowsFromTail(items, w, id, k);
      RowsFromAt(items[w..], w, id + 1, k - 1);
      SliceAfterRow(items, w, k);
    }
  }

  /** Row `k >= 1` of `items` is row `k - 1` of what follows the first
      (necessarily full) row. */
  lemma RowsFromTail<T>(items: seq<T>, w: nat, id: int, k: nat)
    requires w >= 1 && 1 <= k < |RowsFrom(items, w, id)|
    ensures w < |items|
    ensures k - 1 < |RowsFrom(items[w..], w, id + 1)|
    ensures RowsFrom(items, w, id)[k] == RowsFrom(items[w..], w, id + 1)[k - 1]
  {
    var m := Min(w, |items|);
    assert RowsFrom(items, w, id) == [ItemRow(id, items[..m])] + RowsFrom(items[m..], w, id + 1);
    assert RowsFrom(items[m..], w, id + 1) != [];
  }

  /** Row `k - 1` of what follows the first row is row `k` of `items`. */
  lemma SliceAfterRow<T>(items: seq<T>, w: nat, k: nat)
    requires w >= 1 && k >= 1 && w < |items| && (k - 1) * w < |items| - w
    ensures k * w < |items|
    ensures items[w..][(k - 1) * w .. Min(k * w, |items| - w)]
            == items[k * w .. Min((k + 1) * w, |items|)]
  {
    MulSucc(k - 1, w);
    MulSucc(k, w);
  }

  /** Every row holds between 1 and `w` items, and every row but the last
      holds exactly `w`. */
  lemma {:induction false} RowsFromSizes<T>(items: seq<T>, w: nat, id: int)
    requires w >= 1
    ensures forall k :: 0 <= k < |RowsFrom(items, w, id)| ==>
              0 < |RowsFrom(items, w, id)[k].items| <= w
    ensures forall k :: 0 <= k < |RowsFrom(items, w, id)| - 1 ==>
              |RowsFrom(items, w, id)[k].items| == w
    decreases |items|
  {
    if |items| > 0 {
      var k := Min(w, |items|);
      RowsFromSizes(items[k..], w, id + 1);
    }
  }

  /** Concatenating the rows' items in order gives back `items` exactly. */
  lemma RowsConcatenate<T>(items: seq<T>, numberOfColumns: int)
    ensures Flatten(Rows(items, numberOfColumns)) == items
  {
  }

  /** No row is empty and none holds more than `max(numberOfColumns, 1)`
      items; every row but the last is full; with `numberOfColumns <= 1`
      every row holds exactly one item. */
  lemma RowsSizes<T>(items: seq<T>, numberOfColumns: int)
    ensures forall k :: 0 <= k < |Rows(items, numberOfColumns)| ==>
              0 < |Rows(items, numberOfColumns)[k].items| <= Width(numberOfColumns)
    ensures numberOfColumns >= 1 ==>
              forall k :: 0 <= k < |Rows(items, numberOfColumns)| - 1 ==>
                |Rows(items, numberOfColumns)[k].items| == numberOfColumns
    ensures numberOfColumns <= 1 ==>
              forall k :: 0 <= k < |Rows(items, numberOfColumns)| ==>
                |Rows(items, numberOfColumns)[k].items| == 1
  {
    RowsFromSizes(items, Width(numberOfColumns), 0);
  }

  /** The number of rows is `ceil(|items| / max(numberOfColumns, 1))`, so an
      empty list has no rows and a non-empty one has at least one. */
  lemma RowsCount<T>(items: seq<T>, numberOfColumns: int)
    ensures |Rows(items, numberOfColumns)| ==
              (|items| + Width(numberOfColumns) - 1) / Width(numberOfColumns)
    ensures numberOfColumns >= 1 ==>
              |Rows(items, numberOfColumns)| == (|items| + numberOfColumns - 1) / numberOfColumns
    ensures Rows(items, numberOfColumns) == [] <==> items == []
  {
    var w := Width(numberOfColumns);
    RowsFromLength(items, w, 0);
    if items != [] {
      DivUnique(|items| + w - 1, w, (|items| + w - 1) / w, (|items| + w - 1) % w);
    }
  }

  /** Each row's id equals its index: the ids are 0, 1, ..., count - 1. */
  lemma RowsIds<T>(items: seq<T>, numberOfColumns: int)
    ensures forall k :: 0 <= k < |Rows(items, numberOfColumns)| ==>
              Rows(items, numberOfColumns)[k].id == k
  {
    forall k | 0 <= k < |Rows(items, numberOfColumns)|
      ensures Rows(items, numberOfColumns)[k].id == k
    {
      RowsFromAt(items, Width(numberOfColumns), 0, k);
    }
  }

  /** The shape properties of a row list: its rows concatenate to `items`,
      row `k` has id `id + k`, every row holds 1 to `w` items and every row
      but the last holds exactly `w`. */
  ghost predicate IsRowList<T>(items: seq<T>, w: nat, id: int, rows: seq<ItemRow<T>>)
  {
    && Flatten(rows) == items
    && (forall k :: 0 <= k < |rows| ==> rows[k].id == id + k)
    && (forall k :: 0 <= k < |rows| ==> 0 < |rows[k].items| <= w)
    && (forall k :: 0 <= k < |rows| - 1 ==> |rows[k].items| == w)
  }

  lemma {:induction false} RowsFromUnique<T>(items: seq<T>, w: nat, id: int, rows: seq<ItemRow<T>>)
    requires w >= 1 && IsRowList(items, w, id, rows)
    ensures rows == RowsFrom(items, w, id)
    decreases |rows|
  {
    if rows != [] {
      var m := |rows[0].items|;
      RowListHead(items, w, id, rows);
      RowsFromUnique(items[m..], w, id + 1, rows[1..]);
      assert rows == [rows[0]] + rows[1..];
    }
  }

  /** The first row of a row list is the first `min(w, |items|)` items, and
      the other rows form a row list of the rest. */
  lemma RowListHead<T>(items: seq<T>, w: nat, id: int, rows: seq<ItemRow<T>>)
    requires w >= 1 && IsRowList(items, w, id, rows) && rows != []
    ensures |rows[0].items| == Min(w, |items|) && rows[0].id == id
    ensures items[..|rows[0].items|] == rows[0].items
    ensures IsRowList(items[|rows[0].items|..], w, id + 1, rows[1..])
  {
    var m := |rows[0].items|;
    var rest := Flatten(rows[1..]);
    assert items == rows[0].items + rest;
    if |rows| > 1 {
      assert |rows[1].items| > 0;
      assert rest == rows[1].items + Flatten(rows[2..]);
    } else {
      assert rest == [];
    }
    assert items[..m] == rows[0].items && items[m..] == rest;
    forall k | 0 <= k < |rows[1..]| ensures rows[1..][k].id == id + 1 + k {
      assert rows[1..][k] == rows[k + 1];
    }
  }

  /** The shape properties determine the rows completely: any row list that
      concatenates to `items`, is numbered 0, 1, ..., holds 1 to
      `max(numberOfColumns, 1)` items per row and is full in every row but
      the last is exactly `Rows(items, numberOfColumns)`. */
  lemma RowsCharacterized<T>(items: seq<T>, numberOfColumns: int, rows: seq<ItemRow<T>>)
    requires Flatten(rows) == items
    requires forall k :: 0 <= k < |rows| ==> rows[k].id == k
    requires forall k :: 0 <= k < |rows| ==> 0 < |rows[k].items| <= Width(numberOfColumns)
    requires forall k :: 0 <= k < |rows| - 1 ==> |rows[k].items| == Width(numberOfColumns)
    ensures rows == Rows(items, numberOfColumns)
  {
    RowsFromUnique(items, Width(numberOfColumns), 0, rows);
  }

  /** Flattening distributes over appending one row. */
  lemma {:induction false} FlattenSnoc<T>(rows: seq<ItemRow<T>>, row: ItemRow<T>)
    ensures Flatten(rows + [row]) == Flatten(rows) + row.items
  {
    if rows != [] {
      assert (rows + [row])[1..] == rows[1..] + [row];
      FlattenSnoc(rows[1..], row);
    } else {
      assert Flatten([row]) == row.items + Flatten([]);
    }
  }

  /** The rows the loop has when it ends, with the remainder flushed, form
      a row list of `items`. */
  lemma FinishedRows<T>(items: seq<T>, w: nat, rows: seq<ItemRow<T>>, row: seq<T>)
    requires 1 <= w && |row| < w && Flatten(rows) + row == items
    requires forall k :: 0 <= k < |rows| ==> rows[k].id == k && |rows[k].items| == w
    ensures IsRowList(items, w, 0, if |row| > 0 then rows + [ItemRow(|rows|, row)] else rows)
  {
    if |row| > 0 {
      FlattenSnoc(rows, ItemRow(|rows|, row));
    } else {
      assert Flatten(rows) == items;
    }
  }

  /** The chunking loop of the grid's body: append each item to the current
      row, flush the row (numbered by how many rows exist) once it holds
      `numberOfColumns` items or more, and flush a non-empty remainder at
      the end. */
  method ChunkRows<T>(items: seq<T>, numberOfColumns: int) returns (rows: seq<ItemRow<T>>)
    ensures rows == Rows(items, numberOfColumns)
  {
    ghost var w := Width(numberOfColumns);
    var currentRow: seq<T> := [];
    rows := [];
    for i := 0 to |items|
      invariant |currentRow| < w
      invariant Flatten(rows) + currentRow == items[..i]
      invariant forall k :: 0 <= k < |rows| ==> rows[k].id == k && |rows[k].items| == w
    {
      assert items[..i + 1] == items[..i] + [items[i]];
      currentRow := currentRow + [items[i]];
      FlushAtWidth(|currentRow|, numberOfColumns);
      if |currentRow| >= numberOfColumns {
        FlattenSnoc(rows, ItemRow(|rows|, currentRow));
        rows := rows + [ItemRow(|rows|, currentRow)];
        currentRow := [];
      }
    }
    assert items[..|items|] == items;
    FinishedRows(items, w, rows, currentRow);
    if |currentRow| > 0 {
      rows := rows + [ItemRow(|rows|, currentRow)];
    }
    RowsFromUnique(items, w, 0, rows);
  }
}
