/** The selection update a tap performs on the grid's list of selected
    items. */
module Selection {
  import opened Wrappers

  /** Reference definition of Swift's `firstIndex(of:)`: the position of the
      first element equal to `x`, or `None` when there is none. */
  function FirstIndex<T(==)>(s: seq<T>, x: T): (r: Option<nat>)
    ensures r.None? <==> x !in s
    ensures r.Some? ==> r.value < |s| && s[r.value] == x && x !in s[..r.value]
  {
    if s == [] then None
    else if s[0] == x then Some(0)
    else
      match FirstIndex(s[1..], x)
      case None => None
      case Some(i) => assert s[1..][..i] == s[1..i + 1]; Some(i + 1)
  }

  /** `firstIndex(of:)` as the linear search it is. */
  method FirstIndexOf<T(==)>(s: seq<T>, x: T) returns (r: Option<nat>)
    ensures r == FirstIndex(s, x)
  {
    var i := 0;
    while i < |s|
      invariant i <= |s|
      invariant x !in s[..i]
    {
      if s[i] == x {
        FirstIndexUnique(s, x, i);
        return Some(i);
      }
      assert s[..i + 1] == s[..i] + [s[i]];
      i := i + 1;
    }
    assert s[..i] == s;
    return None;
  }

  /** An index holding `x` with no `x` before it is the first index of `x`. */
  lemma FirstIndexUnique<T>(s: seq<T>, x: T, i: nat)
    requires i < |s| && s[i] == x && x !in s[..i]
    ensures FirstIndex(s, x) == Some(i)
  {
  }

  /** The selection after tapping `item`. In selection mode a selected item
      loses its first occurrence and an unselected one is appended; outside
      selection mode the selection becomes just `item`. */
  function Tapped<T(==)>(selected: seq<T>, selectionMode: bool, item: T): (r: seq<T>)
    ensures !selectionMode ==> r == [item]
    ensures selectionMode && item !in selected ==> r == selected + [item]
    ensures selectionMode && item in selected ==>
              |r| == |selected| - 1 && multiset(r) == multiset(selected) - multiset{item}
  {
    if selectionMode then
      match FirstIndex(selected, item)
      case Some(i) =>
        assert selected == selected[..i] + [item] + selected[i + 1..];
        selected[..i] + selected[i + 1..]
      case None => selected + [item]
    else
      [item]
  }

  /** In selection mode, tapping a selected item removes exactly its first
      occurrence `i`: the elements before and after keep their order, and
      one copy of `item` leaves the multiset of selected items. */
  lemma TapRemovesFirstOccurrence<T>(selected: seq<T>, item: T, i: nat)
    requires i < |selected| && selected[i] == item && item !in selected[..i]
    ensures Tapped(selected, true, item) == selected[..i] + selected[i + 1..]
    ensures |Tapped(selected, true, item)| == |selected| - 1
    ensures multiset(Tapped(selected, true, item)) == multiset(selected) - multiset{item}
  {
    FirstIndexUnique(selected, item, i);
    assert selected == selected[..i] + [item] + selected[i + 1..];
  }

  /** In selection mode, tapping an unselected item appends it: the old
      selection is a prefix and `item` is the new last element. */
  lemma TapAppendsAbsent<T>(selected: seq<T>, item: T)
    requires item !in selected
    ensures |Tapped(selected, true, item)| == |selected| + 1
    ensures Tapped(selected, true, item)[..|selected|] == selected
    ensures Tapped(selected, true, item)[|selected|] == item
  {
  }

  /** Tapping an unselected item twice in selection mode restores the
      original selection. */
  lemma TapTwiceRestores<T>(selected: seq<T>, item: T)
    requires item !in selected
    ensures Tapped(Tapped(selected, true, item), true, item) == selected
  {
    var once := selected + [item];
    assert once[..|selected|] == selected;
    FirstIndexUnique(once, item, |selected|);
    assert once[..|selected|] + once[|selected| + 1..] == selected;
  }

  /** Outside selection mode a tap leaves exactly `[item]`, whatever was
      selected before. */
  lemma TapOutsideSelectionMode<T>(selected: seq<T>, item: T)
    ensures Tapped(selected, false, item) == [item]
  {
  }

  predicate NoDuplicates<T(==)>(s: seq<T>)
  {
    forall i, j :: 0 <= i < j < |s| ==> s[i] != s[j]
  }

  /** When the selection holds no item twice, a tap in selection mode
      toggles membership of `item`, leaves every other item's membership
      alone and keeps the selection free of duplicates. */
  lemma TapToggles<T>(selected: seq<T>, item: T)
    requires NoDuplicates(selected)
    ensures NoDuplicates(Tapped(selected, true, item))
    ensures item in Tapped(selected, true, item) <==> item !in selected
    ensures forall y :: y != item ==> (y in Tapped(selected, true, item) <==> y in selected)
  {
    match FirstIndex(selected, item)
    case None => ToggleOn(selected, item);
    case Some(i) => ToggleOff(selected, item, i);
  }

  lemma ToggleOn<T>(selected: seq<T>, item: T)
    requires NoDuplicates(selected) && item !in selected
    ensures NoDuplicates(selected + [item])
    ensures forall y :: y in selected + [item] <==> y in selected || y == item
  {
  }

  lemma ToggleOff<T>(selected: seq<T>, item: T, i: nat)
    requires NoDuplicates(selected) && i < |selected| && selected[i] == item
    ensures NoDuplicates(selected[..i] + selected[i + 1..])
    ensures forall y :: y in selected[..i] + selected[i + 1..] <==> y in selected && y != item
  {
    var r := selected[..i] + selected[i + 1..];
    assert |r| == |selected| - 1;
    assert forall a :: 0 <= a < i ==> r[a] == selected[a];
    assert forall a :: i <= a < |r| ==> r[a] == selected[a + 1];
    forall y ensures y in r <==> y in selected && y != item {
      if y in r {
        var a :| 0 <= a < |r| && r[a] == y;
      }
      if y in selected && y != item {
        var a :| 0 <= a < |selected| && selected[a] == y;
        assert a != i;
        if a < i { assert r[a] == y; } else { assert r[a - 1] == y; }
      }
    }
  }
}
