/**
 * The selection of a shop's list and the toolbar mode that follows it
 * (model/ToolbarMode, and the selection code shared by activity/ArticleActivity.java
 * and adapter/ArticleAdapter.java). A selected view holder is identified by
 * the id of the article it shows; the selection is the list of selected ids
 * in the order they were selected.
 */
module Selection {
  import opened ListOps

  /** NORMAL: nothing selected; DETAIL: one article; MULTIPLE: several. */
  datatype ToolbarMode = Normal | Detail | Multiple

  /** The mode that matches a selection of `size` items. */
  function ModeFor(size: nat): (mode: ToolbarMode)
    ensures mode == Normal <==> size == 0
    ensures mode == Detail <==> size == 1
    ensures mode == Multiple <==> size >= 2
  {
    if size == 0 then Normal else if size == 1 then Detail else Multiple
  }

  /**
   * The mode toggleSelection sets after the selection changed to `size`
   * items: MULTIPLE when it was not MULTIPLE and more than one item is
   * selected, else NORMAL for none, else DETAIL for one, else unchanged.
   * Whatever the previous mode, the result is the mode of the new size.
   */
  function NextMode(mode: ToolbarMode, size: nat): (r: ToolbarMode)
    ensures r == ModeFor(size)
  {
    if mode != Multiple && size > 1 then Multiple
    else if size == 0 then Normal
    else if size == 1 then Detail
    else mode
  }

  /** Selecting an unselected item appends it; selecting a selected one removes it. */
  function Toggle(selection: seq<int>, id: int): (r: seq<int>)
    ensures Distinct(selection) ==> (id in r <==> id !in selection)
    ensures forall x :: x != id ==> (x in r <==> x in selection)
    ensures |r| == if id in selection then |selection| - 1 else |selection| + 1
  {
    if id in selection then
      if Distinct(selection) then RemoveValueDistinct(selection, id); RemoveValue(selection, id)
      else RemoveValue(selection, id)
    else selection + [id]
  }

  /** Toggling keeps the selection free of duplicates. */
  lemma ToggleDistinct(selection: seq<int>, id: int)
    requires Distinct(selection)
    ensures Distinct(Toggle(selection, id))
  {
    if id in selection {
      RemoveValueDistinct(selection, id);
    }
  }

  /** Toggling an unselected item twice gives back the very same selection. */
  lemma ToggleTwiceUnselected(selection: seq<int>, id: int)
    requires id !in selection
    ensures Toggle(Toggle(selection, id), id) == selection
  {
    var s := selection + [id];
    assert IndexOf(s, id) == |selection|;
    assert RemoveAt(s, |selection|) == selection;
  }

  /**
   * Toggling a selected item twice selects the same items again, but the item
   * now comes last: selectedItems.add appends.
   */
  lemma ToggleTwiceSelected(selection: seq<int>, id: int)
    requires Distinct(selection) && id in selection
    ensures Toggle(Toggle(selection, id), id) == RemoveValue(selection, id) + [id]
    ensures multiset(Toggle(Toggle(selection, id), id)) == multiset(selection)
  {
    RemoveValueDistinct(selection, id);
  }

  /**
   * clearSelections' loop: every selected holder is unmarked, one at a time.
   * The result is the marked set without the selected items.
   */
  method UnmarkAll(marked: set<int>, selection: seq<int>) returns (r: set<int>)
    ensures forall x :: x in r <==> x in marked && x !in selection
  {
    r := marked;
    for i := 0 to |selection|
      invariant forall x :: x in r <==> x in marked && x !in selection[..i]
    {
      assert selection[..i + 1] == selection[..i] + [selection[i]];
      r := r - {selection[i]};
    }
    assert selection[..|selection|] == selection;
  }
}
