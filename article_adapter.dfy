/**
 * The list adapter of the article screen (adapter/ArticleAdapter.java): its
 * own copy of the list, the selected view holders, and the toolbar mode and
 * article writes it reaches through its article manager. A view holder is
 * identified by the id of the article it shows.
 */
module Adapter {
  import opened ListOps
  import opened Articles
  import opened ArticleStore
  import opened ArticleLists
  import opened Selection

  class ArticleAdapter {
    /** Where the manager's updateArticle writes. */
    const store: ArticleDataSource
    var articleDataset: seq<ArticleData>
    /** The ids of the selected view holders, in the order they were selected. */
    var selectedItems: seq<int>
    /** The ids whose view holder's content view is set selected. */
    var marked: set<int>
    /** The manager's toolbar mode, which the adapter reads and sets. */
    var toolbarMode: ToolbarMode

    /** The selected flags are exactly the selection, which has no repeats. */
    ghost predicate Marks()
      reads this
    {
      Distinct(selectedItems) && forall id :: id in marked <==> id in selectedItems
    }

    /** Ids are unique and every selected holder shows an article of the list. */
    ghost predicate Valid()
      reads this, store
    {
      store.Valid() && UniqueIds(articleDataset) && Marks() &&
      forall id :: id in selectedItems ==> id in Ids(articleDataset)
    }

    /** A new adapter over a list, with nothing selected. */
    constructor (store: ArticleDataSource, articleDataset: seq<ArticleData>, toolbarMode: ToolbarMode)
      requires store.Valid() && UniqueIds(articleDataset)
      ensures Valid() && this.store == store
      ensures this.articleDataset == articleDataset && selectedItems == [] && this.toolbarMode == toolbarMode
    {
      this.store := store;
      this.articleDataset := articleDataset;
      selectedItems := [];
      marked := {};
      this.toolbarMode := toolbarMode;
    }

    /**
     * toggleSelection: the holder is deselected if its content view is
     * selected and selected otherwise; the mode becomes the one that matches
     * the new size of the selection, whatever it was before.
     */
    method ToggleSelection(id: int)
      requires Valid() && id in Ids(articleDataset)
      modifies this`selectedItems, this`marked, this`toolbarMode
      ensures Valid()
      ensures selectedItems == Toggle(old(selectedItems), id)
      ensures id in selectedItems <==> id !in old(selectedItems)
      ensures toolbarMode == ModeFor(|selectedItems|)
    {
      var isSelected := id in marked;
      if isSelected {
        selectedItems := RemoveValue(selectedItems, id);
      } else {
        selectedItems := selectedItems + [id];
      }
      ToggleDistinct(old(selectedItems), id);
      marked := if isSelected then marked - {id} else marked + {id};
      toolbarMode := NextMode(toolbarMode, |selectedItems|);
    }

    /** The long-click listener: in NORMAL mode the pressed holder is toggled. */
    method OnLongClick(id: int)
      requires Valid() && id in Ids(articleDataset)
      modifies this`selectedItems, this`marked, this`toolbarMode
      ensures Valid()
      ensures old(toolbarMode) == Normal ==>
                selectedItems == Toggle(old(selectedItems), id) && toolbarMode == ModeFor(|selectedItems|)
      ensures old(toolbarMode) != Normal ==> unchanged(this)
    {
      if toolbarMode == Normal {
        ToggleSelection(id);
      }
    }

    /** The click listener: outside NORMAL mode the clicked holder is toggled. */
    method OnClick(id: int)
      requires Valid() && id in Ids(articleDataset)
      modifies this`selectedItems, this`marked, this`toolbarMode
      ensures Valid()
      ensures old(toolbarMode) != Normal ==>
                selectedItems == Toggle(old(selectedItems), id) && toolbarMode == ModeFor(|selectedItems|)
      ensures old(toolbarMode) == Normal ==> unchanged(this)
    {
      if toolbarMode != Normal {
        ToggleSelection(id);
      }
    }

    /** clearSelections: every selected holder is unmarked, then the selection is emptied; the mode is left alone. */
    method ClearSelections()
      requires Valid()
      modifies this`marked, this`selectedItems
      ensures Valid() && selectedItems == [] && marked == {}
    {
      marked := UnmarkAll(marked, selectedItems);
      assert forall x :: x !in marked;
      selectedItems := [];
    }

    /** sortArticlesByName: a stable sort of the list by name. */
    method SortArticlesByName()
      requires Valid()
      modifies this`articleDataset
      ensures Valid()
      ensures articleDataset == SortByName(old(articleDataset))
    {
      var sorted := SortByName(articleDataset);
      SortByNamePermutes(articleDataset);
      PermutationKeepsIds(articleDataset, sorted);
      UniqueIdsPermutation(articleDataset, sorted);
      articleDataset := sorted;
    }

    /**
     * getArticlesToString: the toString of each selected article, in selection
     * order, or of every article in list order, each followed by a line break.
     */
    method GetArticlesToString() returns (text: string)
      requires Valid()
      ensures text == ClipboardText(articleDataset, selectedItems)
      ensures |selectedItems| == 0 ==> (text == "" <==> articleDataset == [])
    {
      text := ArticlesToString(articleDataset, selectedItems);
    }

    /** savePositions: each article's priority becomes its index and is written back through the manager. */
    method SavePositions()
      requires Valid()
      modifies this`articleDataset, store`rows
      ensures Valid()
      ensures articleDataset == Renumbered(old(articleDataset))
      ensures Ids(articleDataset) == Ids(old(articleDataset))
      ensures store.rows == UpdatedAll(old(store.rows), articleDataset)
    {
      var saved := SavePositionsOf(articleDataset, store);
      assert Ids(saved) == Ids(articleDataset) by {
        assert forall k :: 0 <= k < |saved| ==> Ids(saved)[k] == Ids(articleDataset)[k];
      }
      articleDataset := saved;
    }

    /** toggleStrikethrough: the selected articles are flipped and written back through the manager. */
    method ToggleStrikethrough()
      requires Valid()
      modifies this`articleDataset, store`rows
      ensures Valid()
      ensures articleDataset == FlippedWhere(old(articleDataset), selectedItems)
      ensures store.rows == UpdatedAll(old(store.rows), FlippedAll(WithIds(old(articleDataset), selectedItems)))
    {
      articleDataset := ToggleStrikethroughOf(articleDataset, selectedItems, store);
    }

    /** hasSelectedItems: some holder is selected, that is, some content view is drawn selected. */
    function HasSelectedItems(): (r: bool)
      requires Marks()
      reads this
      ensures r <==> marked != {}
    {
      assert forall id :: id in marked <==> id in selectedItems;
      assert |selectedItems| > 0 ==> selectedItems[0] in marked;
      |selectedItems| > 0
    }

    /** getSelectedPositions: the adapter position of each selected holder, in selection order, without repeats. */
    method GetSelectedPositions() returns (positions: seq<int>)
      requires Valid()
      ensures |positions| == |selectedItems| && Distinct(positions)
      ensures forall k :: 0 <= k < |selectedItems| ==>
                0 <= positions[k] < |articleDataset| && articleDataset[positions[k]].id == selectedItems[k]
    {
      positions := SelectedPositions(articleDataset, selectedItems);
    }

    /** getSelectedItemPosition: the adapter position of the first selected holder. */
    method GetSelectedItemPosition() returns (position: nat)
      requires Valid() && |selectedItems| > 0
      ensures position < |articleDataset| && articleDataset[position].id == selectedItems[0]
    {
      position := PositionOf(articleDataset, selectedItems[0]);
    }
  }
}
