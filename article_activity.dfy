/**
 * The screen that shows one shop's articles (activity/ArticleActivity.java):
 * the in-memory list, the selected view holders and the toolbar mode, and the
 * event handlers that change them and write through to the article table.
 * A view holder is identified by the id of the article it shows; whether its
 * content view is drawn as selected is the set `marked`.
 */
module Activity {
  import opened ListOps
  import opened Articles
  import opened ArticleStore
  import opened ArticleLists
  import opened Selection

  /** The toolbar menu items onOptionsItemSelected handles. */
  datatype MenuItem =
    | Home | RemoveAll | SortAlpha | CopyToClipboard | Strikethrough
    | RemoveArticle | EditArticle | EditArticleName | EditArticleAmount | ExitApp

  /** What the undo action of the snackbar a removal shows brings back, as its closure captures it. */
  datatype Undo =
    | NoUndo
    | RestoreOne(article: ArticleData, position: nat)
    | RestoreAll(backup: seq<ArticleData>)

  /**
   * The list mirrors the shop's part of the table: ids are unique, every
   * listed article belongs to the shop, and the listed ids are exactly the
   * ids of the shop's rows.
   */
  ghost predicate Lists(articles: seq<ArticleData>, rows: Table, shop: string)
  {
    UniqueIds(articles) &&
    (forall a :: a in articles ==> a.shop == shop) &&
    (forall id :: id in Ids(articles) <==> id in rows && rows[id].shop == shop)
  }

  /** The article createArticle gives back for a copy of `d` inserted under `id` into `shop`. */
  function CopyOf(d: ArticleData, id: int, shop: string): ArticleData
  {
    ArticleData(id, shop, d.name, ClampAmount(d.amount), None, d.strikethrough, d.priority)
  }

  /** The row createArticle stores for a copy of `d` inserted into `shop`. */
  function CopyRow(d: ArticleData, shop: string): Row
  {
    RowFor(shop, d.name, d.amount, None, d.strikethrough, d.priority)
  }

  /**
   * The table after the removed articles `backup` are inserted again, in
   * order, under the consecutive ids `firstId`, `firstId + 1`, ...
   */
  function Restored(rows: Table, backup: seq<ArticleData>, firstId: int, shop: string): (r: Table)
    ensures forall id :: id in r <==> id in rows || firstId <= id < firstId + |backup|
    decreases |backup|
  {
    if backup == [] then rows
    else
      var init, last := backup[..|backup| - 1], backup[|backup| - 1];
      Restored(rows, init, firstId, shop)[firstId + |init| := CopyRow(last, shop)]
  }

  /**
   * Restoring writes each backed-up article under its own new id and leaves
   * every row whose id is below the new ones as it was.
   */
  lemma {:induction false} RestoredRows(rows: Table, backup: seq<ArticleData>, firstId: int, shop: string)
    requires forall id :: id in rows ==> id < firstId
    ensures forall k :: 0 <= k < |backup| ==> Restored(rows, backup, firstId, shop)[firstId + k] == CopyRow(backup[k], shop)
    ensures forall id :: id in rows ==> Restored(rows, backup, firstId, shop)[id] == rows[id]
    decreases |backup|
  {
    if backup != [] {
      var init := backup[..|backup| - 1];
      RestoredRows(rows, init, firstId, shop);
      assert forall k :: 0 <= k < |init| ==> backup[k] == init[k];
    }
  }

  /** The articles createArticle gives back for the copies of `backup` under consecutive ids. */
  function Copies(backup: seq<ArticleData>, firstId: int, shop: string): (r: seq<ArticleData>)
    ensures |r| == |backup|
  {
    seq(|backup|, k requires 0 <= k < |backup| => CopyOf(backup[k], firstId + k, shop))
  }

  /** The list after the copies are appended: the old list, then each copy in backup order. */
  lemma AppendedCopies(s: seq<ArticleData>, backup: seq<ArticleData>, firstId: int, shop: string)
    ensures var r := s + Copies(backup, firstId, shop);
      |r| == |s| + |backup| && r[..|s|] == s &&
      forall k :: 0 <= k < |backup| ==> r[|s| + k] == CopyOf(backup[k], firstId + k, shop)
  {
  }

  /** One more copy is appended under the next id. */
  lemma CopiesSnoc(backup: seq<ArticleData>, i: nat, firstId: int, shop: string)
    requires i < |backup|
    ensures Copies(backup[..i + 1], firstId, shop) == Copies(backup[..i], firstId, shop) + [CopyOf(backup[i], firstId + i, shop)]
  {
  }

  /** Restoring one more article of the backup stores it under the next id. */
  lemma RestoredSnoc(rows: Table, backup: seq<ArticleData>, i: nat, firstId: int, shop: string)
    requires i < |backup|
    ensures Restored(rows, backup[..i + 1], firstId, shop) ==
            Restored(rows, backup[..i], firstId, shop)[firstId + i := CopyRow(backup[i], shop)]
  {
    assert backup[..i + 1][..i] == backup[..i];
  }

  /** The articles of `s` whose id is not in `gone`, in list order. */
  function Without(s: seq<ArticleData>, gone: set<int>): (r: seq<ArticleData>)
    ensures |r| <= |s|
  {
    if s == [] then []
    else if s[0].id in gone then Without(s[1..], gone)
    else [s[0]] + Without(s[1..], gone)
  }

  /** Filtering keeps only articles of the list. */
  lemma {:induction false} WithoutMembers(s: seq<ArticleData>, gone: set<int>)
    ensures forall a :: a in Without(s, gone) ==> a in s
    decreases |s|
  {
    if s != [] {
      WithoutMembers(s[1..], gone);
      assert s == [s[0]] + s[1..];
    }
  }

  /** Filtering keeps exactly the ids outside `gone`, and only articles of the list. */
  lemma {:induction false} WithoutIds(s: seq<ArticleData>, gone: set<int>)
    ensures forall id :: id in Ids(Without(s, gone)) <==> id in Ids(s) && id !in gone
    ensures forall a :: a in Without(s, gone) ==> a in s
    decreases |s|
  {
    WithoutMembers(s, gone);
    if s != [] {
      var rest := Without(s[1..], gone);
      WithoutIds(s[1..], gone);
      IdsConcat([s[0]], s[1..]);
      assert s == [s[0]] + s[1..];
      if s[0].id in gone {
        assert Without(s, gone) == rest;
      } else {
        assert Without(s, gone) == [s[0]] + rest;
        IdsConcat([s[0]], rest);
      }
    }
  }

  class ArticleActivity {
    const shopName: string
    const datasource: ArticleDataSource
    var articles: seq<ArticleData>
    /** The ids of the selected view holders, in the order they were selected. */
    var selectedItems: seq<int>
    /** The ids whose view holder's content view is set selected. */
    var marked: set<int>
    var toolbarMode: ToolbarMode
    /** The text last put on the clipboard. */
    var clipboard: string

    /** The list and the table agree. */
    ghost predicate Mirrors()
      reads this, datasource
    {
      datasource.Valid() && Lists(articles, datasource.rows, shopName)
    }

    /** The selected flags of the view holders are exactly the selection, which has no repeats. */
    ghost predicate Marks()
      reads this
    {
      Distinct(selectedItems) && forall id :: id in marked <==> id in selectedItems
    }

    /** Every selected holder shows an article of the list. */
    ghost predicate Selected()
      reads this
    {
      Marks() && forall id :: id in selectedItems ==> id in Ids(articles)
    }

    /** The invariant between events: the list mirrors the table and the mode follows the selection. */
    ghost predicate Valid()
      reads this, datasource
    {
      Mirrors() && Selected() && toolbarMode == ModeFor(|selectedItems|)
    }

    /**
     * onCreate for a shop name handed over by the main screen: nothing is
     * selected, the mode is NORMAL, and the list is the shop's articles as
     * getAllArticles reads them.
     */
    constructor (shopName: string, datasource: ArticleDataSource)
      requires datasource.Valid()
      ensures this.shopName == shopName && this.datasource == datasource
      ensures Valid() && selectedItems == [] && toolbarMode == Normal
      ensures forall k :: 0 <= k < |articles| ==>
                articles[k].id in datasource.rows &&
                articles[k] == Decode(articles[k].id, datasource.rows[articles[k].id]).(priority := k)
      ensures Loaded(articles, datasource.rows, shopName)
    {
      this.shopName := shopName;
      this.datasource := datasource;
      selectedItems := [];
      marked := {};
      toolbarMode := Normal;
      clipboard := "";
      var all := datasource.GetAllArticles(shopName);
      articles := all;
    }

    // -------------------------------------------------------------------------
    // Drag and swipe
    // -------------------------------------------------------------------------

    /**
     * onMove: adjacent swaps carry the article at `fromPosition` to
     * `toPosition`, shifting the ones in between by one place.
     */
    method OnMove(fromPosition: nat, toPosition: nat)
      requires Valid() && fromPosition < |articles| && toPosition < |articles|
      modifies this`articles
      ensures Valid()
      ensures articles == Moved(old(articles), fromPosition, toPosition)
    {
      if fromPosition < toPosition {
        MoveDown(fromPosition, toPosition);
      } else {
        MoveUp(fromPosition, toPosition);
      }
      ListsPermutation(old(articles), articles, datasource.rows, shopName);
    }

    /** The swaps of onMove when the article is dragged down the list. */
    method MoveDown(fromPosition: nat, toPosition: nat)
      requires fromPosition < toPosition < |articles|
      modifies this`articles
      ensures articles == Moved(old(articles), fromPosition, toPosition)
    {
      MovedNowhere(articles, fromPosition);
      for i := fromPosition to toPosition
        invariant articles == Moved(old(articles), fromPosition, i)
      {
        SwapStepDown(old(articles), fromPosition, i);
        articles := Swap(articles, i, i + 1);
      }
    }

    /** The swaps of onMove when the article is dragged up the list. */
    method MoveUp(fromPosition: nat, toPosition: nat)
      requires toPosition <= fromPosition < |articles|
      modifies this`articles
      ensures articles == Moved(old(articles), fromPosition, toPosition)
    {
      MovedNowhere(articles, fromPosition);
      var i := fromPosition;
      while i > toPosition
        invariant toPosition <= i <= fromPosition
        invariant articles == Moved(old(articles), fromPosition, i)
      {
        SwapStepUp(old(articles), fromPosition, i);
        articles := Swap(articles, i, i - 1);
        i := i - 1;
      }
    }

    /** onSwiped: the swiped article is removed, and a selection mode is left. */
    method OnSwiped(position: nat) returns (undo: Undo)
      requires Valid() && position < |articles|
      modifies this`articles, this`selectedItems, this`marked, this`toolbarMode, datasource`rows
      ensures Valid()
      ensures articles == RemoveAt(old(articles), position)
      ensures datasource.rows == old(datasource.rows) - {old(articles[position]).id}
      ensures undo == RestoreOne(old(articles[position]), position)
      ensures toolbarMode == Normal && selectedItems == []
    {
      var removed := Drop(position);
      undo := RestoreOne(removed, position);
      if toolbarMode != Normal {
        ShowNormalToolbar();
      }
    }

    // -------------------------------------------------------------------------
    // Adding and removing
    // -------------------------------------------------------------------------

    /** Inserts a row for the values and appends the article read back from it. */
    method Append(name: string, amount: int, strikethrough: bool, priority: int)
      requires Mirrors()
      modifies this`articles, datasource`rows, datasource`nextId
      ensures Mirrors()
      ensures articles == old(articles) +
                [ArticleData(old(datasource.nextId), shopName, name, ClampAmount(amount), None, strikethrough, priority)]
      ensures datasource.rows == old(datasource.rows)[old(datasource.nextId) :=
                RowFor(shopName, name, amount, None, strikethrough, priority)]
      ensures datasource.nextId == old(datasource.nextId) + 1
      ensures forall id :: id in Ids(articles) <==> id in Ids(old(articles)) || id == old(datasource.nextId)
    {
      var article := datasource.CreateArticle(shopName, name, amount, None, strikethrough, priority);
      ListsInsert(articles, old(datasource.rows), shopName, |articles|, article,
                  RowFor(shopName, name, amount, None, strikethrough, priority));
      articles := InsertAt(articles, |articles|, article);
    }

    /**
     * addArticle(name, amount): a new article, not struck through, whose
     * priority is the list's size, is stored and appended.
     */
    method AddArticle(name: string, amount: int)
      requires Valid()
      modifies this`articles, datasource`rows, datasource`nextId
      ensures Valid()
      ensures articles == old(articles) +
                [ArticleData(old(datasource.nextId), shopName, name, ClampAmount(amount), None, false, |old(articles)|)]
      ensures old(datasource.nextId) !in old(datasource.rows)
      ensures datasource.rows == old(datasource.rows)[old(datasource.nextId) :=
                RowFor(shopName, name, amount, None, false, |old(articles)|)]
      ensures datasource.nextId == old(datasource.nextId) + 1
    {
      Append(name, amount, false, |articles|);
    }

    /** addArticle(article): a copy of a removed article is stored under a new id and appended. */
    method AddDeletedArticle(article: ArticleData)
      requires Valid()
      modifies this`articles, datasource`rows, datasource`nextId
      ensures Valid()
      ensures articles == old(articles) + [CopyOf(article, old(datasource.nextId), shopName)]
      ensures old(datasource.nextId) !in old(datasource.rows)
      ensures datasource.rows == old(datasource.rows)[old(datasource.nextId) := CopyRow(article, shopName)]
      ensures datasource.nextId == old(datasource.nextId) + 1
    {
      Append(article.name, article.amount, article.strikethrough, article.priority);
    }

    /** The list and table part of removeArticle: the article at `position` leaves both. */
    method Drop(position: nat) returns (removed: ArticleData)
      requires Mirrors() && position < |articles|
      modifies this`articles, datasource`rows
      ensures Mirrors()
      ensures removed == old(articles[position])
      ensures articles == RemoveAt(old(articles), position)
      ensures datasource.rows == old(datasource.rows) - {removed.id}
      ensures forall id :: id in Ids(articles) <==> id in Ids(old(articles)) && id != removed.id
    {
      removed := articles[position];
      ListsRemove(articles, datasource.rows, shopName, position);
      articles := RemoveAt(articles, position);
      datasource.DeleteArticle(removed);
    }

    /** The edit helpers: the article at `position` gets new values in the list and is written back. */
    method Edit(position: nat, article: ArticleData)
      requires Mirrors() && position < |articles| && article.id == articles[position].id
      requires article.shop == shopName
      modifies this`articles, datasource`rows
      ensures Mirrors()
      ensures articles == old(articles)[position := article]
      ensures article.id in old(datasource.rows)
      ensures datasource.rows == old(datasource.rows)[article.id := RowOf(shopName, article)]
    {
      assert article.id in Ids(articles);
      UniqueIdsAt(articles, position);
      assert Ids(articles[position := article]) == Ids(articles) by {
        assert forall k :: 0 <= k < |articles| ==> Ids(articles[position := article])[k] == Ids(articles)[k];
      }
      articles := articles[position := article];
      datasource.UpdateArticle(article);
      UpdatedRows(old(datasource.rows), article);
    }

    /** updateArticle(position, newName, newAmount): the article gets a new name and amount, in the list and the table. */
    method UpdateArticle(position: nat, newName: string, newAmount: int)
      requires Mirrors() && position < |articles|
      modifies this`articles, datasource`rows
      ensures Mirrors()
      ensures articles == old(articles)[position := old(articles[position]).(name := newName, amount := newAmount)]
      ensures datasource.rows.Keys == old(datasource.rows).Keys
      ensures datasource.rows[articles[position].id].amount == ClampAmount(newAmount)
      ensures datasource.rows[articles[position].id].name == newName
      ensures forall id :: id in old(datasource.rows) && id != articles[position].id ==>
                datasource.rows[id] == old(datasource.rows[id])
      ensures datasource.rows == old(datasource.rows)[articles[position].id := RowOf(shopName, articles[position])]
    {
      assert articles[position] in articles;
      Edit(position, articles[position].(name := newName, amount := newAmount));
    }

    /** updateArticleName: the article gets a new name, in the list and the table. */
    method UpdateArticleName(position: nat, newName: string)
      requires Mirrors() && position < |articles|
      modifies this`articles, datasource`rows
      ensures Mirrors()
      ensures articles == old(articles)[position := old(articles[position]).(name := newName)]
      ensures datasource.rows.Keys == old(datasource.rows).Keys
      ensures datasource.rows[articles[position].id].name == newName
      ensures forall id :: id in old(datasource.rows) && id != articles[position].id ==>
                datasource.rows[id] == old(datasource.rows[id])
      ensures datasource.rows == old(datasource.rows)[articles[position].id := RowOf(shopName, articles[position])]
    {
      assert articles[position] in articles;
      Edit(position, articles[position].(name := newName));
    }

    /**
     * updateArticleAmount: the article gets a new amount. The list holds the
     * amount as given; the table holds it clamped to at least 1.
     */
    method UpdateArticleAmount(position: nat, newAmount: int)
      requires Mirrors() && position < |articles|
      modifies this`articles, datasource`rows
      ensures Mirrors()
      ensures articles == old(articles)[position := old(articles[position]).(amount := newAmount)]
      ensures datasource.rows.Keys == old(datasource.rows).Keys
      ensures datasource.rows[articles[position].id].amount == ClampAmount(newAmount)
      ensures forall id :: id in old(datasource.rows) && id != articles[position].id ==>
                datasource.rows[id] == old(datasource.rows[id])
      ensures datasource.rows == old(datasource.rows)[articles[position].id := RowOf(shopName, articles[position])]
    {
      assert articles[position] in articles;
      Edit(position, articles[position].(amount := newAmount));
    }

    /**
     * The remove-article menu action as written: the first selected article
     * is removed and the handler returns at once, so the mode stays DETAIL and
     * the removed article's holder stays selected.
     */
    method RemoveSelectedArticleAsWritten() returns (undo: Undo)
      requires Valid() && |selectedItems| > 0
      modifies this`articles, datasource`rows
      ensures Mirrors() && Marks()
      ensures selectedItems == old(selectedItems) && toolbarMode == old(toolbarMode)
      ensures old(selectedItems[0]) !in Ids(articles)
      ensures var p := PositionOf(old(articles), old(selectedItems[0]));
        articles == RemoveAt(old(articles), p) && undo == RestoreOne(old(articles)[p], p)
      ensures datasource.rows == old(datasource.rows) - {old(selectedItems[0])}
      ensures !Valid()
    {
      var position := PositionOf(articles, selectedItems[0]);
      var removed := Drop(position);
      undo := RestoreOne(removed, position);
    }

    /**
     * removeArticles: with a selection, the selected articles are removed one
     * by one, in selection order, each at its current position; without one,
     * the whole list is cleared and every row of the shop is deleted. The
     * removed articles are kept for the undo action.
     */
    method RemoveArticles() returns (backup: seq<ArticleData>)
      requires Valid()
      modifies this`articles, datasource`rows
      ensures Mirrors() && Marks()
      ensures |selectedItems| > 0 ==>
                backup == WithIds(old(articles), selectedItems) &&
                articles == Without(old(articles), Members(selectedItems)) &&
                datasource.rows == old(datasource.rows) - (Members(selectedItems))
      ensures |selectedItems| == 0 ==>
                backup == old(articles) && articles == [] &&
                datasource.rows == WithoutShop(old(datasource.rows), shopName) &&
                datasource.rows == old(datasource.rows) - (Members(Ids(old(articles))))
    {
      if |selectedItems| > 0 {
        backup := RemoveSelected();
      } else {
        ListsShopIds(articles, datasource.rows, shopName);
        backup := articles;
        articles := [];
        datasource.DeleteAllArticles(shopName);
      }
    }

    /** The loop of removeArticles over a non-empty selection. */
    method RemoveSelected() returns (backup: seq<ArticleData>)
      requires Mirrors() && Selected()
      modifies this`articles, datasource`rows
      ensures Mirrors()
      ensures backup == WithIds(old(articles), selectedItems)
      ensures articles == Without(old(articles), Members(selectedItems))
      ensures datasource.rows == old(datasource.rows) - (Members(selectedItems))
    {
      ghost var start, rows := articles, datasource.rows;
      assert UniqueIds(start) && Distinct(selectedItems);
      assert forall id :: id in selectedItems ==> id in Ids(start);
      backup := [];
      ghost var gone: set<int> := {};
      assert selectedItems[..0] == [];
      WithoutNothing(articles);
      for i := 0 to |selectedItems|
        invariant datasource.Valid()
        invariant gone == Members(selectedItems[..i])
        invariant backup == WithIds(start, selectedItems[..i])
        invariant articles == Without(start, gone)
        invariant datasource.rows == rows - gone
      {
        RemoveNext(start, selectedItems, i, gone);
        WithIdsSnoc(start, selectedItems, i);
        DeleteStep(rows, gone, selectedItems[i]);
        var position := PositionOf(articles, selectedItems[i]);
        var article := articles[position];
        backup := backup + [article];
        articles := RemoveAt(articles, position);
        datasource.DeleteArticle(article);
        gone := gone + {selectedItems[i]};
      }
      assert selectedItems[..|selectedItems|] == selectedItems;
      ListsWithout(start, rows, shopName, gone);
    }

    /**
     * undoRemove(article, position): a copy of the removed article, under a
     * new id, goes back into the table and into the list at its old position.
     */
    method UndoRemove(article: ArticleData, position: nat)
      requires Valid() && position <= |articles| && article.shop == shopName
      modifies this`articles, datasource`rows, datasource`nextId
      ensures Valid()
      ensures articles == InsertAt(old(articles), position, CopyOf(article, old(datasource.nextId), shopName))
      ensures old(datasource.nextId) !in old(datasource.rows)
      ensures datasource.rows == old(datasource.rows)[old(datasource.nextId) := CopyRow(article, article.shop)]
      ensures datasource.nextId == old(datasource.nextId) + 1
    {
      var restored := datasource.CreateArticle(article.shop, article.name, article.amount, None,
                                               article.strikethrough, article.priority);
      ListsInsert(articles, old(datasource.rows), shopName, position, restored,
                  RowFor(article.shop, article.name, article.amount, None, article.strikethrough, article.priority));
      articles := InsertAt(articles, position, restored);
    }

    /**
     * undoRemove(removedArticles): each removed article is added back as a
     * copy, in backup order, at the end of the list, under consecutive new ids.
     */
    method UndoRemoveAll(backup: seq<ArticleData>)
      requires Valid()
      modifies this`articles, datasource`rows, datasource`nextId
      ensures Valid()
      ensures |articles| == |old(articles)| + |backup|
      ensures articles[..|old(articles)|] == old(articles)
      ensures forall k :: 0 <= k < |backup| ==>
                articles[|old(articles)| + k] == CopyOf(backup[k], old(datasource.nextId) + k, shopName)
      ensures articles == old(articles) + Copies(backup, old(datasource.nextId), shopName)
      ensures datasource.rows == Restored(old(datasource.rows), backup, old(datasource.nextId), shopName)
      ensures datasource.nextId == old(datasource.nextId) + |backup|
    {
      AppendCopies(backup);
      AppendedCopies(old(articles), backup, old(datasource.nextId), shopName);
    }

    /** The loop of undoRemove(removedArticles): one addArticle per backed-up article. */
    method AppendCopies(backup: seq<ArticleData>)
      requires Valid()
      modifies this`articles, datasource`rows, datasource`nextId
      ensures Valid()
      ensures articles == old(articles) + Copies(backup, old(datasource.nextId), shopName)
      ensures datasource.rows == Restored(old(datasource.rows), backup, old(datasource.nextId), shopName)
      ensures datasource.nextId == old(datasource.nextId) + |backup|
    {
      for i := 0 to |backup|
        invariant Valid()
        invariant datasource.nextId == old(datasource.nextId) + i
        invariant datasource.rows == Restored(old(datasource.rows), backup[..i], old(datasource.nextId), shopName)
        invariant articles == old(articles) + Copies(backup[..i], old(datasource.nextId), shopName)
      {
        AddDeletedArticle(backup[i]);
        assert datasource.rows == Restored(old(datasource.rows), backup[..i + 1], old(datasource.nextId), shopName) by {
          RestoredSnoc(old(datasource.rows), backup, i, old(datasource.nextId), shopName);
        }
        assert articles == old(articles) + Copies(backup[..i + 1], old(datasource.nextId), shopName) by {
          CopiesSnoc(backup, i, old(datasource.nextId), shopName);
        }
      }
      assert backup[..|backup|] == backup;
    }

    // -------------------------------------------------------------------------
    // Writing back, copying, sorting
    // -------------------------------------------------------------------------

    /**
     * savePositions: each article's priority becomes its position and is
     * written back, so the table now orders the list as it is shown.
     */
    method SavePositions()
      requires Valid()
      modifies this`articles, datasource`rows
      ensures Valid()
      ensures articles == Renumbered(old(articles))
      ensures datasource.rows == UpdatedAll(old(datasource.rows), articles)
      ensures forall k :: 0 <= k < |articles| ==> datasource.rows[articles[k].id].priority == k
    {
      SavedRows(articles, datasource.rows, shopName);
      var saved := SavePositionsOf(articles, datasource);
      articles := saved;
    }

    /** toggleStrikethrough: the selected articles are flipped and written back. */
    method ToggleStrikethrough()
      requires Valid()
      modifies this`articles, datasource`rows
      ensures Valid()
      ensures articles == FlippedWhere(old(articles), selectedItems)
      ensures datasource.rows == UpdatedAll(old(datasource.rows), FlippedAll(WithIds(old(articles), selectedItems)))
    {
      articles := ToggleStrikethroughOf(articles, selectedItems, datasource);
      FlippedRows(old(articles), selectedItems, old(datasource.rows), shopName);
    }

    /** copyArticlesToClipboard: the clipboard receives the text of the selected articles, or of all. */
    method CopyArticlesToClipboard()
      requires Valid()
      modifies this`clipboard
      ensures clipboard == ClipboardText(articles, selectedItems)
    {
      clipboard := ArticlesToString(articles, selectedItems);
    }

    /** sortArticlesByName: a stable sort of the list by name; the table is not written. */
    method SortArticlesByName()
      requires Valid()
      modifies this`articles
      ensures Valid()
      ensures articles == SortByName(old(articles))
    {
      SortByNamePermutes(articles);
      ListsPermutation(articles, SortByName(articles), datasource.rows, shopName);
      articles := SortByName(articles);
    }

    // -------------------------------------------------------------------------
    // Selection and toolbar mode
    // -------------------------------------------------------------------------

    /** startActionMode: a long press in NORMAL mode enters DETAIL mode and selects the pressed article. */
    method StartActionMode(id: int)
      requires Valid() && id in Ids(articles)
      modifies this`toolbarMode, this`selectedItems, this`marked
      ensures Valid()
      ensures old(toolbarMode) == Normal ==> selectedItems == [id] && toolbarMode == Detail
      ensures old(toolbarMode) != Normal ==> selectedItems == old(selectedItems) && toolbarMode == old(toolbarMode)
    {
      if toolbarMode == Normal {
        toolbarMode := Detail;
        ToggleSelection(id);
      }
    }

    /**
     * toggleSelection: outside NORMAL mode, the holder is deselected if its
     * content view is selected and selected otherwise, and the mode follows
     * the new size of the selection.
     */
    method ToggleSelection(id: int)
      requires Mirrors() && Selected() && id in Ids(articles)
      requires toolbarMode == ModeFor(|selectedItems|) || (toolbarMode == Detail && selectedItems == [])
      modifies this`toolbarMode, this`selectedItems, this`marked
      ensures old(toolbarMode) == Normal ==> unchanged(this)
      ensures old(toolbarMode) != Normal ==> Valid() && selectedItems == Toggle(old(selectedItems), id)
    {
      if toolbarMode != Normal {
        var isSelected := id in marked;
        if isSelected {
          selectedItems := RemoveValue(selectedItems, id);
        } else {
          selectedItems := selectedItems + [id];
        }
        ToggleDistinct(old(selectedItems), id);
        marked := if isSelected then marked - {id} else marked + {id};
        if toolbarMode != Multiple && |selectedItems| > 1 {
          ShowMultipleModeToolbar();
        } else if |selectedItems| == 0 {
          ShowNormalToolbar();
        } else if |selectedItems| == 1 {
          ShowActionModeToolbar();
        }
      }
    }

    /** clearSelections: every selected holder is unmarked, then the selection is emptied. */
    method ClearSelections()
      requires Marks()
      modifies this`marked, this`selectedItems
      ensures selectedItems == [] && marked == {}
    {
      marked := UnmarkAll(marked, selectedItems);
      assert forall x :: x !in marked;
      selectedItems := [];
    }

    /** showNormalToolbar: NORMAL mode, with the selection cleared. */
    method ShowNormalToolbar()
      requires Marks()
      modifies this`toolbarMode, this`marked, this`selectedItems
      ensures toolbarMode == Normal && selectedItems == [] && marked == {}
      ensures old(Mirrors()) ==> Valid()
    {
      toolbarMode := Normal;
      ClearSelections();
    }

    /** showActionModeToolbar: DETAIL mode. */
    method ShowActionModeToolbar()
      modifies this`toolbarMode
      ensures toolbarMode == Detail
    {
      toolbarMode := Detail;
    }

    /** showMultipleModeToolbar: MULTIPLE mode. */
    method ShowMultipleModeToolbar()
      modifies this`toolbarMode
      ensures toolbarMode == Multiple
    {
      toolbarMode := Multiple;
    }

    /** onBackPressed in a selection mode: back to NORMAL with nothing selected. */
    method OnBackPressed()
      requires Valid()
      modifies this`toolbarMode, this`marked, this`selectedItems
      ensures Valid() && toolbarMode == Normal && selectedItems == []
      ensures old(toolbarMode) == Normal ==> unchanged(this)
    {
      if toolbarMode != Normal {
        ShowNormalToolbar();
      }
    }

    /**
     * onOptionsItemSelected: performs the item's action, then leaves any
     * selection mode. The remove-article action also reaches that reset here
     * (see RemoveSelectedArticleAsWritten for the early return as written).
     */
    method OnOptionsItemSelected(item: MenuItem) returns (undo: Undo)
      requires Valid()
      requires item in {RemoveArticle, EditArticle, EditArticleName, EditArticleAmount} ==> |selectedItems| > 0
      modifies this`articles, this`selectedItems, this`marked, this`toolbarMode, this`clipboard, datasource`rows
      ensures Valid() && toolbarMode == Normal && selectedItems == []
      ensures item == SortAlpha ==> articles == SortByName(old(articles))
      ensures item == CopyToClipboard ==> clipboard == ClipboardText(old(articles), old(selectedItems))
      ensures item == Strikethrough ==> articles == FlippedWhere(old(articles), old(selectedItems))
      ensures item == RemoveArticle ==>
                old(selectedItems[0]) !in Ids(articles) &&
                articles == RemoveAt(old(articles), PositionOf(old(articles), old(selectedItems[0])))
      ensures item == RemoveAll && |old(selectedItems)| == 0 ==> articles == [] && undo == RestoreAll(old(articles))
      ensures item == RemoveAll && |old(selectedItems)| > 0 ==>
                articles == Without(old(articles), Members(old(selectedItems))) &&
                undo == RestoreAll(WithIds(old(articles), old(selectedItems)))
      ensures item == RemoveAll && |old(selectedItems)| == 0 ==>
                datasource.rows == WithoutShop(old(datasource.rows), shopName)
      ensures item == RemoveAll && |old(selectedItems)| > 0 ==>
                datasource.rows == old(datasource.rows) - Members(old(selectedItems))
      ensures item == RemoveArticle ==>
                var p := PositionOf(old(articles), old(selectedItems[0]));
                undo == RestoreOne(old(articles)[p], p) &&
                datasource.rows == old(datasource.rows) - {old(selectedItems[0])}
      ensures item == Strikethrough ==>
                datasource.rows == UpdatedAll(old(datasource.rows), FlippedAll(WithIds(old(articles), old(selectedItems))))
      ensures item != Strikethrough && item != RemoveAll && item != RemoveArticle ==>
                datasource.rows == old(datasource.rows)
      ensures item !in {SortAlpha, Strikethrough, RemoveAll, RemoveArticle} ==> articles == old(articles)
      ensures item != CopyToClipboard ==> clipboard == old(clipboard)
    {
      undo := PerformAction(item);
      if toolbarMode != Normal {
        ShowNormalToolbar();
      }
    }

    /**
     * The switch of onOptionsItemSelected. The edit items open dialogs and
     * exit leaves the app; neither changes the state modelled here.
     */
    method PerformAction(item: MenuItem) returns (undo: Undo)
      requires Valid()
      requires item in {RemoveArticle, EditArticle, EditArticleName, EditArticleAmount} ==> |selectedItems| > 0
      modifies this`articles, this`selectedItems, this`marked, this`toolbarMode, this`clipboard, datasource`rows
      ensures Mirrors() && Marks() && toolbarMode == ModeFor(|selectedItems|)
      ensures item != Home ==> selectedItems == old(selectedItems)
      ensures item == SortAlpha ==> articles == SortByName(old(articles))
      ensures item == CopyToClipboard ==> clipboard == ClipboardText(old(articles), old(selectedItems))
      ensures item == Strikethrough ==> articles == FlippedWhere(old(articles), old(selectedItems))
      ensures item == RemoveArticle ==>
                old(selectedItems[0]) !in Ids(articles) &&
                articles == RemoveAt(old(articles), PositionOf(old(articles), old(selectedItems[0])))
      ensures item == RemoveAll && |old(selectedItems)| == 0 ==> articles == [] && undo == RestoreAll(old(articles))
      ensures item == RemoveAll && |old(selectedItems)| > 0 ==>
                articles == Without(old(articles), Members(old(selectedItems))) &&
                undo == RestoreAll(WithIds(old(articles), old(selectedItems)))
      ensures item == RemoveAll && |old(selectedItems)| == 0 ==>
                datasource.rows == WithoutShop(old(datasource.rows), shopName)
      ensures item == RemoveAll && |old(selectedItems)| > 0 ==>
                datasource.rows == old(datasource.rows) - Members(old(selectedItems))
      ensures item == RemoveArticle ==>
                var p := PositionOf(old(articles), old(selectedItems[0]));
                undo == RestoreOne(old(articles)[p], p) &&
                datasource.rows == old(datasource.rows) - {old(selectedItems[0])}
      ensures item == Strikethrough ==>
                datasource.rows == UpdatedAll(old(datasource.rows), FlippedAll(WithIds(old(articles), old(selectedItems))))
      ensures item != Strikethrough && item != RemoveAll && item != RemoveArticle ==>
                datasource.rows == old(datasource.rows)
      ensures item !in {SortAlpha, Strikethrough, RemoveAll, RemoveArticle} ==> articles == old(articles)
      ensures item != CopyToClipboard ==> clipboard == old(clipboard)
    {
      if item == RemoveAll || item == RemoveArticle {
        undo := RemoveAction(item);
      } else {
        undo := NoUndo;
        OtherAction(item);
      }
    }

    /** The two removal items of the switch: they change the list and the table, not the selection. */
    method RemoveAction(item: MenuItem) returns (undo: Undo)
      requires Valid() && (item == RemoveAll || item == RemoveArticle)
      requires item == RemoveArticle ==> |selectedItems| > 0
      modifies this`articles, datasource`rows
      ensures Mirrors() && Marks()
      ensures item == RemoveArticle ==>
                old(selectedItems[0]) !in Ids(articles) &&
                articles == RemoveAt(old(articles), PositionOf(old(articles), old(selectedItems[0])))
      ensures item == RemoveAll && |selectedItems| == 0 ==> articles == [] && undo == RestoreAll(old(articles))
      ensures item == RemoveAll && |selectedItems| > 0 ==>
                articles == Without(old(articles), Members(selectedItems)) &&
                undo == RestoreAll(WithIds(old(articles), selectedItems))
      ensures item == RemoveAll && |selectedItems| == 0 ==>
                datasource.rows == WithoutShop(old(datasource.rows), shopName)
      ensures item == RemoveAll && |selectedItems| > 0 ==>
                datasource.rows == old(datasource.rows) - Members(selectedItems)
      ensures item == RemoveArticle ==>
                var p := PositionOf(old(articles), old(selectedItems[0]));
                undo == RestoreOne(old(articles)[p], p) &&
                datasource.rows == old(datasource.rows) - {old(selectedItems[0])}
    {
      if item == RemoveAll {
        var backup := RemoveArticles();
        undo := RestoreAll(backup);
      } else {
        undo := RemoveSelectedArticleAsWritten();
      }
    }

    /** The other items of the switch; none of them removes anything. */
    method OtherAction(item: MenuItem)
      requires Valid() && item != RemoveAll && item != RemoveArticle
      modifies this`articles, this`selectedItems, this`marked, this`toolbarMode, this`clipboard, datasource`rows
      ensures Mirrors() && Marks() && toolbarMode == ModeFor(|selectedItems|)
      ensures item != Home ==> selectedItems == old(selectedItems)
      ensures item == SortAlpha ==> articles == SortByName(old(articles))
      ensures item == CopyToClipboard ==> clipboard == ClipboardText(old(articles), old(selectedItems))
      ensures item == Strikethrough ==> articles == FlippedWhere(old(articles), old(selectedItems))
      ensures item == Strikethrough ==>
                datasource.rows == UpdatedAll(old(datasource.rows), FlippedAll(WithIds(old(articles), old(selectedItems))))
      ensures item != Strikethrough ==> datasource.rows == old(datasource.rows)
      ensures item !in {SortAlpha, Strikethrough} ==> articles == old(articles)
      ensures item != CopyToClipboard ==> clipboard == old(clipboard)
    {
      match item {
        case Home =>
          OnBackPressed();
        case SortAlpha =>
          SortArticlesByName();
        case CopyToClipboard =>
          CopyArticlesToClipboard();
        case Strikethrough =>
          ToggleStrikethrough();
        case EditArticle =>
        case EditArticleName =>
        case EditArticleAmount =>
        case ExitApp =>
      }
    }
  }

  // ---------------------------------------------------------------------------
  // How the list keeps mirroring the table
  // ---------------------------------------------------------------------------

  /** A new article of the shop, stored under a new id, may enter the list anywhere. */
  lemma ListsInsert(articles: seq<ArticleData>, rows: Table, shop: string, i: nat, d: ArticleData, row: Row)
    requires Lists(articles, rows, shop) && i <= |articles|
    requires d.id !in rows && d.shop == shop && row.shop == shop
    ensures Lists(InsertAt(articles, i, d), rows[d.id := row], shop)
    ensures forall id :: id in Ids(InsertAt(articles, i, d)) <==> id in Ids(articles) || id == d.id
  {
    var r := InsertAt(articles, i, d);
    assert d.id !in Ids(articles);
    assert UniqueIds(r) && forall id :: id in Ids(r) <==> id in Ids(articles) || id == d.id by {
      InsertAtIds(articles, i, d);
    }
    InsertAtShops(articles, i, d, shop);
    MirrorInsert(Ids(articles), Ids(r), rows, shop, d.id, row);
  }

  /** A new id listed together with a new row of the shop keeps the ids and the shop's rows matched. */
  lemma MirrorInsert(before: seq<int>, after: seq<int>, rows: Table, shop: string, id: int, row: Row)
    requires forall x :: x in before <==> x in rows && rows[x].shop == shop
    requires forall x :: x in after <==> x in before || x == id
    requires id !in rows && row.shop == shop
    ensures forall x :: x in after <==> x in rows[id := row] && rows[id := row][x].shop == shop
  {
  }

  /** Inserting an article of the shop keeps every article of the list in the shop. */
  lemma InsertAtShops(articles: seq<ArticleData>, i: nat, d: ArticleData, shop: string)
    requires i <= |articles| && d.shop == shop
    requires forall a :: a in articles ==> a.shop == shop
    ensures forall a :: a in InsertAt(articles, i, d) ==> a.shop == shop
  {
    var r := InsertAt(articles, i, d);
    forall k | 0 <= k < |r| ensures r[k].shop == shop {
      if k < i {
        assert r[k] == articles[k];
      } else if k > i {
        assert r[k] == articles[k - 1];
      }
    }
  }

  /** Removing an article from the list and its row from the table keeps the two mirrored. */
  lemma ListsRemove(articles: seq<ArticleData>, rows: Table, shop: string, i: nat)
    requires Lists(articles, rows, shop) && i < |articles|
    ensures Lists(RemoveAt(articles, i), rows - {articles[i].id}, shop)
  {
    var r := RemoveAt(articles, i);
    RemoveAtIds(articles, i);
    forall k | 0 <= k < |r| ensures r[k].shop == shop {
      if k < i {
        assert r[k] == articles[k];
      } else {
        assert r[k] == articles[k + 1];
      }
    }
  }

  /**
   * Undoing a removal (removeArticle, then the snackbar's undoRemove) puts
   * a copy back at the same position: the list is as before except that the
   * article there now carries the new id, no measure and a clamped amount.
   */
  lemma RemoveThenUndo(s: seq<ArticleData>, i: nat, id: int, shop: string)
    requires i < |s|
    ensures InsertAt(RemoveAt(s, i), i, CopyOf(s[i], id, shop)) == s[i := CopyOf(s[i], id, shop)]
  {
    var r := InsertAt(RemoveAt(s, i), i, CopyOf(s[i], id, shop));
    forall k | 0 <= k < |s| && k != i
      ensures r[k] == s[k]
    {
      if k > i {
        assert r[k] == RemoveAt(s, i)[k - 1];
      }
    }
  }

  /** The listed ids are exactly the ids of the shop's rows. */
  lemma ListsShopIds(articles: seq<ArticleData>, rows: Table, shop: string)
    requires Lists(articles, rows, shop)
    ensures ShopIds(rows, shop) == Members(Ids(articles))
  {
    var listed := Members(Ids(articles));
    forall id
      ensures id in ShopIds(rows, shop) <==> id in listed
    {
      if id in Ids(articles) {
        assert id in listed;
      }
    }
  }

  /** Any reordering of a mirroring list still mirrors the table. */
  lemma ListsPermutation(s: seq<ArticleData>, t: seq<ArticleData>, rows: Table, shop: string)
    requires Lists(s, rows, shop) && multiset(s) == multiset(t)
    ensures Lists(t, rows, shop)
  {
    PermutationKeepsIds(s, t);
    UniqueIdsPermutation(s, t);
    assert forall a :: a in t <==> a in s by {
      assert forall a :: a in t <==> a in multiset(t);
      assert forall a :: a in s <==> a in multiset(s);
    }
  }

  /**
   * After savePositions the table holds each listed article as it now is,
   * with its position as priority, and the list still mirrors the table.
   */
  lemma SavedRows(articles: seq<ArticleData>, rows: Table, shop: string)
    requires Lists(articles, rows, shop)
    ensures Ids(Renumbered(articles)) == Ids(articles)
    ensures UpdatedAll(rows, Renumbered(articles)).Keys == rows.Keys
    ensures Lists(Renumbered(articles), UpdatedAll(rows, Renumbered(articles)), shop)
    ensures forall k :: 0 <= k < |articles| ==>
              articles[k].id in rows &&
              UpdatedAll(rows, Renumbered(articles))[articles[k].id].priority == k
  {
    var saved := Renumbered(articles);
    assert Ids(saved) == Ids(articles) by {
      assert forall k :: 0 <= k < |saved| ==> Ids(saved)[k] == Ids(articles)[k];
    }
    UpdatedAllKeeps(rows, saved);
    UpdatedAllRows(rows, saved);
    forall k | 0 <= k < |articles|
      ensures UpdatedAll(rows, saved)[articles[k].id].priority == k
    {
      assert saved[k].id == articles[k].id;
    }
  }

  /** After toggleStrikethrough the list still mirrors the table. */
  lemma FlippedRows(articles: seq<ArticleData>, selection: seq<int>, rows: Table, shop: string)
    requires Lists(articles, rows, shop) && forall id :: id in selection ==> id in Ids(articles)
    ensures Lists(FlippedWhere(articles, selection),
                  UpdatedAll(rows, FlippedAll(WithIds(articles, selection))), shop)
  {
    var t := FlippedWhere(articles, selection);
    UpdatedAllKeeps(rows, FlippedAll(WithIds(articles, selection)));
    assert forall a :: a in t ==> a.shop == shop by {
      forall a | a in t
        ensures a.shop == shop
      {
        var k :| 0 <= k < |t| && t[k] == a;
        assert articles[k] in articles;
      }
    }
  }

  /**
   * One turn of removeArticles' loop: the next selected article is still
   * listed, and removing it from the list removes exactly its id.
   */
  lemma RemoveNext(s: seq<ArticleData>, selection: seq<int>, i: nat, gone: set<int>)
    requires UniqueIds(s) && Distinct(selection) && i < |selection|
    requires forall id :: id in selection ==> id in Ids(s)
    requires gone == Members(selection[..i])
    ensures selection[i] in Ids(Without(s, gone)) && selection[i] !in gone
    ensures RemoveAt(Without(s, gone), PositionOf(Without(s, gone), selection[i]))
            == Without(s, gone + {selection[i]})
    ensures gone + {selection[i]} == Members(selection[..i + 1])
    ensures Without(s, gone)[PositionOf(Without(s, gone), selection[i])] == s[PositionOf(s, selection[i])]
  {
    MembersSnoc(selection, i);
    assert selection[i] !in gone by {
      assert forall j :: 0 <= j < i ==> selection[j] != selection[i];
    }
    var w := Without(s, gone);
    WithoutIds(s, gone);
    var p := PositionOf(w, selection[i]);
    RemoveFromWithout(s, gone, selection[i], p);
    assert w[p] in s;
    var k :| 0 <= k < |s| && s[k] == w[p];
    UniqueIdsAt(s, k);
  }

  /** Dropping the articles of a set of ids from the list and their rows from the table keeps the two mirrored. */
  lemma ListsWithout(articles: seq<ArticleData>, rows: Table, shop: string, gone: set<int>)
    requires Lists(articles, rows, shop)
    ensures Lists(Without(articles, gone), rows - gone, shop)
  {
    WithoutIds(articles, gone);
    WithoutUnique(articles, gone);
  }

  /** Filtering keeps ids unique. */
  lemma {:induction false} WithoutUnique(s: seq<ArticleData>, gone: set<int>)
    requires UniqueIds(s)
    ensures UniqueIds(Without(s, gone))
    decreases |s|
  {
    if s != [] {
      UniqueIdsTail(s);
      WithoutUnique(s[1..], gone);
      var w := Without(s[1..], gone);
      WithoutIds(s[1..], gone);
      if s[0].id !in gone {
        UniqueIdsCons(s[0], w);
      }
    }
  }

  /** An article whose id is new may go in front of a list with unique ids. */
  lemma UniqueIdsCons(d: ArticleData, s: seq<ArticleData>)
    requires UniqueIds(s) && d.id !in Ids(s)
    ensures UniqueIds([d] + s)
  {
    var r := [d] + s;
    assert Ids(r) == [d.id] + Ids(s) by {
      UniqueIdsTail(r);
      assert r[1..] == s;
    }
  }

  /** Deleting one more row is deleting the grown set of rows. */
  lemma DeleteStep(rows: Table, gone: set<int>, x: int)
    ensures (rows - gone) - {x} == rows - (gone + {x})
  {
  }

  /** Taking the article with id `x` out of a filtered list is filtering `x` out as well. */
  lemma {:induction false} RemoveFromWithout(s: seq<ArticleData>, gone: set<int>, x: int, p: nat)
    requires UniqueIds(s)
    requires p < |Without(s, gone)| && Without(s, gone)[p].id == x
    ensures RemoveAt(Without(s, gone), p) == Without(s, gone + {x})
    decreases |s|
  {
    var t := s[1..];
    UniqueIdsTail(s);
    if s[0].id in gone {
      assert Without(s, gone) == Without(t, gone);
      assert Without(s, gone + {x}) == Without(t, gone + {x});
      RemoveFromWithout(t, gone, x, p);
    } else if p == 0 {
      assert Without(s, gone + {x}) == Without(t, gone + {x});
      WithoutAbsent(t, gone, x);
    } else {
      var w := Without(t, gone);
      assert Without(s, gone) == [s[0]] + w;
      assert w[p - 1].id == x;
      WithoutIds(t, gone);
      assert x in Ids(w);
      assert Without(s, gone + {x}) == [s[0]] + Without(t, gone + {x});
      RemoveFromWithout(t, gone, x, p - 1);
      assert RemoveAt([s[0]] + w, p) == [s[0]] + RemoveAt(w, p - 1);
    }
  }

  /** The ids of a list are its head's id then the ids of its tail, and with unique ids the head's id is not in the tail. */
  lemma UniqueIdsTail(s: seq<ArticleData>)
    requires s != []
    ensures Ids(s) == [s[0].id] + Ids(s[1..])
    ensures UniqueIds(s) ==> UniqueIds(s[1..]) && s[0].id !in Ids(s[1..])
  {
    var t := s[1..];
    assert Ids(s) == [s[0].id] + Ids(t);
    if UniqueIds(s) {
      forall a, b | 0 <= a < b < |t| ensures Ids(t)[a] != Ids(t)[b] {
        assert Ids(s)[a + 1] != Ids(s)[b + 1];
      }
      forall k | 0 <= k < |t| ensures Ids(t)[k] != s[0].id {
        assert Ids(s)[k + 1] != Ids(s)[0];
      }
    }
  }

  /** Filtering out no id keeps the whole list. */
  lemma {:induction false} WithoutNothing(s: seq<ArticleData>)
    ensures Without(s, {}) == s
    decreases |s|
  {
    if s != [] {
      WithoutNothing(s[1..]);
    }
  }

  /** Filtering out an id the list does not hold changes nothing. */
  lemma {:induction false} WithoutAbsent(s: seq<ArticleData>, gone: set<int>, x: int)
    requires x !in Ids(s)
    ensures Without(s, gone + {x}) == Without(s, gone)
    decreases |s|
  {
    if s != [] {
      assert Ids(s) == [s[0].id] + Ids(s[1..]);
      WithoutAbsent(s[1..], gone, x);
    }
  }

  // ---------------------------------------------------------------------------
  // Saving the order, then opening the screen again
  // ---------------------------------------------------------------------------

  /**
   * After savePositions, loading the shop again (onCreate's getAllArticles)
   * gives back the list in the order it was shown, each article as saved:
   * position k holds the article that was at k, with priority k and its
   * amount as the table clamps it.
   */
  lemma SaveThenLoad(s: seq<ArticleData>, rows: Table, shop: string, r: seq<ArticleData>)
    requires Lists(s, rows, shop)
    requires Loaded(r, UpdatedAll(rows, Renumbered(s)), shop)
    ensures |r| == |s|
    ensures forall k :: 0 <= k < |r| ==> r[k] == s[k].(priority := k, amount := ClampAmount(s[k].amount))
  {
    var saved := Renumbered(s);
    var stored := UpdatedAll(rows, saved);
    LoadedSavedIds(s, rows, shop, r);
    SavedRows(s, rows, shop);
    SameOrder(s, stored, r);
    UpdatedAllRows(rows, saved);
    forall k | 0 <= k < |r|
      ensures r[k] == s[k].(priority := k, amount := ClampAmount(s[k].amount))
    {
      assert saved[k].id == s[k].id && s[k].id in rows;
      assert s[k] in s;
    }
  }

  /** Loading after savePositions gives back as many articles, all from the list. */
  lemma LoadedSavedIds(s: seq<ArticleData>, rows: Table, shop: string, r: seq<ArticleData>)
    requires Lists(s, rows, shop)
    requires Loaded(r, UpdatedAll(rows, Renumbered(s)), shop)
    ensures |r| == |s| && forall j :: 0 <= j < |r| ==> r[j].id in Ids(s)
  {
    var stored := UpdatedAll(rows, Renumbered(s));
    UpdatedAllShopIds(rows, Renumbered(s), shop);
    ListsShopIds(s, rows, shop);
    MembersCardinality(Ids(s));
    assert |r| == |ShopIds(stored, shop)| == |Members(Ids(s))|;
    forall j | 0 <= j < |r| ensures r[j].id in Ids(s) {
      assert Ids(r)[j] == r[j].id;
      assert r[j].id in ShopIds(stored, shop);
    }
  }

  /**
   * A loaded list with the same ids as `s`, sorted by stored priority, where
   * the priority stored for the article at k is k, lists the ids in the order of `s`.
   */
  lemma SameOrder(s: seq<ArticleData>, stored: Table, r: seq<ArticleData>)
    requires UniqueIds(s) && UniqueIds(r) && |r| == |s|
    requires forall j :: 0 <= j < |r| ==> r[j].id in Ids(s)
    requires forall k :: 0 <= k < |s| ==> s[k].id in stored && stored[s[k].id].priority == k
    requires forall i, j :: 0 <= i < j < |r| ==> stored[r[i].id].priority <= stored[r[j].id].priority
    ensures forall k :: 0 <= k < |r| ==> r[k].id == s[k].id
  {
    var a, b := Ids(s), Ids(r);
    forall k | 0 <= k < |a| ensures a[k] in stored && stored[a[k]].priority == k {
      assert a[k] == s[k].id;
    }
    forall j | 0 <= j < |b| ensures b[j] in a {
      assert b[j] == r[j].id;
    }
    forall i, j | 0 <= i < j < |b| ensures stored[b[i]].priority <= stored[b[j]].priority {
      assert b[i] == r[i].id && b[j] == r[j].id;
    }
    SameOrderIds(a, b, stored);
  }

  /** The id-level argument of SameOrder. */
  lemma SameOrderIds(a: seq<int>, b: seq<int>, stored: Table)
    requires Distinct(b) && |b| == |a|
    requires forall j :: 0 <= j < |b| ==> b[j] in a
    requires forall k :: 0 <= k < |a| ==> a[k] in stored && stored[a[k]].priority == k
    requires forall i, j :: 0 <= i < j < |b| ==> stored[b[i]].priority <= stored[b[j]].priority
    ensures a == b
  {
    var p := seq(|b|, j requires 0 <= j < |b| => stored[b[j]].priority);
    forall j | 0 <= j < |b|
      ensures 0 <= p[j] < |b| && a[p[j]] == b[j]
    {
      var k :| 0 <= k < |a| && a[k] == b[j];
    }
    forall i, j | 0 <= i < j < |b|
      ensures p[i] < p[j]
    {
      assert b[i] != b[j];
    }
    IncreasingIsIdentity(p);
  }

  /** A strictly increasing list of indexes into itself counts 0, 1, 2, ... */
  lemma IncreasingIsIdentity(p: seq<int>)
    requires forall j :: 0 <= j < |p| ==> 0 <= p[j] < |p|
    requires forall i, j :: 0 <= i < j < |p| ==> p[i] < p[j]
    ensures forall j :: 0 <= j < |p| ==> p[j] == j
  {
    forall j | 0 <= j < |p|
      ensures p[j] == j
    {
      AtLeastIndex(p, j);
      AtMostIndex(p, j);
    }
  }

  lemma {:induction false} AtLeastIndex(p: seq<int>, j: nat)
    requires forall j :: 0 <= j < |p| ==> 0 <= p[j]
    requires forall i, j :: 0 <= i < j < |p| ==> p[i] < p[j]
    requires j < |p|
    ensures p[j] >= j
  {
    if j > 0 {
      AtLeastIndex(p, j - 1);
    }
  }

  lemma {:induction false} AtMostIndex(p: seq<int>, j: nat)
    requires forall j :: 0 <= j < |p| ==> p[j] < |p|
    requires forall i, j :: 0 <= i < j < |p| ==> p[i] < p[j]
    requires j < |p|
    ensures p[j] <= j
    decreases |p| - j
  {
    if j < |p| - 1 {
      AtMostIndex(p, j + 1);
    }
  }
}
