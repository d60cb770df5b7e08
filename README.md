# Shopping list: the article screen, its adapter and the article table

This project models, in Dafny, the core of an Android shopping-list app. A user keeps one list of articles per shop. Each article has a name, an amount, an optional unit of measure, a strikethrough flag and a priority that fixes its place in the list. The model covers:

- **Articles** (`article.dfy`, module `Articles`): the article record. Articles are compared by priority (`compareTo`). `toString` is the amount, a blank, then the name. `swapPriority` and the setters change an `Article` object in place. The record's value is the datatype `ArticleData`.
- **The article table** (`article_data_source.dfy`, module `ArticleStore`): a map from row id to row, with an autoincrement counter. `createArticle`, `updateArticle`, `deleteArticle`, `deleteAllArticles` and `getAllArticles` are methods of the class `ArticleDataSource`. `getAllArticles` reads the shop's rows, sorts them by priority, then renumbers the priorities 0..n-1 in memory. Amounts are clamped to at least 1 on every write. Strikethrough is stored as 0 or 1.
- **The shop table** (`shop_data_source.dfy`, module `ShopStore`): `getShop` looks a shop name up and inserts it when it is missing. Shop names are unique.
- **Selection and toolbar mode** (`selection.dfy`, module `Selection`): NORMAL, DETAIL or MULTIPLE. The selection is the list of selected view holders, in the order they were selected, with no repeats.
- **Shared list operations** (`article_lists.dfy`, module `ArticleLists`): sorting by name with `String.compareTo`, the text copied to the clipboard, the positions of the selected articles, saving positions, and toggling strikethrough. The screen and the adapter each carry their own copy of these in the app. Here each is written once.
- **The article screen** (`article_activity.dfy`, module `Activity`): the class `ArticleActivity` holds the in-memory list, the selection, the mode and the clipboard text. It covers drag (`onMove`), swipe, add, edit, remove and undo, save positions, strikethrough, copy, sort, the selection handlers, the toolbar modes, the back button and the options menu. Its invariant `Valid` has three parts:
  - The list mirrors the shop's part of the table: ids are unique, and the listed ids are exactly the shop's row ids.
  - The selected holders are exactly the ones drawn selected, and they show listed articles.
  - The mode matches the size of the selection.
- **The adapter** (`article_adapter.dfy`, module `Adapter`): the class `ArticleAdapter` holds its dataset, its selection and the manager's toolbar mode. It covers the click and long-click listeners and the adapter's own operations.

A view holder is identified by the id of the article it shows. `getAdapterPosition` is the index of that id in the list (`PositionOf`). The events are methods. Each method's `ensures` relates the new list, table and selection to the old ones through specification functions: `Moved`, `RemoveAt`, `InsertAt`, `Without`, `WithIds`, `Renumbered`, `FlippedWhere`, `SortByName`, `ClipboardText`, `Updated` and `UpdatedAll`. Lemmas then prove the properties of those functions:

- a drag can be undone by dragging back;
- toggling a selection or a strikethrough twice gives the original back;
- sorting by name is a permutation, is stable (articles of one name keep their order) and is idempotent;
- the clipboard text reads back line by line as amount and name;
- `getShop` is idempotent;
- a removal followed by its undo restores the list, with a new id;
- after `savePositions`, reopening the screen loads the list in exactly the order it was shown.

## Model

| member | source | states |
|---|---|---|
| Articles.CompareTo | app/src/main/java/be/oreel/masi/shoppinglist/model/Article.java:25-30 | compareTo returns +1, -1 or 0 exactly when the first priority is greater, smaller or equal |
| Articles.CompareToAntisymmetric | app/src/main/java/be/oreel/masi/shoppinglist/model/Article.java:25-30 | comparing the other way round negates the result |
| Articles.CompareToTotalPreorder | app/src/main/java/be/oreel/masi/shoppinglist/model/Article.java:25-30 | compareTo is total and transitive, and is 0 exactly on equal priorities, so Collections.sort may use it |
| Articles.DecimalRoundTrip | app/src/main/java/be/oreel/masi/shoppinglist/model/Article.java:20-22 | the decimal text of any amount reads back as that amount and holds no blank or line break |
| Articles.Text | app/src/main/java/be/oreel/masi/shoppinglist/model/Article.java:20-22 | toString ends with one blank followed by the name |
| Articles.TextReadsBack | app/src/main/java/be/oreel/masi/shoppinglist/model/Article.java:20-22 | toString is the amount, one blank, then the name: the name is its tail and the part before the blank parses back to the amount |
| Articles.Article.SetId | app/src/main/java/be/oreel/masi/shoppinglist/model/Article.java:54-56 | the article afterwards equals the article before with only the id replaced |
| Articles.Article.SetShop | app/src/main/java/be/oreel/masi/shoppinglist/model/Article.java:70-72 | only the shop name is replaced |
| Articles.Article.SetName | app/src/main/java/be/oreel/masi/shoppinglist/model/Article.java:86-88 | only the name is replaced |
| Articles.Article.SetAmount | app/src/main/java/be/oreel/masi/shoppinglist/model/Article.java:102-104 | only the amount is replaced |
| Articles.Article.SetStrikethrough | app/src/main/java/be/oreel/masi/shoppinglist/model/Article.java:111-113 | only the strikethrough flag is replaced |
| Articles.Article.SetPriority | app/src/main/java/be/oreel/masi/shoppinglist/model/Article.java:119-121 | only the priority is replaced |
| Articles.Article.SwapPriority | app/src/main/java/be/oreel/masi/shoppinglist/model/Article.java:32-36 | two distinct articles exchange priorities and keep every other field; called with the same article twice, nothing changes |
| Articles.SwappedPriorities | app/src/main/java/be/oreel/masi/shoppinglist/model/Article.java:32-36 | each article gets the other one's priority and keeps everything else |
| Articles.SwapTwice | app/src/main/java/be/oreel/masi/shoppinglist/model/Article.java:32-36 | swapping priorities twice restores both articles |
| Articles.PositionOf | app/src/main/java/be/oreel/masi/shoppinglist/activity/ArticleActivity.java:463 | getAdapterPosition: the index of the holder's article, the first index holding that id |
| Articles.WithIds | app/src/main/java/be/oreel/masi/shoppinglist/activity/ArticleActivity.java:462-465 | the backup of the removed articles: the article carrying each listed id, in the order of the ids |
| ListOps.AnyMember | app/src/main/java/be/oreel/masi/shoppinglist/db/ArticleDataSource.java:150-153 | the cursor of a non-empty result yields one of its rows: the next unvisited row of getAllArticles, the first row of getShop |
| ListOps.RemoveAt | app/src/main/java/be/oreel/masi/shoppinglist/activity/ArticleActivity.java:431 | List.remove(int): one element shorter, the elements before `i` stay put and the ones after it shift left by one |
| ListOps.InsertAt | app/src/main/java/be/oreel/masi/shoppinglist/activity/ArticleActivity.java:505 | List.add(int, E): the new element sits at `i`, the ones before stay, the ones from `i` on shift right by one |
| ListOps.Swap | app/src/main/java/be/oreel/masi/shoppinglist/activity/ArticleActivity.java:139 | Collections.swap exchanges two elements, keeps the others and is a permutation |
| ListOps.Moved | app/src/main/java/be/oreel/masi/shoppinglist/activity/ArticleActivity.java:134-149 | the end state of a drag: same length, same multiset, the dragged element at the target position |
| ListOps.MovedBack | app/src/main/java/be/oreel/masi/shoppinglist/activity/ArticleActivity.java:134-149 | dragging the element back to where it came from restores the list |
| ListOps.SwapStepDown | app/src/main/java/be/oreel/masi/shoppinglist/activity/ArticleActivity.java:137-140 | one more downward swap carries the dragged element one place further |
| ListOps.SwapStepUp | app/src/main/java/be/oreel/masi/shoppinglist/activity/ArticleActivity.java:141-144 | one more upward swap carries the dragged element one place further |
| ListOps.RemoveValue | app/src/main/java/be/oreel/masi/shoppinglist/activity/ArticleActivity.java:641 | List.remove(Object): the first occurrence goes, the multiset loses exactly that element, other values keep their membership |
| ListOps.RemoveValueDistinct | app/src/main/java/be/oreel/masi/shoppinglist/activity/ArticleActivity.java:641 | on a list without repeats the removed value is gone entirely and no repeat appears |
| ArticleStore.ClampAmount | app/src/main/java/be/oreel/masi/shoppinglist/db/ArticleDataSource.java:81 | the stored amount is at least 1 and at least the given one, and equals it or 1 |
| ArticleStore.FlagCode | app/src/main/java/be/oreel/masi/shoppinglist/db/ArticleDataSource.java:83 | strikethrough is stored as 0 or 1 and reads back as the same flag |
| ArticleStore.RowFor | app/src/main/java/be/oreel/masi/shoppinglist/db/ArticleDataSource.java:78-84 | the inserted row meets the table's CHECK constraints and reads back as the given values with the amount clamped |
| ArticleStore.Decode | app/src/main/java/be/oreel/masi/shoppinglist/db/ArticleDataSource.java:172-183 | cursorToArticle reads every column: id, shop, name and priority as stored, and an amount and a flag that encode back to the stored ones |
| ArticleStore.DecodeRoundTrip | app/src/main/java/be/oreel/masi/shoppinglist/db/ArticleDataSource.java:172-183 | a row meeting the CHECK constraints, read by cursorToArticle and written back by updateArticle, is the same row |
| ArticleStore.RowOf | app/src/main/java/be/oreel/masi/shoppinglist/db/ArticleDataSource.java:105-110 | the row updateArticle writes meets the constraints and reads back as the article, amount clamped, under the row's own shop |
| ArticleStore.UpdatedRows | app/src/main/java/be/oreel/masi/shoppinglist/db/ArticleDataSource.java:103-114 | an update touches only the row with the article's id, keeps every id and every shop, and keeps the constraints |
| ArticleStore.UpdatedAllKeeps | app/src/main/java/be/oreel/masi/shoppinglist/db/ArticleDataSource.java:103-114 | a series of updates never adds or drops a row, never moves a row to another shop and keeps the constraints |
| ArticleStore.UpdatedAllRows | app/src/main/java/be/oreel/masi/shoppinglist/db/ArticleDataSource.java:103-114 | a series of updates with distinct ids writes each listed row from its own values and leaves every other row alone |
| ArticleStore.UpdatedAllShopIds | app/src/main/java/be/oreel/masi/shoppinglist/db/ArticleDataSource.java:103-114 | updates leave the set of each shop's rows unchanged |
| ArticleStore.WithoutShop | app/src/main/java/be/oreel/masi/shoppinglist/db/ArticleDataSource.java:132-136 | deleteAllArticles removes exactly the rows of that shop and leaves the others as they were |
| ArticleStore.InsertByPriority | app/src/main/java/be/oreel/masi/shoppinglist/db/ArticleDataSource.java:159 | inserting into a list sorted by compareTo keeps it sorted and adds exactly one element |
| ArticleStore.SortByPriority | app/src/main/java/be/oreel/masi/shoppinglist/db/ArticleDataSource.java:159 | Collections.sort(articles) gives a list sorted by compareTo made of the list's elements |
| ArticleStore.SortByPriorityPermutes | app/src/main/java/be/oreel/masi/shoppinglist/db/ArticleDataSource.java:159 | the sort is a permutation |
| ArticleStore.PermutationKeepsIds | app/src/main/java/be/oreel/masi/shoppinglist/db/ArticleDataSource.java:159 | a reordered list has the same length and the same ids |
| ArticleStore.UniqueIdsPermutation | app/src/main/java/be/oreel/masi/shoppinglist/db/ArticleDataSource.java:159 | a reordered list of articles with unique ids still has unique ids |
| ArticleStore.ArticleDataSource.CreateArticle | app/src/main/java/be/oreel/masi/shoppinglist/db/ArticleDataSource.java:75-97 | one row is inserted under the next autoincrement id, with the amount clamped and the flag coded; the article returned is that row read back |
| ArticleStore.ArticleDataSource.UpdateArticle | app/src/main/java/be/oreel/masi/shoppinglist/db/ArticleDataSource.java:103-114 | the table becomes Updated(old table, article); the constraints still hold |
| ArticleStore.ArticleDataSource.DeleteArticle | app/src/main/java/be/oreel/masi/shoppinglist/db/ArticleDataSource.java:120-126 | exactly the row with the article's id is gone, if there was one |
| ArticleStore.ArticleDataSource.DeleteAllArticles | app/src/main/java/be/oreel/masi/shoppinglist/db/ArticleDataSource.java:132-136 | exactly the shop's rows are gone |
| ArticleStore.ArticleDataSource.QueryShop | app/src/main/java/be/oreel/masi/shoppinglist/db/ArticleDataSource.java:146-156 | the cursor loop reads each row of the shop exactly once, each decoded from its row, in an order SQL leaves open |
| ArticleStore.ArticleDataSource.GetAllArticles | app/src/main/java/be/oreel/masi/shoppinglist/db/ArticleDataSource.java:143-165 | each of the shop's rows once, decoded, in non-decreasing stored priority, with the priorities renumbered 0..n-1 in memory |
| ArticleStore.SortedRows | app/src/main/java/be/oreel/masi/shoppinglist/db/ArticleDataSource.java:159 | the sorted query result holds the same rows once each, ordered by stored priority |
| ArticleStore.RenumberedRows | app/src/main/java/be/oreel/masi/shoppinglist/db/ArticleDataSource.java:160-162 | renumbering keeps ids and every value read from the row except the priority, which becomes the index |
| ArticleStore.Renumber | app/src/main/java/be/oreel/masi/shoppinglist/db/ArticleDataSource.java:160-162 | the renumbering loop sets each priority to its index |
| ShopStore.Named | app/src/main/java/be/oreel/masi/shoppinglist/db/ShopDataSource.java:69-71 | the lookup query returns exactly the ids of rows with that name |
| ShopStore.NamedAtMostOne | app/src/main/java/be/oreel/masi/shoppinglist/db/DBHelper.java:36 | with the UNIQUE name column, a name matches at most one row |
| ShopStore.GetOrCreate | app/src/main/java/be/oreel/masi/shoppinglist/db/ShopDataSource.java:67-90 | getShop returns the row with that name; if there was none it inserts one under the next id and changes nothing else; the table stays valid |
| ShopStore.GetShopIdempotent | app/src/main/java/be/oreel/masi/shoppinglist/db/ShopDataSource.java:67-90 | a second getShop with the same name returns the same shop and inserts nothing |
| ShopStore.GetShopKeepsOtherShops | app/src/main/java/be/oreel/masi/shoppinglist/db/ShopDataSource.java:67-90 | getShop never changes which row holds any other name |
| ShopStore.ShopDataSource.GetShop | app/src/main/java/be/oreel/masi/shoppinglist/db/ShopDataSource.java:67-90 | the method's new table and result are those of GetOrCreate |
| Selection.ModeFor | app/src/main/java/be/oreel/masi/shoppinglist/activity/ArticleActivity.java:649-658 | NORMAL for an empty selection, DETAIL for one, MULTIPLE for more, each if and only if |
| Selection.NextMode | app/src/main/java/be/oreel/masi/shoppinglist/adapter/ArticleAdapter.java:195-203 | the mode toggleSelection sets is the one that matches the new selection size, whatever the previous mode |
| Selection.Toggle | app/src/main/java/be/oreel/masi/shoppinglist/activity/ArticleActivity.java:640-645 | the id leaves the selection if it was in it and is appended otherwise; other ids keep their membership; the size changes by one |
| Selection.ToggleDistinct | app/src/main/java/be/oreel/masi/shoppinglist/activity/ArticleActivity.java:640-645 | toggling keeps the selection free of repeats |
| Selection.ToggleTwiceUnselected | app/src/main/java/be/oreel/masi/shoppinglist/activity/ArticleActivity.java:640-645 | selecting then deselecting an unselected holder gives back the very same selection |
| Selection.ToggleTwiceSelected | app/src/main/java/be/oreel/masi/shoppinglist/activity/ArticleActivity.java:640-645 | deselecting then reselecting a selected holder gives the same members, with that holder now last |
| Selection.UnmarkAll | app/src/main/java/be/oreel/masi/shoppinglist/activity/ArticleActivity.java:666-668 | after the loop, the marked holders are the previously marked ones that are not selected |
| ArticleLists.CodeUnits | app/src/main/java/be/oreel/masi/shoppinglist/activity/ArticleActivity.java:598 | a character below U+10000 is one UTF-16 code unit, any other a high surrogate then a low surrogate |
| ArticleLists.Utf16RoundTrip | app/src/main/java/be/oreel/masi/shoppinglist/activity/ArticleActivity.java:598 | the UTF-16 encoding of a string decodes back to its code points, so two strings with one encoding are equal |
| ArticleLists.CompareUnits | app/src/main/java/be/oreel/masi/shoppinglist/activity/ArticleActivity.java:598 | String.compareTo on code units: 0 on equal sequences, negative for the empty one against a non-empty one |
| ArticleLists.CompareStrings | app/src/main/java/be/oreel/masi/shoppinglist/activity/ArticleActivity.java:598 | String.compareTo compares the strings' UTF-16 code units: 0 on equal strings, negative for the empty string against a non-empty one |
| ArticleLists.CompareStringsSurrogateOrder | app/src/main/java/be/oreel/masi/shoppinglist/activity/ArticleActivity.java:598 | by code units U+1F600 sorts before U+FF21 although its code point is larger |
| ArticleLists.CompareStringsAntisymmetric | app/src/main/java/be/oreel/masi/shoppinglist/activity/ArticleActivity.java:598 | compareTo changes sign when its arguments are swapped |
| ArticleLists.CompareStringsZero | app/src/main/java/be/oreel/masi/shoppinglist/activity/ArticleActivity.java:598 | compareTo is 0 exactly on equal strings |
| ArticleLists.CompareStringsTransitive | app/src/main/java/be/oreel/masi/shoppinglist/activity/ArticleActivity.java:598 | "compareTo <= 0" is transitive |
| ArticleLists.InsertByName | app/src/main/java/be/oreel/masi/shoppinglist/activity/ArticleActivity.java:596-600 | inserting into a list sorted by name keeps it sorted and adds exactly that article |
| ArticleLists.SortByName | app/src/main/java/be/oreel/masi/shoppinglist/activity/ArticleActivity.java:595-602 | the sort by name gives a list sorted by the name comparator made of the list's articles |
| ArticleLists.SortByNamePermutes | app/src/main/java/be/oreel/masi/shoppinglist/activity/ArticleActivity.java:595-602 | the sort by name is a permutation |
| ArticleLists.SortByNameSorted | app/src/main/java/be/oreel/masi/shoppinglist/activity/ArticleActivity.java:595-602 | a list already sorted by name is left exactly as it is |
| ArticleLists.WithNameMembers | app/src/main/java/be/oreel/masi/shoppinglist/activity/ArticleActivity.java:595-602 | the articles of one name kept by the filter are exactly the list's articles of that name |
| ArticleLists.InsertByNameWithName | app/src/main/java/be/oreel/masi/shoppinglist/activity/ArticleActivity.java:595-602 | inserting into a sorted list puts the article after every article of the same name |
| ArticleLists.SortByNameStable | app/src/main/java/be/oreel/masi/shoppinglist/activity/ArticleActivity.java:595-602 | Collections.sort is stable: the articles of any one name keep their relative order |
| ArticleLists.SortByNameIdempotent | app/src/main/java/be/oreel/masi/shoppinglist/activity/ArticleActivity.java:595-602 | sorting by name twice is sorting once |
| ArticleLists.Joined | app/src/main/java/be/oreel/masi/shoppinglist/activity/ArticleActivity.java:566-577 | the copied text is empty exactly when there are no lines |
| ArticleLists.Chosen | app/src/main/java/be/oreel/masi/shoppinglist/activity/ArticleActivity.java:566-577 | with a selection, the copied articles carry exactly the selected ids in selection order; without one, they are the whole list |
| ArticleLists.SplitJoined | app/src/main/java/be/oreel/masi/shoppinglist/activity/ArticleActivity.java:570 | lines without line breaks are read back by cutting their join at the breaks |
| ArticleLists.TextOneLine | app/src/main/java/be/oreel/masi/shoppinglist/model/Article.java:20-22 | an article whose name has no line break has a toString without one |
| ArticleLists.ClipboardTextLines | app/src/main/java/be/oreel/masi/shoppinglist/activity/ArticleActivity.java:561-577 | the copied text reads back, line by line, as the toString of each copied article |
| ArticleLists.ArticlesToString | app/src/main/java/be/oreel/masi/shoppinglist/adapter/ArticleAdapter.java:219-232 | getArticlesToString returns the clipboard text of the selection, or of the whole list |
| ArticleLists.SelectedText | app/src/main/java/be/oreel/masi/shoppinglist/adapter/ArticleAdapter.java:222-225 | the loop over the selected holders builds the text of WithIds(list, selection) |
| ArticleLists.AllText | app/src/main/java/be/oreel/masi/shoppinglist/adapter/ArticleAdapter.java:226-229 | the loop over the whole list builds the text of the list |
| ArticleLists.SelectedPositions | app/src/main/java/be/oreel/masi/shoppinglist/adapter/ArticleAdapter.java:253-259 | one position per selected holder, each holding the selected article, without repeats |
| ArticleLists.SavePositionsOf | app/src/main/java/be/oreel/masi/shoppinglist/adapter/ArticleAdapter.java:237-247 | the list is renumbered and each article is written back in list order |
| ArticleLists.FlippedWhere | app/src/main/java/be/oreel/masi/shoppinglist/activity/ArticleActivity.java:541-559 | flipping strikethrough keeps the ids and their order |
| ArticleLists.FlippedWhereTwice | app/src/main/java/be/oreel/masi/shoppinglist/activity/ArticleActivity.java:541-559 | toggling strikethrough twice on the same selection gives back the list |
| ArticleLists.ToggleStrikethroughOf | app/src/main/java/be/oreel/masi/shoppinglist/adapter/ArticleAdapter.java:146-162 | exactly the selected articles are flipped, and the flipped articles are written back in selection order |
| ArticleLists.ToggleStep | app/src/main/java/be/oreel/masi/shoppinglist/adapter/ArticleAdapter.java:147-161 | one turn of the loop extends both the flipped list and the values written so far |
| Activity.WithoutIds | app/src/main/java/be/oreel/masi/shoppinglist/activity/ArticleActivity.java:457-470 | filtering a list by a set of ids keeps exactly the ids outside the set, and only articles of the list |
| Activity.ArticleActivity.constructor | app/src/main/java/be/oreel/masi/shoppinglist/activity/ArticleActivity.java:60-93 | onCreate: nothing selected, NORMAL mode, and the list is Loaded from the table: the shop's rows once each, in non-decreasing stored priority, renumbered 0..n-1 |
| Activity.ArticleActivity.OnMove | app/src/main/java/be/oreel/masi/shoppinglist/activity/ArticleActivity.java:134-149 | the swap loops carry the article at fromPosition to toPosition (Moved); the list still mirrors the table |
| Activity.ArticleActivity.OnSwiped | app/src/main/java/be/oreel/masi/shoppinglist/activity/ArticleActivity.java:152-157 | the swiped article leaves the list and the table, the undo captures it and its position, and the screen is in NORMAL mode with nothing selected |
| Activity.ArticleActivity.Append | app/src/main/java/be/oreel/masi/shoppinglist/activity/ArticleActivity.java:332-348 | a row is inserted for the values and the article read back is appended; the list still mirrors the table |
| Activity.ArticleActivity.AddArticle | app/src/main/java/be/oreel/masi/shoppinglist/activity/ArticleActivity.java:332-337 | a new article, not struck through, with the list size as priority, is stored under the next id, which advances by one, and appended |
| Activity.ArticleActivity.AddDeletedArticle | app/src/main/java/be/oreel/masi/shoppinglist/activity/ArticleActivity.java:343-348 | a copy of the removed article is stored under the next id, which advances by one, and appended |
| Activity.ArticleActivity.Drop | app/src/main/java/be/oreel/masi/shoppinglist/activity/ArticleActivity.java:428-434 | the article at the position leaves both the list and the table |
| Activity.ArticleActivity.Edit | app/src/main/java/be/oreel/masi/shoppinglist/activity/ArticleActivity.java:362-368 | the article at the position is replaced in the list and its row is rewritten |
| Activity.ArticleActivity.UpdateArticle | app/src/main/java/be/oreel/masi/shoppinglist/activity/ArticleActivity.java:362-368 | the article gets the new name and amount in the list; updateArticle rewrites its whole row from the list article (name, clamped amount, measure, flag and the in-memory priority); no other row changes |
| Activity.ArticleActivity.UpdateArticleName | app/src/main/java/be/oreel/masi/shoppinglist/activity/ArticleActivity.java:375-380 | the article gets the new name in the list; its whole row is rewritten from the list article, priority included; no other row changes |
| Activity.ArticleActivity.UpdateArticleAmount | app/src/main/java/be/oreel/masi/shoppinglist/activity/ArticleActivity.java:387-392 | the article gets the new amount in the list; its whole row is rewritten from the list article, with the amount clamped; no other row changes |
| Activity.ArticleActivity.RemoveSelectedArticleAsWritten | app/src/main/java/be/oreel/masi/shoppinglist/activity/ArticleActivity.java:744-747 | as written, the remove-article action deletes the first selected article's row, removes it from the list and captures its undo, but leaves its id selected: the screen invariant no longer holds |
| Activity.ArticleActivity.RemoveArticles | app/src/main/java/be/oreel/masi/shoppinglist/activity/ArticleActivity.java:451-488 | with a selection, exactly the selected articles leave the list and the table and are backed up in selection order; without one, the list is cleared and exactly the shop's rows are deleted |
| Activity.ArticleActivity.RemoveSelected | app/src/main/java/be/oreel/masi/shoppinglist/activity/ArticleActivity.java:457-470 | the loop removes the selected articles one by one at their current positions; the result is the list filtered by the selected ids |
| Activity.ArticleActivity.UndoRemove | app/src/main/java/be/oreel/masi/shoppinglist/activity/ArticleActivity.java:499-507 | a copy of the removed article goes back into the table under the next id, which advances by one, and into the list at its old position |
| Activity.ArticleActivity.UndoRemoveAll | app/src/main/java/be/oreel/masi/shoppinglist/activity/ArticleActivity.java:513-517 | each backed-up article is appended as a copy, in backup order, and the table becomes the old table with the copies stored under consecutive new ids |
| Activity.ArticleActivity.AppendCopies | app/src/main/java/be/oreel/masi/shoppinglist/activity/ArticleActivity.java:513-517 | the loop over the backup: the list gains Copies of the backup and the table becomes Restored |
| Activity.Restored | app/src/main/java/be/oreel/masi/shoppinglist/activity/ArticleActivity.java:513-517 | the table after the undo holds exactly the old ids and the new consecutive ids |
| Activity.RestoredRows | app/src/main/java/be/oreel/masi/shoppinglist/activity/ArticleActivity.java:513-517 | each new id holds its backed-up article's row, and every old row is unchanged |
| Activity.ArticleActivity.SavePositions | app/src/main/java/be/oreel/masi/shoppinglist/activity/ArticleActivity.java:526-536 | each priority becomes the article's position and is written back, so the table orders the shop as the list shows it |
| Activity.ArticleActivity.ToggleStrikethrough | app/src/main/java/be/oreel/masi/shoppinglist/activity/ArticleActivity.java:541-559 | exactly the selected articles are flipped in the list and written back in selection order |
| Activity.ArticleActivity.CopyArticlesToClipboard | app/src/main/java/be/oreel/masi/shoppinglist/activity/ArticleActivity.java:561-590 | the clipboard gets the text of the selected articles in selection order, or of all of them |
| Activity.ArticleActivity.SortArticlesByName | app/src/main/java/be/oreel/masi/shoppinglist/activity/ArticleActivity.java:595-602 | the list is sorted by name (a permutation) and still mirrors the table, which is not written |
| Activity.ArticleActivity.StartActionMode | app/src/main/java/be/oreel/masi/shoppinglist/activity/ArticleActivity.java:616-627 | in NORMAL mode, the pressed article becomes the only selected one and the mode is DETAIL; otherwise nothing changes |
| Activity.ArticleActivity.ToggleSelection | app/src/main/java/be/oreel/masi/shoppinglist/activity/ArticleActivity.java:634-660 | outside NORMAL mode the holder is toggled and the mode follows the new selection size; in NORMAL mode nothing changes |
| Activity.ArticleActivity.ClearSelections | app/src/main/java/be/oreel/masi/shoppinglist/activity/ArticleActivity.java:665-674 | no holder is marked and the selection is empty |
| Activity.ArticleActivity.ShowNormalToolbar | app/src/main/java/be/oreel/masi/shoppinglist/activity/ArticleActivity.java:803-808 | NORMAL mode with the selection cleared; a list that mirrors the table leaves the screen invariant holding |
| Activity.ArticleActivity.ShowActionModeToolbar | app/src/main/java/be/oreel/masi/shoppinglist/activity/ArticleActivity.java:814-818 | DETAIL mode |
| Activity.ArticleActivity.ShowMultipleModeToolbar | app/src/main/java/be/oreel/masi/shoppinglist/activity/ArticleActivity.java:824-828 | MULTIPLE mode |
| Activity.ArticleActivity.OnBackPressed | app/src/main/java/be/oreel/masi/shoppinglist/activity/ArticleActivity.java:685-696 | a selection mode is left for NORMAL with nothing selected; in NORMAL mode the state is unchanged |
| Activity.ArticleActivity.OnOptionsItemSelected | app/src/main/java/be/oreel/masi/shoppinglist/activity/ArticleActivity.java:716-773 | each item's effect on the list, the table, the undo action and the clipboard (the removals delete their rows, strikethrough writes the flipped rows, every other item leaves the table alone, only copy writes the clipboard), then the reset: NORMAL mode with nothing selected for every item, the remove-article item included |
| Activity.ArticleActivity.PerformAction | app/src/main/java/be/oreel/masi/shoppinglist/activity/ArticleActivity.java:723-764 | the switch: each item's effect on the list, the table, the undo action and the clipboard, with the selection untouched except by Home |
| Activity.ListsInsert | app/src/main/java/be/oreel/masi/shoppinglist/activity/ArticleActivity.java:499-507 | a new article of the shop, stored under a fresh id, may enter the list anywhere and the list still mirrors the table |
| Activity.ListsRemove | app/src/main/java/be/oreel/masi/shoppinglist/activity/ArticleActivity.java:428-434 | removing an article from the list and its row from the table keeps the two mirrored |
| Activity.RemoveThenUndo | app/src/main/java/be/oreel/masi/shoppinglist/activity/ArticleActivity.java:428-446 | removing an article and undoing it gives the list back, with a copy under the new id at the same position |
| Activity.ListsShopIds | app/src/main/java/be/oreel/masi/shoppinglist/activity/ArticleActivity.java:471-476 | when the list mirrors the table, the shop's rows are exactly the listed ids, so deleteAllArticles deletes exactly the listed rows |
| Activity.ListsPermutation | app/src/main/java/be/oreel/masi/shoppinglist/activity/ArticleActivity.java:595-602 | any reordering of a mirroring list still mirrors the table |
| Activity.SavedRows | app/src/main/java/be/oreel/masi/shoppinglist/activity/ArticleActivity.java:526-536 | after savePositions the table holds priority k for the article at position k, and the list still mirrors the table |
| Activity.FlippedRows | app/src/main/java/be/oreel/masi/shoppinglist/activity/ArticleActivity.java:541-559 | after toggleStrikethrough the list still mirrors the table |
| Activity.RemoveNext | app/src/main/java/be/oreel/masi/shoppinglist/activity/ArticleActivity.java:462-469 | one turn of the removal loop: the next selected article is still listed and removing it filters out exactly its id |
| Activity.ListsWithout | app/src/main/java/be/oreel/masi/shoppinglist/activity/ArticleActivity.java:457-470 | removing the articles of a set of ids from the list and their rows from the table keeps the two mirrored |
| Activity.WithoutUnique | app/src/main/java/be/oreel/masi/shoppinglist/activity/ArticleActivity.java:457-470 | filtering keeps ids unique |
| Activity.RemoveFromWithout | app/src/main/java/be/oreel/masi/shoppinglist/activity/ArticleActivity.java:466 | taking the article with id x out of a filtered list is filtering x out as well |
| Activity.SaveThenLoad | app/src/main/java/be/oreel/masi/shoppinglist/activity/ArticleActivity.java:526-536 | after savePositions, loading the shop again gives the list back in the order it was shown, each article with priority k and its amount clamped |
| Activity.SameOrder | app/src/main/java/be/oreel/masi/shoppinglist/db/ArticleDataSource.java:159-162 | a loaded list sorted by stored priority, where the article at k of the saved list has priority k, lists the ids in the saved order |
| Adapter.ArticleAdapter.constructor | app/src/main/java/be/oreel/masi/shoppinglist/adapter/ArticleAdapter.java:46-50 | the adapter holds the list and an empty selection |
| Adapter.ArticleAdapter.ToggleSelection | app/src/main/java/be/oreel/masi/shoppinglist/adapter/ArticleAdapter.java:182-204 | the holder is toggled and the manager's mode becomes the one of the new selection size |
| Adapter.ArticleAdapter.OnLongClick | app/src/main/java/be/oreel/masi/shoppinglist/adapter/ArticleAdapter.java:112-120 | a long click toggles the holder only in NORMAL mode |
| Adapter.ArticleAdapter.OnClick | app/src/main/java/be/oreel/masi/shoppinglist/adapter/ArticleAdapter.java:121-128 | a click toggles the holder only outside NORMAL mode |
| Adapter.ArticleAdapter.ClearSelections | app/src/main/java/be/oreel/masi/shoppinglist/adapter/ArticleAdapter.java:171-176 | no holder is marked and the selection is empty; the mode is left alone |
| Adapter.ArticleAdapter.SortArticlesByName | app/src/main/java/be/oreel/masi/shoppinglist/adapter/ArticleAdapter.java:209-216 | the dataset is sorted by name and keeps unique ids |
| Adapter.ArticleAdapter.GetArticlesToString | app/src/main/java/be/oreel/masi/shoppinglist/adapter/ArticleAdapter.java:219-232 | the clipboard text of the selection or of the whole dataset; with no selection it is empty exactly when the dataset is |
| Adapter.ArticleAdapter.SavePositions | app/src/main/java/be/oreel/masi/shoppinglist/adapter/ArticleAdapter.java:237-247 | the dataset is renumbered, keeps its ids, and each article is written back in order |
| Adapter.ArticleAdapter.ToggleStrikethrough | app/src/main/java/be/oreel/masi/shoppinglist/adapter/ArticleAdapter.java:146-162 | exactly the selected articles are flipped and written back in selection order |
| Adapter.ArticleAdapter.HasSelectedItems | app/src/main/java/be/oreel/masi/shoppinglist/adapter/ArticleAdapter.java:249-251 | true exactly when some holder is marked selected |
| Adapter.ArticleAdapter.GetSelectedPositions | app/src/main/java/be/oreel/masi/shoppinglist/adapter/ArticleAdapter.java:253-259 | one position per selected holder, each holding its article, without repeats |
| Adapter.ArticleAdapter.GetSelectedItemPosition | app/src/main/java/be/oreel/masi/shoppinglist/adapter/ArticleAdapter.java:164-166 | the position of the first selected holder's article |

## Left out

- Views, paint flags, snackbars, dialogs, menus, toolbar inflation, notify* calls and transitions are left out. The menu's edit items open dialogs. The dialogs end in the update helpers, which are modelled (`UpdateArticle`, `UpdateArticleName`, `UpdateArticleAmount`).
- The clipboard service is a string field of the screen. The database is maps in memory. Opening and closing the database is left out.
- Android lifecycle is left out: `onResume`, `onPause` (which calls `savePositions`), `leaveApp`, and `super.onBackPressed` in NORMAL mode. The drag callback's `moved` flag and `onSelectedChanged` are left out too.
- The screen and the adapter share one `List<Article>` object in the app. The model gives each class its own sequence of article values. Aliasing between them, and between article objects in several lists, is not modelled. The in-place mutation of the objects is modelled only by the `Article` class's setters and `SwapPriority`.
- The article row is put together from three files, which disagree. `ArticleDBHelper.java:28-36` is the helper `ArticleDataSource.java` opens: its rows name their shop by its name, and its only check is strikethrough in (0, 1); its amount column is TEXT and it has no measure column. `DBHelper.java:41-45` declares the amount as an INTEGER with CHECK(amount > 0) and a measure column, but keys articles by shop id. `ArticleDataSource.java` writes an int amount (clamped to at least 1) and a measure into columns of `ArticleDBHelper`. The model takes the shop by name from `ArticleDBHelper.java`, and the int amount, its positive check and the optional measure from `DBHelper.java` and `ArticleDataSource.java`. `model/Article.java` declares the amount as a `String` and has no measure. The screen always passes no measure to `createArticle`.
- The `ArticleManager` interface declares only `startActionMode` and `toggleSelection`. The adapter also calls `getToolbarMode`, `setToolbarMode` and `updateArticle` on it. The model gives the adapter the manager's mode as a field and the article table as a constant.
- `getAllArticles` reads rows in an order SQL leaves open, so the model picks the next row nondeterministically. Its renumbering of priorities stays in memory and is not written to the table.
- `removeArticles` removes the selected articles in selection order, each at its current position, as the code does.
- Activity.ArticleActivity.UndoRemove: requires `position <= |articles|`. The app would throw when the list shrank below that position before the undo was tapped. It also requires the article to belong to the screen's shop. Every article the removal handlers capture does.
- Activity.ArticleActivity.UpdateArticleAmount: keeps the new amount in the list unclamped, as the update helpers do. The table stores it clamped, so list and table can differ in the amount of an edited article until the screen is reloaded.
- Activity.ArticleActivity.OnOptionsItemSelected: requires a non-empty selection for the remove-article and edit items, which read the first selected holder. Those items are only shown in DETAIL mode.
- Adapter.ArticleAdapter.GetSelectedItemPosition: requires a non-empty selection, so the empty case, where `selectedItems.get(0)` throws, is not modelled. Nothing in the app calls this method.
- Activity.Without: its own contract states only the length bound. The ids it keeps are stated by `Activity.WithoutIds`.
- ShopStore.GetOrCreate: with several rows of the same name, which row comes first is left to the cursor. Unique names rule this out.
- ArticleLists.CompareStrings: a Dafny string holds Unicode scalar values, so the UTF-16 encoding is always well formed. A Java string may also hold an unpaired surrogate, and names with one are not modelled.
- `model/ToolbarMode.java` is not part of this model. Its three values are taken from their uses.
- Integers are unbounded. Row ids are `long` and positions are `int` in the app, and their overflow is not modelled.

## Findings

| source | as written | input that shows it | evidently intended | confidence | as-written member | corrected member |
|---|---|---|---|---|---|---|
| app/src/main/java/be/oreel/masi/shoppinglist/activity/ArticleActivity.java:744-747 | the remove-article case returns `true` straight away, so the reset to NORMAL mode at lines 766-770 never runs | DETAIL mode with one article selected; choose "remove article": the article is gone, but its holder stays in `selectedItems` and the mode stays DETAIL | like every other item, leave the selection mode after the action, so nothing stays selected and the mode is NORMAL | not executed | Activity.ArticleActivity.RemoveSelectedArticleAsWritten | Activity.ArticleActivity.OnOptionsItemSelected |
