/**
 * The article table and its data-access object (db/ArticleDataSource.java).
 * The table is a map from row id to row; ids come from an autoincrement
 * counter. Rows name their shop by its name, as the article table's schema does.
 */
module ArticleStore {
  import opened ListOps
  import opened Articles

  /** One stored row; strikethrough is stored as the integer 0 or 1. */
  datatype Row = Row(
    shop: string,
    name: string,
    amount: int,
    measure: Option<string>,
    strikethrough: int,
    priority: int)

  type Table = map<int, Row>

  /** The amount written on every insert and update: the given one when positive, 1 otherwise. */
  function ClampAmount(amount: int): (r: int)
    ensures r >= 1 && r >= amount
    ensures r == amount || r == 1
  {
    if amount > 0 then amount else 1
  }

  /** How a strikethrough flag is stored. */
  function FlagCode(strikethrough: bool): (v: int)
    ensures v == 0 || v == 1
    ensures FlagOf(v) == strikethrough
  {
    if strikethrough then 1 else 0
  }

  /** How a stored strikethrough code is read back: 1 is set, anything else is not. */
  function FlagOf(v: int): bool
  {
    v == 1
  }

  /** The table's CHECK constraints: amount > 0 and strikethrough IN (0, 1). */
  ghost predicate Constrained(rows: Table)
  {
    forall id :: id in rows ==> rows[id].amount > 0 && (rows[id].strikethrough == 0 || rows[id].strikethrough == 1)
  }

  /** The row an insert writes for these values. */
  function RowFor(shop: string, name: string, amount: int, measure: Option<string>,
                  strikethrough: bool, priority: int): (row: Row)
    ensures row.amount > 0 && (row.strikethrough == 0 || row.strikethrough == 1)
    ensures forall id :: Decode(id, row) == ArticleData(id, shop, name, ClampAmount(amount), measure, strikethrough, priority)
  {
    Row(shop, name, ClampAmount(amount), measure, FlagCode(strikethrough), priority)
  }

  /** cursorToArticle: the article value read from a row. */
  function Decode(id: int, row: Row): (d: ArticleData)
    ensures d.id == id && d.shop == row.shop && d.name == row.name && d.priority == row.priority
    ensures row.amount > 0 ==> ClampAmount(d.amount) == row.amount
    ensures row.strikethrough == 0 || row.strikethrough == 1 ==> FlagCode(d.strikethrough) == row.strikethrough
  {
    ArticleData(id, row.shop, row.name, row.amount, row.measure, FlagOf(row.strikethrough), row.priority)
  }

  /** The ids of the rows of one shop. */
  function ShopIds(rows: Table, shop: string): (ids: set<int>)
    ensures forall id :: id in ids <==> id in rows && rows[id].shop == shop
  {
    set id | id in rows && rows[id].shop == shop
  }

  /** The row updateArticle writes for the values `d` over a row of shop `shop`. */
  function RowOf(shop: string, d: ArticleData): (row: Row)
    ensures row.amount > 0 && (row.strikethrough == 0 || row.strikethrough == 1)
    ensures Decode(d.id, row) == d.(shop := shop, amount := ClampAmount(d.amount))
  {
    RowFor(shop, d.name, d.amount, d.measure, d.strikethrough, d.priority)
  }

  /** A row that meets the CHECK constraints is written back unchanged from the article read from it. */
  lemma DecodeRoundTrip(id: int, row: Row)
    requires row.amount > 0 && (row.strikethrough == 0 || row.strikethrough == 1)
    ensures RowOf(row.shop, Decode(id, row)) == row
  {
  }

  /**
   * The table after updateArticle with the values `d`: the row with that id,
   * if any, gets the new name, clamped amount, measure, strikethrough and
   * priority; its shop and every other row stay as they were.
   */
  function Updated(rows: Table, d: ArticleData): Table
  {
    if d.id in rows then rows[d.id := RowOf(rows[d.id].shop, d)] else rows
  }

  /** What one update writes, and what it leaves alone. */
  lemma UpdatedRows(rows: Table, d: ArticleData)
    ensures Updated(rows, d).Keys == rows.Keys
    ensures forall id :: id in rows ==> Updated(rows, d)[id].shop == rows[id].shop
    ensures forall id :: id in rows && id != d.id ==> Updated(rows, d)[id] == rows[id]
    ensures d.id in rows ==> Updated(rows, d)[d.id] == RowOf(rows[d.id].shop, d)
    ensures Constrained(rows) ==> Constrained(Updated(rows, d))
  {
  }

  /** The table after updateArticle with each of the values `ds`, in order. */
  function UpdatedAll(rows: Table, ds: seq<ArticleData>): Table
  {
    if ds == [] then rows else Updated(UpdatedAll(rows, ds[..|ds| - 1]), ds[|ds| - 1])
  }

  /** Updating with one more value applies that update last. */
  lemma UpdatedAllSnoc(rows: Table, ds: seq<ArticleData>, d: ArticleData)
    ensures UpdatedAll(rows, ds + [d]) == Updated(UpdatedAll(rows, ds), d)
  {
    assert (ds + [d])[..|ds|] == ds;
  }

  /** Updates never add or drop a row, never move a row to another shop, and keep the table's constraints. */
  lemma {:induction false} UpdatedAllKeeps(rows: Table, ds: seq<ArticleData>)
    ensures UpdatedAll(rows, ds).Keys == rows.Keys
    ensures forall id :: id in rows ==> UpdatedAll(rows, ds)[id].shop == rows[id].shop
    ensures Constrained(rows) ==> Constrained(UpdatedAll(rows, ds))
    decreases |ds|
  {
    if ds != [] {
      UpdatedAllKeeps(rows, ds[..|ds| - 1]);
      UpdatedRows(UpdatedAll(rows, ds[..|ds| - 1]), ds[|ds| - 1]);
    }
  }

  /**
   * Updating with values of distinct ids writes each listed row from its own
   * values, under the shop it already had, and leaves every other row alone.
   */
  lemma {:induction false} UpdatedAllRows(rows: Table, ds: seq<ArticleData>)
    requires forall i, j :: 0 <= i < j < |ds| ==> ds[i].id != ds[j].id
    ensures UpdatedAll(rows, ds).Keys == rows.Keys
    ensures forall id :: id in rows && (forall k :: 0 <= k < |ds| ==> ds[k].id != id) ==>
              UpdatedAll(rows, ds)[id] == rows[id]
    ensures forall k :: 0 <= k < |ds| && ds[k].id in rows ==>
              UpdatedAll(rows, ds)[ds[k].id] == RowOf(rows[ds[k].id].shop, ds[k])
    decreases |ds|
  {
    UpdatedAllKeeps(rows, ds);
    if ds != [] {
      var init, last := ds[..|ds| - 1], ds[|ds| - 1];
      UpdatedAllRows(rows, init);
      UpdatedAllKeeps(rows, init);
      var r := UpdatedAll(rows, init);
      UpdatedRows(r, last);
      forall k | 0 <= k < |ds| && ds[k].id in rows
        ensures UpdatedAll(rows, ds)[ds[k].id] == RowOf(rows[ds[k].id].shop, ds[k])
      {
        if k < |init| {
          assert init[k] == ds[k];
        }
      }
    }
  }

  /** Updates leave the set of each shop's rows as it was. */
  lemma UpdatedAllShopIds(rows: Table, ds: seq<ArticleData>, shop: string)
    ensures ShopIds(UpdatedAll(rows, ds), shop) == ShopIds(rows, shop)
  {
    UpdatedAllKeeps(rows, ds);
    var after := UpdatedAll(rows, ds);
    forall id
      ensures id in ShopIds(after, shop) <==> id in ShopIds(rows, shop)
    {
      if id in rows {
        assert after[id].shop == rows[id].shop;
      }
    }
  }

  /** The table after deleteAllArticles(shop): exactly that shop's rows are gone. */
  function WithoutShop(rows: Table, shop: string): (r: Table)
    ensures r.Keys == rows.Keys - ShopIds(rows, shop)
    ensures forall k :: k in r ==> r[k] == rows[k]
    ensures Constrained(rows) ==> Constrained(r)
  {
    map id | id in rows && rows[id].shop != shop :: rows[id]
  }

  // ---------------------------------------------------------------------------
  // Collections.sort(articles) under compareTo
  // ---------------------------------------------------------------------------

  /** Sorted as compareTo orders articles: by priority. */
  predicate SortedByPriority(s: seq<ArticleData>)
  {
    forall j, k :: 0 <= j < k < |s| ==> CompareTo(s[j], s[k]) <= 0
  }

  /** Inserts `x` after every article of `s` that compareTo does not place after it. */
  function InsertByPriority(x: ArticleData, s: seq<ArticleData>): (r: seq<ArticleData>)
    requires SortedByPriority(s)
    ensures |r| == |s| + 1 && (r[0] == x || (s != [] && r[0] == s[0]))
    ensures forall a :: a in r ==> a == x || a in s
    ensures SortedByPriority(r)
  {
    if s == [] then [x]
    else if CompareTo(s[0], x) <= 0 then [s[0]] + InsertByPriority(x, s[1..])
    else [x] + s
  }

  /** Collections.sort by compareTo: each article, in list order, goes after those of no greater priority. */
  function SortByPriority(s: seq<ArticleData>): (r: seq<ArticleData>)
    ensures forall a :: a in r ==> a in s
    ensures SortedByPriority(r)
  {
    if s == [] then []
    else InsertByPriority(s[|s| - 1], SortByPriority(s[..|s| - 1]))
  }

  lemma {:induction false} InsertByPriorityPermutes(x: ArticleData, s: seq<ArticleData>)
    requires SortedByPriority(s)
    ensures multiset(InsertByPriority(x, s)) == multiset(s) + multiset{x}
  {
    if s != [] && CompareTo(s[0], x) <= 0 {
      InsertByPriorityPermutes(x, s[1..]);
      assert s == [s[0]] + s[1..];
    }
  }

  /** Sorting only reorders. */
  lemma {:induction false} SortByPriorityPermutes(s: seq<ArticleData>)
    ensures multiset(SortByPriority(s)) == multiset(s)
  {
    if s != [] {
      var init, last := s[..|s| - 1], s[|s| - 1];
      SortByPriorityPermutes(init);
      InsertByPriorityPermutes(last, SortByPriority(init));
      assert s == init + [last];
    }
  }

  /** Reordering a list keeps its length and which ids it holds. */
  lemma PermutationKeepsIds(s: seq<ArticleData>, t: seq<ArticleData>)
    requires multiset(s) == multiset(t)
    ensures |s| == |t|
    ensures forall id :: id in Ids(s) <==> id in Ids(t)
  {
    assert |multiset(s)| == |multiset(t)|;
    forall id | id in Ids(s)
      ensures id in Ids(t)
    {
      var k :| 0 <= k < |s| && Ids(s)[k] == id;
      assert s[k] in multiset(t);
      var j :| 0 <= j < |t| && t[j] == s[k];
      assert Ids(t)[j] == id;
    }
    forall id | id in Ids(t)
      ensures id in Ids(s)
    {
      var k :| 0 <= k < |t| && Ids(t)[k] == id;
      assert t[k] in multiset(s);
      var j :| 0 <= j < |s| && s[j] == t[k];
      assert Ids(s)[j] == id;
    }
  }

  /** Article ids stay unique under any reordering. */
  lemma UniqueIdsPermutation(s: seq<ArticleData>, t: seq<ArticleData>)
    requires multiset(s) == multiset(t) && UniqueIds(s)
    ensures UniqueIds(t)
  {
    forall i, j | 0 <= i < j < |t|
      ensures t[i].id != t[j].id
    {
      assert t[i] in multiset(s) && t[j] in multiset(s);
      var a :| 0 <= a < |s| && s[a] == t[i];
      var b :| 0 <= b < |s| && s[b] == t[j];
      if a == b {
        assert Distinct(s) by {
          forall x, y | 0 <= x < y < |s| ensures s[x] != s[y] {
            assert Ids(s)[x] != Ids(s)[y];
          }
        }
        DistinctPermutation(s, t);
      } else {
        assert Ids(s)[a] != Ids(s)[b];
      }
    }
    assert forall k :: 0 <= k < |t| ==> Ids(t)[k] == t[k].id;
  }

  /** Each article of the list is the row with its id, read back. */
  predicate HoldsRows(s: seq<ArticleData>, rows: Table)
  {
    forall k :: 0 <= k < |s| ==> s[k].id in rows && s[k] == Decode(s[k].id, rows[s[k].id])
  }

  /** Reordering a list of articles that hold their rows gives such a list again. */
  lemma PermutationHoldsRows(s: seq<ArticleData>, t: seq<ArticleData>, rows: Table)
    requires multiset(s) == multiset(t) && HoldsRows(s, rows)
    ensures HoldsRows(t, rows)
  {
    forall k | 0 <= k < |t|
      ensures t[k].id in rows && t[k] == Decode(t[k].id, rows[t[k].id])
    {
      assert t[k] in multiset(s);
      var j :| 0 <= j < |s| && s[j] == t[k];
    }
  }

  // ---------------------------------------------------------------------------
  // The data-access object
  // ---------------------------------------------------------------------------

  class ArticleDataSource {
    var rows: Table
    var nextId: int

    ghost predicate Valid()
      reads this
    {
      Constrained(rows) && 1 <= nextId && forall id :: id in rows ==> id < nextId
    }

    /** An empty table whose autoincrement counter starts at 1. */
    constructor ()
      ensures Valid() && rows == map[]
    {
      rows := map[];
      nextId := 1;
    }

    /**
     * createArticle: inserts one row under a fresh id, clamping the amount,
     * and returns the article read back from that row.
     */
    method CreateArticle(shop: string, name: string, amount: int, measure: Option<string>,
                         strikethrough: bool, priority: int) returns (article: ArticleData)
      requires Valid()
      modifies this`rows, this`nextId
      ensures Valid()
      ensures article.id == old(nextId) && article.id !in old(rows) && nextId == old(nextId) + 1
      ensures rows == old(rows)[article.id := RowFor(shop, name, amount, measure, strikethrough, priority)]
      ensures article == ArticleData(article.id, shop, name, ClampAmount(amount), measure, strikethrough, priority)
      ensures article == Decode(article.id, rows[article.id])
    {
      var insertId := nextId;
      rows := rows[insertId := RowFor(shop, name, amount, measure, strikethrough, priority)];
      nextId := nextId + 1;
      article := Decode(insertId, rows[insertId]);
    }

    /** updateArticle: rewrites the mutable columns of the row with the article's id. */
    method UpdateArticle(article: ArticleData)
      requires Valid()
      modifies this`rows
      ensures Valid()
      ensures rows == Updated(old(rows), article)
    {
      UpdatedRows(rows, article);
      rows := Updated(rows, article);
    }

    /** deleteArticle: removes the row with the article's id; nothing happens if there is none. */
    method DeleteArticle(article: ArticleData)
      requires Valid()
      modifies this`rows
      ensures Valid()
      ensures rows == old(rows) - {article.id}
    {
      rows := rows - {article.id};
    }

    /** deleteAllArticles: removes every row of the shop and no other. */
    method DeleteAllArticles(shop: string)
      requires Valid()
      modifies this`rows
      ensures Valid()
      ensures rows == WithoutShop(old(rows), shop)
    {
      rows := WithoutShop(rows, shop);
    }

    /**
     * The query behind getAllArticles: the shop's rows read back, in the
     * order the cursor visits them, which SQL leaves open.
     */
    method QueryShop(shop: string) returns (fetched: seq<ArticleData>)
      ensures UniqueIds(fetched) && |fetched| == |ShopIds(rows, shop)|
      ensures forall id :: id in ShopIds(rows, shop) <==> id in Ids(fetched)
      ensures HoldsRows(fetched, rows)
    {
      var all := ShopIds(rows, shop);
      var remaining := all;
      fetched := [];
      while remaining != {}
        invariant remaining <= all
        invariant |fetched| + |remaining| == |all|
        invariant UniqueIds(fetched)
        invariant forall k :: 0 <= k < |fetched| ==> fetched[k].id in all && fetched[k].id !in remaining
        invariant HoldsRows(fetched, rows)
        decreases remaining
      {
        var rowId := AnyMember(remaining);
        ghost var before := fetched;
        fetched := fetched + [Decode(rowId, rows[rowId])];
        assert Ids(fetched) == Ids(before) + [rowId];
        remaining := remaining - {rowId};
      }
      DistinctCovers(Ids(fetched), all);
    }

    /**
     * getAllArticles: the shop's rows sorted by stored priority and then
     * renumbered 0..n-1 in memory only; the table is not written.
     */
    method GetAllArticles(shop: string) returns (articles: seq<ArticleData>)
      ensures Loaded(articles, rows, shop)
      ensures UniqueIds(articles) && |articles| == |ShopIds(rows, shop)|
      ensures forall id :: id in ShopIds(rows, shop) <==> id in Ids(articles)
      ensures forall k :: 0 <= k < |articles| ==> articles[k].id in rows
      ensures forall k :: 0 <= k < |articles| ==>
                articles[k] == Decode(articles[k].id, rows[articles[k].id]).(priority := k)
      ensures forall j, k :: 0 <= j < k < |articles| ==>
                rows[articles[j].id].priority <= rows[articles[k].id].priority
    {
      var fetched := QueryShop(shop);
      var sorted := SortByPriority(fetched);
      SortedRows(fetched, sorted, rows);
      articles := Renumber(sorted);
      RenumberedRows(sorted, rows);
    }
  }

  /**
   * What getAllArticles gives back for `shop` from the table `rows`: each of
   * the shop's rows once, in non-decreasing stored priority, with the
   * priorities renumbered 0..n-1.
   */
  ghost predicate Loaded(articles: seq<ArticleData>, rows: Table, shop: string)
  {
    UniqueIds(articles) && |articles| == |ShopIds(rows, shop)| &&
    (forall id :: id in ShopIds(rows, shop) <==> id in Ids(articles)) &&
    (forall k :: 0 <= k < |articles| ==>
       articles[k].id in rows && articles[k] == Decode(articles[k].id, rows[articles[k].id]).(priority := k)) &&
    (forall j, k :: 0 <= j < k < |articles| ==> rows[articles[j].id].priority <= rows[articles[k].id].priority)
  }

  /** The sorted query result holds the same rows, now in order of stored priority. */
  lemma SortedRows(fetched: seq<ArticleData>, sorted: seq<ArticleData>, rows: Table)
    requires UniqueIds(fetched) && HoldsRows(fetched, rows)
    requires sorted == SortByPriority(fetched)
    ensures UniqueIds(sorted) && HoldsRows(sorted, rows) && |sorted| == |fetched|
    ensures forall id :: id in Ids(fetched) <==> id in Ids(sorted)
    ensures forall j, k :: 0 <= j < k < |sorted| ==>
              rows[sorted[j].id].priority <= rows[sorted[k].id].priority
  {
    SortByPriorityPermutes(fetched);
    PermutationKeepsIds(fetched, sorted);
    PermutationHoldsRows(fetched, sorted, rows);
    UniqueIdsPermutation(fetched, sorted);
    forall j, k | 0 <= j < k < |sorted|
      ensures rows[sorted[j].id].priority <= rows[sorted[k].id].priority
    {
      assert CompareTo(sorted[j], sorted[k]) <= 0;
    }
  }

  /** Renumbering keeps each article's id and everything else it read from its row. */
  lemma RenumberedRows(s: seq<ArticleData>, rows: Table)
    requires HoldsRows(s, rows)
    ensures Ids(Renumbered(s)) == Ids(s)
    ensures forall k :: 0 <= k < |s| ==>
              Renumbered(s)[k] == Decode(s[k].id, rows[s[k].id]).(priority := k)
  {
    var r := Renumbered(s);
    assert forall k :: 0 <= k < |r| ==> Ids(r)[k] == Ids(s)[k];
  }

  /** The in-memory renumbering loop of getAllArticles: each article's priority becomes its index. */
  method Renumber(articles: seq<ArticleData>) returns (renumbered: seq<ArticleData>)
    ensures renumbered == Renumbered(articles)
  {
    renumbered := articles;
    for i := 0 to |articles|
      invariant |renumbered| == |articles|
      invariant forall k :: 0 <= k < i ==> renumbered[k] == articles[k].(priority := k)
      invariant forall k :: i <= k < |articles| ==> renumbered[k] == articles[k]
    {
      renumbered := renumbered[i := renumbered[i].(priority := i)];
    }
  }
}
