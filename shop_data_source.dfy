/**
 * The shop table and its data-access object (db/ShopDataSource.java). The
 * table maps row ids to shop names; the names are unique (the name column is
 * declared UNIQUE) and ids come from an autoincrement counter.
 */
module ShopStore {
  import opened ListOps

  /** A shop as getShop returns it: the row id and the name. */
  datatype Shop = Shop(id: int, name: string)

  /** The shop table together with its autoincrement counter. */
  datatype ShopTable = ShopTable(rows: map<int, string>, nextId: int)

  /** No two rows carry the same name. */
  ghost predicate UniqueNames(rows: map<int, string>)
  {
    forall i, j :: i in rows && j in rows && rows[i] == rows[j] ==> i == j
  }

  /** The table's invariants: unique names, and every id below the counter. */
  ghost predicate ValidTable(t: ShopTable)
  {
    UniqueNames(t.rows) && 1 <= t.nextId && forall id :: id in t.rows ==> id < t.nextId
  }

  /** The query `name = shopName`: the ids of the rows with that name. */
  function Named(rows: map<int, string>, name: string): (ids: set<int>)
    ensures forall id :: id in ids <==> id in rows && rows[id] == name
  {
    set id | id in rows && rows[id] == name
  }

  /** With unique names, a name matches at most one row. */
  lemma NamedAtMostOne(rows: map<int, string>, name: string, i: int, j: int)
    requires UniqueNames(rows)
    requires i in Named(rows, name) && j in Named(rows, name)
    ensures i == j
  {
  }

  /**
   * getShop as a function of the table: the row with that name if there is
   * one, and otherwise a new row under the next id.
   */
  ghost function GetOrCreate(t: ShopTable, name: string): (r: (ShopTable, Shop))
    requires ValidTable(t)
    ensures ValidTable(r.0)
    ensures r.1.name == name && r.1.id in r.0.rows && r.0.rows[r.1.id] == name
    ensures Named(t.rows, name) != {} ==> r.0 == t
    ensures Named(t.rows, name) == {} ==>
              r.1.id == t.nextId && r.1.id !in t.rows &&
              r.0 == ShopTable(t.rows[r.1.id := name], t.nextId + 1)
  {
    if Named(t.rows, name) == {} then
      (ShopTable(t.rows[t.nextId := name], t.nextId + 1), Shop(t.nextId, name))
    else
      HasMember(Named(t.rows, name));
      var id :| id in Named(t.rows, name);
      (t, Shop(id, name))
  }

  /** A second getShop with the same name returns the same shop and inserts nothing. */
  lemma GetShopIdempotent(t: ShopTable, name: string)
    requires ValidTable(t)
    ensures GetOrCreate(GetOrCreate(t, name).0, name) == GetOrCreate(t, name)
  {
    var (t1, s1) := GetOrCreate(t, name);
    var (t2, s2) := GetOrCreate(t1, name);
    assert s1.id in Named(t1.rows, name);
    NamedAtMostOne(t1.rows, name, s1.id, s2.id);
  }

  /** getShop never changes which row holds any other name. */
  lemma GetShopKeepsOtherShops(t: ShopTable, name: string, other: string)
    requires ValidTable(t) && other != name
    ensures Named(GetOrCreate(t, name).0.rows, other) == Named(t.rows, other)
  {
  }

  class ShopDataSource {
    var rows: map<int, string>
    var nextId: int

    function Table(): ShopTable
      reads this
    {
      ShopTable(rows, nextId)
    }

    ghost predicate Valid()
      reads this
    {
      ValidTable(Table())
    }

    /** An empty shop table whose counter starts at 1. */
    constructor ()
      ensures Valid() && rows == map[]
    {
      rows := map[];
      nextId := 1;
    }

    /**
     * getShop: looks the name up; inserts a row for it when none matches;
     * then reads the matching row back.
     */
    method GetShop(shopName: string) returns (shop: Shop)
      requires Valid()
      modifies this
      ensures Valid()
      ensures (Table(), shop) == GetOrCreate(old(Table()), shopName)
    {
      var matching := Named(rows, shopName);
      if matching == {} {
        var insertId := nextId;
        rows := rows[insertId := shopName];
        nextId := nextId + 1;
        matching := Named(rows, shopName);
        assert insertId in matching;
      }
      var id := AnyMember(matching);
      NamedAtMostOne(rows, shopName, id, GetOrCreate(old(Table()), shopName).1.id);
      shop := Shop(id, rows[id]);
    }
  }
}
