/**
 * The article record of one shop's list (model/Article.java), with the amount
 * as an integer and an optional unit of measure, as the article table stores them.
 */
module Articles {
  import opened ListOps

  datatype Option<T> = None | Some(value: T)

  /** The value an article object holds at one moment. */
  datatype ArticleData = ArticleData(
    id: int,
    shop: string,
    name: string,
    amount: int,
    measure: Option<string>,
    strikethrough: bool,
    priority: int)

  // ---------------------------------------------------------------------------
  // Decimal text of an int, as Java's string concatenation writes it
  // ---------------------------------------------------------------------------

  function DigitChar(d: nat): (c: char)
    requires d < 10
    ensures '0' <= c <= '9' && c as int - '0' as int == d
  {
    "0123456789"[d]
  }

  /** The decimal digits of a natural number, without leading zeros. */
  function NatDigits(n: nat): (r: string)
    ensures |r| >= 1
    ensures forall k :: 0 <= k < |r| ==> '0' <= r[k] <= '9'
    decreases n
  {
    if n < 10 then [DigitChar(n)] else NatDigits(n / 10) + [DigitChar(n % 10)]
  }

  /** Integer.toString: a minus sign for negative numbers, then the digits. */
  function DecimalString(n: int): string
  {
    if n < 0 then "-" + NatDigits(-n) else NatDigits(n)
  }

  /** Reads decimal digits back (the inverse of NatDigits). */
  function ParseDigits(s: string): int
  {
    if s == [] then 0
    else 10 * ParseDigits(s[..|s| - 1]) + (s[|s| - 1] as int - '0' as int)
  }

  /** Reads an optionally signed decimal number back. */
  function ParseDecimal(s: string): int
  {
    if |s| > 0 && s[0] == '-' then -ParseDigits(s[1..]) else ParseDigits(s)
  }

  lemma {:induction false} NatDigitsRoundTrip(n: nat)
    ensures ParseDigits(NatDigits(n)) == n
    decreases n
  {
    if n >= 10 {
      NatDigitsRoundTrip(n / 10);
      var r := NatDigits(n);
      assert r[..|r| - 1] == NatDigits(n / 10);
    }
  }

  /** The decimal text of any int reads back as that int, and holds no blank or line break. */
  lemma DecimalRoundTrip(n: int)
    ensures ParseDecimal(DecimalString(n)) == n
    ensures ' ' !in DecimalString(n) && '\n' !in DecimalString(n)
  {
    if n < 0 {
      NatDigitsRoundTrip(-n);
      assert DecimalString(n)[1..] == NatDigits(-n);
    } else {
      NatDigitsRoundTrip(n);
    }
  }

  // ---------------------------------------------------------------------------
  // compareTo and toString, on the values an article holds
  // ---------------------------------------------------------------------------

  /** compareTo orders articles by priority alone: +1, -1 or 0. */
  function CompareTo(x: ArticleData, y: ArticleData): (r: int)
    ensures r == 1 <==> x.priority > y.priority
    ensures r == -1 <==> x.priority < y.priority
    ensures r == 0 <==> x.priority == y.priority
  {
    if x.priority > y.priority then 1
    else if x.priority < y.priority then -1
    else 0
  }

  /** compareTo is antisymmetric. */
  lemma CompareToAntisymmetric(x: ArticleData, y: ArticleData)
    ensures CompareTo(x, y) == -CompareTo(y, x)
  {
  }

  /** compareTo is a total preorder: total, transitive, and 0 exactly on equal priorities. */
  lemma CompareToTotalPreorder(x: ArticleData, y: ArticleData, z: ArticleData)
    ensures CompareTo(x, y) <= 0 || CompareTo(y, x) <= 0
    ensures CompareTo(x, y) <= 0 && CompareTo(y, z) <= 0 ==> CompareTo(x, z) <= 0
    ensures CompareTo(x, y) == 0 <==> x.priority == y.priority
  {
  }

  /** toString: the amount, one blank, then the name. */
  function Text(d: ArticleData): (r: string)
    ensures |r| > |d.name| + 1
    ensures r[|r| - |d.name|..] == d.name && r[|r| - |d.name| - 1] == ' '
  {
    DecimalString(d.amount) + " " + d.name
  }

  /**
   * The text ends with the name, a blank precedes the name, and what comes
   * before the blank holds no blank or line break and reads back as the amount.
   */
  lemma TextReadsBack(d: ArticleData)
    ensures var r := Text(d);
      |r| > |d.name| + 1 &&
      r[|r| - |d.name|..] == d.name && r[|r| - |d.name| - 1] == ' ' &&
      ParseDecimal(r[..|r| - |d.name| - 1]) == d.amount &&
      forall k :: 0 <= k < |r| - |d.name| - 1 ==> r[k] != ' ' && r[k] != '\n'
  {
    var digits := DecimalString(d.amount);
    DecimalRoundTrip(d.amount);
    var r := Text(d);
    assert r[..|r| - |d.name| - 1] == digits;
    assert forall k :: 0 <= k < |digits| ==> r[k] == digits[k];
  }

  // ---------------------------------------------------------------------------
  // The article object and its in-place mutator
  // ---------------------------------------------------------------------------

  class Article {
    var id: int
    var shop: string
    var name: string
    var amount: int
    var measure: Option<string>
    var strikethrough: bool
    var priority: int

    constructor (d: ArticleData)
      ensures Data() == d
    {
      id := d.id;
      shop := d.shop;
      name := d.name;
      amount := d.amount;
      measure := d.measure;
      strikethrough := d.strikethrough;
      priority := d.priority;
    }

    /** The values the object holds now. */
    function Data(): ArticleData
      reads this
    {
      ArticleData(id, shop, name, amount, measure, strikethrough, priority)
    }

    /** The setters each replace one field and leave the others as they were. */
    method SetId(id: int)
      modifies this
      ensures Data() == old(Data()).(id := id)
    {
      this.id := id;
    }

    method SetShop(shop: string)
      modifies this
      ensures Data() == old(Data()).(shop := shop)
    {
      this.shop := shop;
    }

    method SetName(name: string)
      modifies this
      ensures Data() == old(Data()).(name := name)
    {
      this.name := name;
    }

    method SetAmount(amount: int)
      modifies this
      ensures Data() == old(Data()).(amount := amount)
    {
      this.amount := amount;
    }

    method SetStrikethrough(strikethrough: bool)
      modifies this
      ensures Data() == old(Data()).(strikethrough := strikethrough)
    {
      this.strikethrough := strikethrough;
    }

    method SetPriority(priority: int)
      modifies this
      ensures Data() == old(Data()).(priority := priority)
    {
      this.priority := priority;
    }

    /** swapPriority exchanges the priorities of two articles and touches nothing else. */
    static method SwapPriority(a: Article, b: Article)
      modifies a, b
      ensures a != b ==> (a.Data(), b.Data()) == SwappedPriorities(old(a.Data()), old(b.Data()))
      ensures a == b ==> a.Data() == old(a.Data())
    {
      var priorityA := a.priority;
      a.SetPriority(b.priority);
      b.SetPriority(priorityA);
    }
  }

  /** The two article values after their priorities are exchanged. */
  function SwappedPriorities(x: ArticleData, y: ArticleData): (r: (ArticleData, ArticleData))
    ensures r.0.priority == y.priority && r.1.priority == x.priority
    ensures r.0.(priority := x.priority) == x && r.1.(priority := y.priority) == y
  {
    (x.(priority := y.priority), y.(priority := x.priority))
  }

  /** Swapping priorities twice gives both articles their own priorities back. */
  lemma SwapTwice(x: ArticleData, y: ArticleData)
    ensures var (x', y') := SwappedPriorities(x, y); SwappedPriorities(x', y') == (x, y)
  {
  }

  // ---------------------------------------------------------------------------
  // Lists of articles
  // ---------------------------------------------------------------------------

  /** The ids of a list of articles, in list order. */
  function Ids(s: seq<ArticleData>): (r: seq<int>)
    ensures |r| == |s|
    ensures forall k :: 0 <= k < |s| ==> r[k] == s[k].id
  {
    seq(|s|, k requires 0 <= k < |s| => s[k].id)
  }

  /** Article ids are unique within the list. */
  predicate UniqueIds(s: seq<ArticleData>)
  {
    Distinct(Ids(s))
  }

  /** getAdapterPosition: where the article with this id currently sits. */
  function PositionOf(s: seq<ArticleData>, id: int): (k: nat)
    requires id in Ids(s)
    ensures k < |s| && s[k].id == id
    ensures forall j :: 0 <= j < k ==> s[j].id != id
  {
    IndexOf(Ids(s), id)
  }

  /** The articles carrying the given ids, in the order of the ids. */
  function WithIds(s: seq<ArticleData>, ids: seq<int>): (r: seq<ArticleData>)
    requires forall id :: id in ids ==> id in Ids(s)
    ensures |r| == |ids|
    ensures forall k :: 0 <= k < |ids| ==> r[k] == s[PositionOf(s, ids[k])]
  {
    if ids == [] then []
    else WithIds(s, ids[..|ids| - 1]) + [s[PositionOf(s, ids[|ids| - 1])]]
  }

  /** Unique ids: no other article carries the id of the one at `i`. */
  lemma UniqueIdsAt(s: seq<ArticleData>, i: nat)
    requires UniqueIds(s) && i < |s|
    ensures forall k :: 0 <= k < |s| && k != i ==> s[k].id != s[i].id
  {
    forall k | 0 <= k < |s| && k != i
      ensures s[k].id != s[i].id
    {
      assert Ids(s)[k] != Ids(s)[i];
    }
  }

  /** Inserting an article with a new id inserts exactly that id. */
  lemma InsertAtIds(s: seq<ArticleData>, i: nat, d: ArticleData)
    requires UniqueIds(s) && i <= |s| && d.id !in Ids(s)
    ensures Ids(InsertAt(s, i, d)) == InsertAt(Ids(s), i, d.id)
    ensures UniqueIds(InsertAt(s, i, d))
    ensures forall id :: id in Ids(InsertAt(s, i, d)) <==> id in Ids(s) || id == d.id
  {
    IdsOfInsertAt(s, i, d);
    InsertAtDistinct(Ids(s), i, d.id);
  }

  lemma IdsOfInsertAt(s: seq<ArticleData>, i: nat, d: ArticleData)
    requires i <= |s|
    ensures Ids(InsertAt(s, i, d)) == InsertAt(Ids(s), i, d.id)
  {
    IdsConcat(s[..i] + [d], s[i..]);
    IdsConcat(s[..i], [d]);
    IdsSlices(s, i);
  }

  /** The ids of a concatenation are the concatenated ids. */
  lemma IdsConcat(a: seq<ArticleData>, b: seq<ArticleData>)
    ensures Ids(a + b) == Ids(a) + Ids(b)
  {
    assert forall k :: 0 <= k < |a| ==> (a + b)[k] == a[k];
    assert forall k :: |a| <= k < |a| + |b| ==> (a + b)[k] == b[k - |a|];
  }

  /** The ids of a prefix and of a suffix are the prefix and the suffix of the ids. */
  lemma IdsSlices(s: seq<ArticleData>, i: nat)
    requires i <= |s|
    ensures Ids(s[..i]) == Ids(s)[..i] && Ids(s[i..]) == Ids(s)[i..]
  {
  }

  /** Removing the article at `i` removes exactly its id. */
  lemma RemoveAtIds(s: seq<ArticleData>, i: nat)
    requires UniqueIds(s) && i < |s|
    ensures Ids(RemoveAt(s, i)) == RemoveAt(Ids(s), i)
    ensures UniqueIds(RemoveAt(s, i))
    ensures forall id :: id in Ids(RemoveAt(s, i)) <==> id in Ids(s) && id != s[i].id
  {
    IdsOfRemoveAt(s, i);
    RemoveAtDistinct(Ids(s), i);
  }

  lemma IdsOfRemoveAt(s: seq<ArticleData>, i: nat)
    requires i < |s|
    ensures Ids(RemoveAt(s, i)) == RemoveAt(Ids(s), i)
  {
    var r, ids := RemoveAt(s, i), RemoveAt(Ids(s), i);
    forall k | 0 <= k < |r|
      ensures Ids(r)[k] == ids[k]
    {
      if k < i {
        assert r[k] == s[k];
      } else {
        assert r[k] == s[k + 1];
      }
    }
  }

  /** The values `ds` with each priority set to its index. */
  function Renumbered(ds: seq<ArticleData>): seq<ArticleData>
  {
    seq(|ds|, k requires 0 <= k < |ds| => ds[k].(priority := k))
  }
}
