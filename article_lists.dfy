/**
 * The operations on a shop's article list that activity/ArticleActivity.java
 * and adapter/ArticleAdapter.java both carry, each written once here: sorting
 * by name, the text copied to the clipboard, the positions of the selected
 * articles, saving positions and toggling strikethrough.
 */
module ArticleLists {
  import opened ListOps
  import opened Articles
  import opened ArticleStore

  // ---------------------------------------------------------------------------
  // String.compareTo and sorting by name
  // ---------------------------------------------------------------------------

  /**
   * A Java string is a sequence of UTF-16 code units: a character below
   * U+10000 is one unit, any other a high and a low surrogate.
   */
  function CodeUnits(c: char): (u: seq<int>)
    ensures 1 <= |u| <= 2 && 0 <= u[0] < 0x1_0000
    ensures |u| == 1 <==> c as int < 0x1_0000
    ensures |u| == 1 ==> u[0] < 0xD800 || 0xE000 <= u[0]
    ensures |u| == 2 ==> 0xD800 <= u[0] < 0xDC00 && 0xDC00 <= u[1] < 0xE000
  {
    if c as int < 0x1_0000 then [c as int]
    else
      var v := c as int - 0x1_0000;
      [0xD800 + v / 0x400, 0xDC00 + v % 0x400]
  }

  /** The UTF-16 encoding of a string. */
  function Utf16(s: string): (u: seq<int>)
    ensures |u| >= |s|
  {
    if s == [] then [] else CodeUnits(s[0]) + Utf16(s[1..])
  }

  /** Reads UTF-16 code units back as code points, a surrogate pair at a time. */
  function CodePointsOf(u: seq<int>): seq<int>
    decreases |u|
  {
    if u == [] then []
    else if 0xD800 <= u[0] < 0xDC00 && |u| >= 2 then
      [0x1_0000 + (u[0] - 0xD800) * 0x400 + (u[1] - 0xDC00)] + CodePointsOf(u[2..])
    else [u[0]] + CodePointsOf(u[1..])
  }

  /** The code points of a string. */
  function CodePoints(s: string): (r: seq<int>)
    ensures |r| == |s| && forall k :: 0 <= k < |s| ==> r[k] == s[k] as int
  {
    seq(|s|, k requires 0 <= k < |s| => s[k] as int)
  }

  /** The UTF-16 encoding reads back as the string's code points. */
  lemma {:induction false} Utf16RoundTrip(s: string)
    ensures CodePointsOf(Utf16(s)) == CodePoints(s)
    decreases |s|
  {
    if s != [] {
      Utf16RoundTrip(s[1..]);
      var head, rest := CodeUnits(s[0]), Utf16(s[1..]);
      var u := head + rest;
      if |head| == 2 {
        assert u[2..] == rest;
      } else {
        assert u[1..] == rest;
      }
      assert CodePoints(s) == [s[0] as int] + CodePoints(s[1..]);
    }
  }

  /** Two strings with the same encoding are the same string. */
  lemma Utf16Injective(a: string, b: string)
    requires Utf16(a) == Utf16(b)
    ensures a == b
  {
    Utf16RoundTrip(a);
    Utf16RoundTrip(b);
    assert forall k :: 0 <= k < |a| ==> a[k] as int == CodePoints(a)[k];
  }

  /**
   * String.compareTo on code units: the difference of the first differing
   * units, or else the difference of the lengths.
   */
  function CompareUnits(a: seq<int>, b: seq<int>): (r: int)
    ensures a == b ==> r == 0
    ensures a == [] && b != [] ==> r < 0
  {
    if a == [] || b == [] then |a| - |b|
    else if a[0] != b[0] then a[0] - b[0]
    else CompareUnits(a[1..], b[1..])
  }

  /** String.compareTo, which compares the UTF-16 code units of the two strings. */
  function CompareStrings(a: string, b: string): (r: int)
    ensures a == b ==> r == 0
    ensures a == [] && b != [] ==> r < 0
  {
    CompareUnits(Utf16(a), Utf16(b))
  }

  /**
   * Comparing code units and not code points puts a character above U+FFFF
   * before one in U+E000..U+FFFF: "\U{1F600}" sorts before "\U{FF21}".
   */
  lemma CompareStringsSurrogateOrder()
    ensures CompareStrings("\U{1F600}", "\U{FF21}") < 0
    ensures "\U{1F600}"[0] as int > "\U{FF21}"[0] as int
  {
    assert Utf16("\U{1F600}") == CodeUnits('\U{1F600}');
    assert Utf16("\U{FF21}") == CodeUnits('\U{FF21}');
  }

  lemma {:induction false} CompareUnitsAntisymmetric(a: seq<int>, b: seq<int>)
    ensures CompareUnits(a, b) < 0 <==> CompareUnits(b, a) > 0
    ensures CompareUnits(a, b) == 0 <==> CompareUnits(b, a) == 0
    decreases |a|
  {
    if a != [] && b != [] && a[0] == b[0] {
      CompareUnitsAntisymmetric(a[1..], b[1..]);
    }
  }

  lemma {:induction false} CompareUnitsZero(a: seq<int>, b: seq<int>)
    ensures CompareUnits(a, b) == 0 <==> a == b
    decreases |a|
  {
    if a != [] && b != [] && a[0] == b[0] {
      CompareUnitsZero(a[1..], b[1..]);
      assert a == [a[0]] + a[1..] && b == [b[0]] + b[1..];
    }
  }

  lemma {:induction false} CompareUnitsTransitive(a: seq<int>, b: seq<int>, c: seq<int>)
    requires CompareUnits(a, b) <= 0 && CompareUnits(b, c) <= 0
    ensures CompareUnits(a, c) <= 0
    decreases |a|
  {
    if a != [] && b != [] && c != [] && a[0] == b[0] && b[0] == c[0] {
      CompareUnitsTransitive(a[1..], b[1..], c[1..]);
    }
  }

  /** compareTo is antisymmetric in sign. */
  lemma CompareStringsAntisymmetric(a: string, b: string)
    ensures CompareStrings(a, b) < 0 <==> CompareStrings(b, a) > 0
    ensures CompareStrings(a, b) == 0 <==> CompareStrings(b, a) == 0
  {
    CompareUnitsAntisymmetric(Utf16(a), Utf16(b));
  }

  /** compareTo returns 0 only on equal strings. */
  lemma CompareStringsZero(a: string, b: string)
    ensures CompareStrings(a, b) == 0 <==> a == b
  {
    CompareUnitsZero(Utf16(a), Utf16(b));
    if Utf16(a) == Utf16(b) {
      Utf16Injective(a, b);
    }
  }

  /** "compareTo <= 0" is transitive. */
  lemma CompareStringsTransitive(a: string, b: string, c: string)
    requires CompareStrings(a, b) <= 0 && CompareStrings(b, c) <= 0
    ensures CompareStrings(a, c) <= 0
  {
    CompareUnitsTransitive(Utf16(a), Utf16(b), Utf16(c));
  }

  /** The order the name comparator of sortArticlesByName puts articles in. */
  predicate NameLeq(x: ArticleData, y: ArticleData)
  {
    CompareStrings(x.name, y.name) <= 0
  }

  predicate SortedByName(s: seq<ArticleData>)
  {
    forall j, k :: 0 <= j < k < |s| ==> NameLeq(s[j], s[k])
  }

  /** Inserts `x` after every article of `s` whose name does not come after its own. */
  function InsertByName(x: ArticleData, s: seq<ArticleData>): (r: seq<ArticleData>)
    requires SortedByName(s)
    ensures |r| == |s| + 1 && (r[0] == x || (s != [] && r[0] == s[0]))
    ensures forall a :: a in r ==> a == x || a in s
    ensures SortedByName(r)
  {
    if s == [] then [x]
    else if NameLeq(s[0], x) then
      var rest := InsertByName(x, s[1..]);
      assert forall k :: 0 <= k < |rest| ==> NameLeq(s[0], rest[k]) by {
        forall k | 0 <= k < |rest|
          ensures NameLeq(s[0], rest[k])
        {
          if rest[k] != x {
            var t := s[1..];
            assert rest[k] in t;
            var j :| 0 <= j < |t| && t[j] == rest[k];
            assert s[j + 1] == rest[k];
          }
        }
      }
      [s[0]] + rest
    else
      assert forall k :: 0 <= k < |s| ==> NameLeq(x, s[k]) by {
        CompareStringsAntisymmetric(s[0].name, x.name);
        forall k | 0 <= k < |s|
          ensures NameLeq(x, s[k])
        {
          if k > 0 {
            CompareStringsTransitive(x.name, s[0].name, s[k].name);
          }
        }
      }
      [x] + s
  }

  /**
   * Collections.sort with the name comparator: a stable sort by
   * String.compareTo of the names.
   */
  function SortByName(s: seq<ArticleData>): (r: seq<ArticleData>)
    ensures forall a :: a in r ==> a in s
    ensures SortedByName(r)
  {
    if s == [] then []
    else InsertByName(s[|s| - 1], SortByName(s[..|s| - 1]))
  }

  lemma {:induction false} InsertByNamePermutes(x: ArticleData, s: seq<ArticleData>)
    requires SortedByName(s)
    ensures multiset(InsertByName(x, s)) == multiset(s) + multiset{x}
  {
    if s != [] && NameLeq(s[0], x) {
      InsertByNamePermutes(x, s[1..]);
      assert s == [s[0]] + s[1..];
    }
  }

  /** Sorting by name only reorders the list. */
  lemma {:induction false} SortByNamePermutes(s: seq<ArticleData>)
    ensures multiset(SortByName(s)) == multiset(s)
  {
    if s != [] {
      var init, last := s[..|s| - 1], s[|s| - 1];
      SortByNamePermutes(init);
      InsertByNamePermutes(last, SortByName(init));
      assert s == init + [last];
    }
  }

  /** An article whose name comes after every name of a sorted list goes at its end. */
  lemma {:induction false} InsertByNameLast(x: ArticleData, s: seq<ArticleData>)
    requires SortedByName(s)
    requires forall k :: 0 <= k < |s| ==> NameLeq(s[k], x)
    ensures InsertByName(x, s) == s + [x]
  {
    if s != [] {
      InsertByNameLast(x, s[1..]);
      assert s == [s[0]] + s[1..];
    }
  }

  /** A list already sorted by name is left exactly as it is. */
  lemma {:induction false} SortByNameSorted(s: seq<ArticleData>)
    requires SortedByName(s)
    ensures SortByName(s) == s
  {
    if s != [] {
      var init, last := s[..|s| - 1], s[|s| - 1];
      SortByNameSorted(init);
      InsertByNameLast(last, init);
      assert s == init + [last];
    }
  }

  /** Sorting by name twice is sorting once. */
  lemma SortByNameIdempotent(s: seq<ArticleData>)
    ensures SortByName(SortByName(s)) == SortByName(s)
  {
    SortByNameSorted(SortByName(s));
  }

  /** The articles of `s` named `n`, in their order in `s`. */
  function WithName(s: seq<ArticleData>, n: string): (r: seq<ArticleData>)
    ensures |r| <= |s|
  {
    if s == [] then []
    else (if s[0].name == n then [s[0]] else []) + WithName(s[1..], n)
  }

  /** WithName keeps exactly the articles named `n`. */
  lemma {:induction false} WithNameMembers(s: seq<ArticleData>, n: string, a: ArticleData)
    ensures a in WithName(s, n) <==> a in s && a.name == n
  {
    if s != [] {
      WithNameMembers(s[1..], n, a);
      assert s == [s[0]] + s[1..];
    }
  }

  lemma {:induction false} WithNameConcat(a: seq<ArticleData>, b: seq<ArticleData>, n: string)
    ensures WithName(a + b, n) == WithName(a, n) + WithName(b, n)
  {
    if a == [] {
      assert a + b == b;
    } else {
      var head := if a[0].name == n then [a[0]] else [];
      WithNameConcat(a[1..], b, n);
      assert (a + b)[0] == a[0] && (a + b)[1..] == a[1..] + b;
      assert WithName(a + b, n) == head + WithName(a[1..] + b, n);
      assert WithName(a, n) == head + WithName(a[1..], n);
    }
  }

  /** No article of a sorted list whose head comes after `x` by name carries `x`'s name. */
  lemma NoneNamedLike(x: ArticleData, t: seq<ArticleData>)
    requires SortedByName(t) && t != [] && !NameLeq(t[0], x)
    ensures WithName(t, x.name) == []
  {
    if WithName(t, x.name) != [] {
      var a := WithName(t, x.name)[0];
      WithNameMembers(t, x.name, a);
      assert false;
    }
  }

  /**
   * Inserting into a sorted list puts `x` after every article of the same
   * name already there.
   */
  lemma {:induction false} InsertByNameWithName(x: ArticleData, t: seq<ArticleData>, n: string)
    requires SortedByName(t)
    ensures WithName(InsertByName(x, t), n) == WithName(t, n) + WithName([x], n)
  {
    if t == [] {
    } else if NameLeq(t[0], x) {
      InsertByNameWithName(x, t[1..], n);
      ConsWithName(t[0], InsertByName(x, t[1..]), t[1..], x, n);
      assert t == [t[0]] + t[1..];
    } else {
      WithNameConcat([x], t, n);
      if x.name == n {
        NoneNamedLike(x, t);
      }
    }
  }

  /** Putting the same article in front of two lists keeps their filters related. */
  lemma ConsWithName(h: ArticleData, r: seq<ArticleData>, u: seq<ArticleData>, x: ArticleData, n: string)
    requires WithName(r, n) == WithName(u, n) + WithName([x], n)
    ensures WithName([h] + r, n) == WithName([h] + u, n) + WithName([x], n)
  {
    WithNameConcat([h], r, n);
    WithNameConcat([h], u, n);
  }

  /**
   * Collections.sort is stable: articles of the same name (on which the
   * name comparator returns 0, CompareStringsZero) keep their relative order.
   */
  lemma {:induction false} SortByNameStable(s: seq<ArticleData>, n: string)
    ensures WithName(SortByName(s), n) == WithName(s, n)
  {
    if s != [] {
      var init, last := s[..|s| - 1], s[|s| - 1];
      SortByNameStable(init, n);
      InsertByNameWithName(last, SortByName(init), n);
      WithNameConcat(init, [last], n);
      assert s == init + [last];
    }
  }

  // ---------------------------------------------------------------------------
  // The text copied to the clipboard
  // ---------------------------------------------------------------------------

  /** The toString text of each of the values `ds`, in order. */
  function Lines(ds: seq<ArticleData>): seq<string>
  {
    seq(|ds|, k requires 0 <= k < |ds| => Text(ds[k]))
  }

  /** Each line followed by a line break. */
  function Joined(lines: seq<string>): (r: string)
    ensures r == "" <==> lines == []
  {
    if lines == [] then ""
    else Joined(lines[..|lines| - 1]) + lines[|lines| - 1] + "\n"
  }

  /** The articles getArticlesToString copies: the selected ones in selection order, or all. */
  function Chosen(articles: seq<ArticleData>, selection: seq<int>): (r: seq<ArticleData>)
    requires forall id :: id in selection ==> id in Ids(articles)
    ensures |selection| > 0 ==> Ids(r) == selection
    ensures |selection| == 0 ==> r == articles
    ensures forall k :: 0 <= k < |r| ==> r[k] in articles
  {
    if |selection| > 0 then WithIds(articles, selection) else articles
  }

  /**
   * getArticlesToString / copyArticlesToClipboard: the toString of each chosen
   * article, each followed by a line break.
   */
  function ClipboardText(articles: seq<ArticleData>, selection: seq<int>): string
    requires forall id :: id in selection ==> id in Ids(articles)
  {
    Joined(Lines(Chosen(articles, selection)))
  }

  /** Cuts a text into the lines its line breaks end. */
  function SplitLines(t: string): (lines: seq<string>)
    decreases |t|
  {
    if '\n' !in t then (if t == [] then [] else [t])
    else
      var i := IndexOf(t, '\n');
      [t[..i]] + SplitLines(t[i + 1..])
  }

  lemma SplitLinesCons(line: string, rest: string)
    requires '\n' !in line
    ensures SplitLines(line + "\n" + rest) == [line] + SplitLines(rest)
  {
    var t := line + "\n" + rest;
    assert t[|line|] == '\n';
    assert forall k :: 0 <= k < |line| ==> t[k] == line[k];
    var i := IndexOf(t, '\n');
    assert t[..i] == line && t[i + 1..] == rest;
  }

  lemma {:induction false} JoinedCons(lines: seq<string>)
    requires lines != []
    ensures Joined(lines) == lines[0] + "\n" + Joined(lines[1..])
    decreases |lines|
  {
    if |lines| > 1 {
      var init, last := lines[..|lines| - 1], lines[|lines| - 1];
      JoinedCons(init);
      assert init[1..] == lines[1..][..|lines[1..]| - 1];
      assert lines[1..][|lines[1..]| - 1] == last;
    }
  }

  /** Lines without line breaks are read back by cutting their join at the breaks. */
  lemma {:induction false} SplitJoined(lines: seq<string>)
    requires forall k :: 0 <= k < |lines| ==> '\n' !in lines[k]
    ensures SplitLines(Joined(lines)) == lines
    decreases |lines|
  {
    if lines != [] {
      var rest := lines[1..];
      assert forall k :: 0 <= k < |rest| ==> rest[k] == lines[k + 1];
      SplitJoined(rest);
      JoinedCons(lines);
      SplitLinesCons(lines[0], Joined(rest));
      assert [lines[0]] + rest == lines;
    }
  }

  /** Values whose name holds no line break give a text without one. */
  lemma TextOneLine(d: ArticleData)
    requires '\n' !in d.name
    ensures '\n' !in Text(d)
  {
    var r := Text(d);
    TextReadsBack(d);
    forall k | 0 <= k < |r|
      ensures r[k] != '\n'
    {
      if k >= |r| - |d.name| {
        assert r[k] == r[|r| - |d.name|..][k - (|r| - |d.name|)];
      }
    }
  }

  /**
   * The copied text reads back, line by line, as the toString of each chosen
   * article, provided no name holds a line break; each line in turn gives back
   * the amount and the name (TextReadsBack).
   */
  lemma ClipboardTextLines(articles: seq<ArticleData>, selection: seq<int>)
    requires forall id :: id in selection ==> id in Ids(articles)
    requires forall k :: 0 <= k < |articles| ==> '\n' !in articles[k].name
    ensures SplitLines(ClipboardText(articles, selection)) == Lines(Chosen(articles, selection))
  {
    var ds := Chosen(articles, selection);
    var lines := Lines(ds);
    forall k | 0 <= k < |lines|
      ensures '\n' !in lines[k]
    {
      assert ds[k] in articles;
      TextOneLine(ds[k]);
    }
    SplitJoined(lines);
  }

  /** Appending an article appends its toString and a line break to the text. */
  lemma TextSnoc(s: seq<ArticleData>, d: ArticleData)
    ensures Joined(Lines(s + [d])) == Joined(Lines(s)) + Text(d) + "\n"
  {
    var lines := Lines(s + [d]);
    assert lines[..|s|] == Lines(s);
  }

  /** getArticlesToString: the copied text, built one article at a time. */
  method ArticlesToString(articles: seq<ArticleData>, selection: seq<int>) returns (text: string)
    requires forall id :: id in selection ==> id in Ids(articles)
    ensures text == ClipboardText(articles, selection)
  {
    if |selection| > 0 {
      text := SelectedText(articles, selection);
    } else {
      text := AllText(articles);
    }
  }

  /** The loop over the selected holders, each looked up at its adapter position. */
  method SelectedText(articles: seq<ArticleData>, selection: seq<int>) returns (text: string)
    requires forall id :: id in selection ==> id in Ids(articles)
    ensures text == Joined(Lines(WithIds(articles, selection)))
  {
    text := "";
    for i := 0 to |selection|
      invariant text == Joined(Lines(WithIds(articles, selection[..i])))
    {
      var article := articles[PositionOf(articles, selection[i])];
      WithIdsSnoc(articles, selection, i);
      TextSnoc(WithIds(articles, selection[..i]), article);
      text := text + Text(article) + "\n";
    }
    assert selection[..|selection|] == selection;
  }

  /** One more selected id adds the article carrying it at the end. */
  lemma WithIdsSnoc(articles: seq<ArticleData>, selection: seq<int>, i: nat)
    requires forall id :: id in selection ==> id in Ids(articles)
    requires i < |selection|
    ensures WithIds(articles, selection[..i + 1])
            == WithIds(articles, selection[..i]) + [articles[PositionOf(articles, selection[i])]]
  {
    assert selection[..i + 1][..i] == selection[..i];
  }

  /** The loop over the whole list. */
  method AllText(articles: seq<ArticleData>) returns (text: string)
    ensures text == Joined(Lines(articles))
  {
    text := "";
    for i := 0 to |articles|
      invariant text == Joined(Lines(articles[..i]))
    {
      PrefixSnoc(articles, i);
      TextSnoc(articles[..i], articles[i]);
      text := text + Text(articles[i]) + "\n";
    }
    assert articles[..|articles|] == articles;
  }

  // ---------------------------------------------------------------------------
  // Positions of the selected articles
  // ---------------------------------------------------------------------------

  /** getSelectedPositions: the adapter position of each selected article, in selection order. */
  method SelectedPositions(articles: seq<ArticleData>, selection: seq<int>) returns (positions: seq<int>)
    requires forall id :: id in selection ==> id in Ids(articles)
    ensures |positions| == |selection|
    ensures forall k :: 0 <= k < |selection| ==>
              0 <= positions[k] < |articles| && articles[positions[k]].id == selection[k]
    ensures Distinct(selection) ==> Distinct(positions)
  {
    positions := [];
    for i := 0 to |selection|
      invariant |positions| == i
      invariant forall k :: 0 <= k < i ==>
                  0 <= positions[k] < |articles| && articles[positions[k]].id == selection[k]
    {
      positions := positions + [PositionOf(articles, selection[i])];
    }
  }

  // ---------------------------------------------------------------------------
  // Loops that write articles back to the table
  // ---------------------------------------------------------------------------

  /**
   * savePositions: each article's priority becomes its index and the article
   * is written back, in list order.
   */
  method SavePositionsOf(articles: seq<ArticleData>, store: ArticleDataSource) returns (saved: seq<ArticleData>)
    requires store.Valid()
    modifies store`rows
    ensures saved == Renumbered(articles)
    ensures store.Valid()
    ensures store.rows == UpdatedAll(old(store.rows), saved)
  {
    ghost var target := Renumbered(articles);
    saved := articles;
    for i := 0 to |articles|
      invariant store.Valid()
      invariant |saved| == |articles|
      invariant forall k :: 0 <= k < i ==> saved[k] == target[k]
      invariant forall k :: i <= k < |articles| ==> saved[k] == articles[k]
      invariant store.rows == UpdatedAll(old(store.rows), target[..i])
    {
      PrefixSnoc(target, i);
      UpdatedAllSnoc(old(store.rows), target[..i], target[i]);
      var article := saved[i].(priority := i);
      saved := saved[i := article];
      store.UpdateArticle(article);
    }
    assert target[..|articles|] == target;
  }

  /** The values with the strikethrough flag flipped. */
  function Flipped(d: ArticleData): ArticleData
  {
    d.(strikethrough := !d.strikethrough)
  }

  /** Each of the values `ds`, flipped. */
  function FlippedAll(ds: seq<ArticleData>): seq<ArticleData>
  {
    seq(|ds|, j requires 0 <= j < |ds| => Flipped(ds[j]))
  }

  /** The list with the strikethrough flag flipped on exactly the articles whose id is listed. */
  function FlippedWhere(articles: seq<ArticleData>, ids: seq<int>): (r: seq<ArticleData>)
    ensures Ids(r) == Ids(articles)
  {
    var r := seq(|articles|, k requires 0 <= k < |articles| =>
      if articles[k].id in ids then Flipped(articles[k]) else articles[k]);
    assert forall k :: 0 <= k < |r| ==> Ids(r)[k] == Ids(articles)[k];
    r
  }

  /** Toggling strikethrough twice on the same selection gives back the list. */
  lemma FlippedWhereTwice(articles: seq<ArticleData>, ids: seq<int>)
    ensures FlippedWhere(FlippedWhere(articles, ids), ids) == articles
  {
    var once := FlippedWhere(articles, ids);
    forall k | 0 <= k < |articles|
      ensures FlippedWhere(once, ids)[k] == articles[k]
    {
      assert once[k].id == articles[k].id;
    }
  }

  /**
   * toggleStrikethrough: the article of each selected holder, looked up at its
   * adapter position, has its strikethrough flag flipped and is written back,
   * in selection order.
   */
  method ToggleStrikethroughOf(articles: seq<ArticleData>, selection: seq<int>, store: ArticleDataSource)
    returns (toggled: seq<ArticleData>)
    requires UniqueIds(articles) && Distinct(selection) && store.Valid()
    requires forall id :: id in selection ==> id in Ids(articles)
    modifies store`rows
    ensures toggled == FlippedWhere(articles, selection)
    ensures store.Valid()
    ensures store.rows == UpdatedAll(old(store.rows), FlippedAll(WithIds(articles, selection)))
  {
    toggled := articles;
    for i := 0 to |selection|
      invariant store.Valid()
      invariant toggled == FlippedWhere(articles, selection[..i])
      invariant store.rows == UpdatedAll(old(store.rows), FlippedAll(WithIds(articles, selection[..i])))
    {
      var position := PositionOf(toggled, selection[i]);
      var article := Flipped(toggled[position]);
      ToggleStep(articles, selection, i, toggled, position);
      UpdatedAllSnoc(old(store.rows), FlippedAll(WithIds(articles, selection[..i])), article);
      toggled := toggled[position := article];
      store.UpdateArticle(article);
    }
    assert selection[..|selection|] == selection;
  }

  /**
   * One turn of toggleStrikethrough's loop: flipping the article of the next
   * selected id, which is not flipped yet, extends both the flipped list and
   * the values written so far.
   */
  lemma ToggleStep(articles: seq<ArticleData>, selection: seq<int>, i: nat,
                   toggled: seq<ArticleData>, position: nat)
    requires UniqueIds(articles) && Distinct(selection) && i < |selection|
    requires forall id :: id in selection ==> id in Ids(articles)
    requires toggled == FlippedWhere(articles, selection[..i])
    requires position < |toggled| && toggled[position].id == selection[i]
    ensures toggled[position := Flipped(toggled[position])] == FlippedWhere(articles, selection[..i + 1])
    ensures selection[..i + 1] == selection[..i] + [selection[i]]
    ensures FlippedAll(WithIds(articles, selection[..i + 1]))
            == FlippedAll(WithIds(articles, selection[..i])) + [Flipped(toggled[position])]
  {
    PrefixSnoc(selection, i);
    assert selection[i] !in selection[..i];
    assert Ids(toggled)[position] == Ids(articles)[position];
    IndexOfDistinct(Ids(articles), position);
    assert toggled[position] == articles[position];
    FlipStep(articles, selection, i, toggled, position);
    WithIdsSnoc(articles, selection, i);
    FlippedAllSnoc(WithIds(articles, selection[..i]), articles[position]);
  }

  lemma FlippedAllSnoc(ds: seq<ArticleData>, d: ArticleData)
    ensures FlippedAll(ds + [d]) == FlippedAll(ds) + [Flipped(d)]
  {
  }

  /** Flipping the next selected article, not yet flipped, flips exactly the ids of the longer prefix. */
  lemma FlipStep(articles: seq<ArticleData>, selection: seq<int>, i: nat,
                 toggled: seq<ArticleData>, position: nat)
    requires UniqueIds(articles) && i < |selection|
    requires toggled == FlippedWhere(articles, selection[..i])
    requires position < |toggled| && toggled[position].id == selection[i]
    requires selection[i] !in selection[..i]
    ensures toggled[position := Flipped(toggled[position])] == FlippedWhere(articles, selection[..i + 1])
  {
    assert Ids(toggled)[position] == Ids(articles)[position];
    UniqueIdsAt(articles, position);
    var next := toggled[position := Flipped(toggled[position])];
    var after := FlippedWhere(articles, selection[..i + 1]);
    forall k | 0 <= k < |articles|
      ensures next[k] == after[k]
    {
      InPrefixSnoc(selection, i, articles[k].id);
    }
  }

  /** A prefix one longer holds the values of the prefix and the next one. */
  lemma InPrefixSnoc<T>(s: seq<T>, i: nat, x: T)
    requires i < |s|
    ensures x in s[..i + 1] <==> x in s[..i] || x == s[i]
  {
    PrefixSnoc(s, i);
  }
}
