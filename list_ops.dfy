/**
 * The java.util.List and java.util.Collections operations that the article
 * list relies on, stated over Dafny sequences.
 */
module ListOps {

  /** No element occurs twice. */
  predicate Distinct<T(==)>(s: seq<T>)
  {
    forall i, j :: 0 <= i < j < |s| ==> s[i] != s[j]
  }

  /** A prefix one element longer is the prefix and that element. */
  lemma PrefixSnoc<T>(s: seq<T>, i: nat)
    requires i < |s|
    ensures s[..i + 1] == s[..i] + [s[i]]
  {
  }

  /** List.remove(int): the element at `i` goes, the others keep their order. */
  function RemoveAt<T>(s: seq<T>, i: nat): (r: seq<T>)
    requires i < |s|
    ensures |r| == |s| - 1
    ensures forall k :: 0 <= k < i ==> r[k] == s[k]
    ensures forall k :: i <= k < |r| ==> r[k] == s[k + 1]
  {
    s[..i] + s[i + 1..]
  }

  lemma RemoveAtMultiset<T>(s: seq<T>, i: nat)
    requires i < |s|
    ensures multiset(RemoveAt(s, i)) + multiset{s[i]} == multiset(s)
  {
    assert s == s[..i] + [s[i]] + s[i + 1..];
  }

  /** List.add(int, E): `x` lands at index `i`, the elements from `i` on shift right. */
  function InsertAt<T>(s: seq<T>, i: nat, x: T): (r: seq<T>)
    requires i <= |s|
    ensures |r| == |s| + 1 && r[i] == x
    ensures forall k :: 0 <= k < i ==> r[k] == s[k]
    ensures forall k :: i < k < |r| ==> r[k] == s[k - 1]
  {
    s[..i] + [x] + s[i..]
  }

  lemma InsertAtMultiset<T>(s: seq<T>, i: nat, x: T)
    requires i <= |s|
    ensures multiset(InsertAt(s, i, x)) == multiset(s) + multiset{x}
  {
    assert s == s[..i] + s[i..];
  }

  /** Putting an element back where it was taken from restores the list. */
  lemma InsertAfterRemove<T>(s: seq<T>, i: nat)
    requires i < |s|
    ensures InsertAt(RemoveAt(s, i), i, s[i]) == s
  {
  }

  /** Taking out an element just inserted restores the list. */
  lemma RemoveAfterInsert<T>(s: seq<T>, i: nat, x: T)
    requires i <= |s|
    ensures RemoveAt(InsertAt(s, i, x), i) == s
  {
  }

  /** Collections.swap(list, i, j). */
  function Swap<T>(s: seq<T>, i: nat, j: nat): (r: seq<T>)
    requires i < |s| && j < |s|
    ensures |r| == |s| && r[i] == s[j] && r[j] == s[i]
    ensures forall k :: 0 <= k < |s| && k != i && k != j ==> r[k] == s[k]
    ensures multiset(r) == multiset(s)
  {
    s[i := s[j]][j := s[i]]
  }

  /**
   * The end state of a drag from `from` to `to`: the element is taken out
   * and inserted again at `to`.
   */
  function Moved<T>(s: seq<T>, from: nat, to: nat): (r: seq<T>)
    requires from < |s| && to < |s|
    ensures |r| == |s| && r[to] == s[from]
    ensures multiset(r) == multiset(s)
  {
    RemoveAtMultiset(s, from);
    InsertAtMultiset(RemoveAt(s, from), to, s[from]);
    InsertAt(RemoveAt(s, from), to, s[from])
  }

  /** Dragging the element back to where it came from undoes the drag. */
  lemma {:induction false} MovedBack<T>(s: seq<T>, from: nat, to: nat)
    requires from < |s| && to < |s|
    ensures Moved(Moved(s, from, to), to, from) == s
  {
    var m := Moved(s, from, to);
    RemoveAfterInsert(RemoveAt(s, from), to, s[from]);
    assert RemoveAt(m, to) == RemoveAt(s, from);
    InsertAfterRemove(s, from);
  }

  /** A drag that ends where it started changes nothing. */
  lemma MovedNowhere<T>(s: seq<T>, i: nat)
    requires i < |s|
    ensures Moved(s, i, i) == s
  {
    InsertAfterRemove(s, i);
  }

  /** One more downward swap carries the dragged element one place further. */
  lemma {:induction false} SwapStepDown<T>(s: seq<T>, from: nat, i: nat)
    requires from <= i && i + 1 < |s|
    ensures Swap(Moved(s, from, i), i, i + 1) == Moved(s, from, i + 1)
  {
    var a := Swap(Moved(s, from, i), i, i + 1);
    var b := Moved(s, from, i + 1);
    forall k | 0 <= k < |s|
      ensures a[k] == b[k]
    {
      if k < from {
      } else if k < i {
      } else if k == i {
      } else if k == i + 1 {
      } else {
      }
    }
  }

  /** One more upward swap carries the dragged element one place further. */
  lemma {:induction false} SwapStepUp<T>(s: seq<T>, from: nat, i: nat)
    requires 0 < i <= from < |s|
    ensures Swap(Moved(s, from, i), i, i - 1) == Moved(s, from, i - 1)
  {
    var a := Swap(Moved(s, from, i), i, i - 1);
    var b := Moved(s, from, i - 1);
    forall k | 0 <= k < |s|
      ensures a[k] == b[k]
    {
      if k < i - 1 {
      } else if k == i - 1 {
      } else if k == i {
      } else if k <= from {
      } else {
      }
    }
  }

  /** List.indexOf(Object): the first index holding `x`. */
  function IndexOf<T(==)>(s: seq<T>, x: T): (i: nat)
    requires x in s
    ensures i < |s| && s[i] == x
    ensures forall k :: 0 <= k < i ==> s[k] != x
  {
    if s[0] == x then 0 else 1 + IndexOf(s[1..], x)
  }

  /** In a list without repeats, the only index holding `s[i]` is `i`. */
  lemma IndexOfDistinct<T>(s: seq<T>, i: nat)
    requires Distinct(s) && i < |s|
    ensures IndexOf(s, s[i]) == i
  {
  }

  /** List.remove(Object): the first occurrence of `x`, if any, goes. */
  function RemoveValue<T(==, !new)>(s: seq<T>, x: T): (r: seq<T>)
    ensures |r| == if x in s then |s| - 1 else |s|
    ensures x in s ==> multiset(r) + multiset{x} == multiset(s)
    ensures x !in s ==> r == s
    ensures forall y :: y != x ==> (y in r <==> y in s)
  {
    if x in s then
      var i := IndexOf(s, x);
      var r := RemoveAt(s, i);
      RemoveAtMultiset(s, i);
      assert forall k :: 0 <= k < |s| && k != i ==> s[k] in r by {
        forall k | 0 <= k < |s| && k != i ensures s[k] in r {
          if k < i { assert r[k] == s[k]; } else { assert r[k - 1] == s[k]; }
        }
      }
      r
    else s
  }

  /** Removing a value from a list without repeats leaves no copy of it and keeps the rest. */
  lemma RemoveValueDistinct<T(!new)>(s: seq<T>, x: T)
    requires Distinct(s)
    ensures Distinct(RemoveValue(s, x))
    ensures forall y :: y in RemoveValue(s, x) <==> y in s && y != x
  {
    if x in s {
      var i := IndexOf(s, x);
      var r := RemoveValue(s, x);
      assert r == RemoveAt(s, i);
      forall a, b | 0 <= a < b < |r|
        ensures r[a] != r[b]
      {
        var a' := if a < i then a else a + 1;
        var b' := if b < i then b else b + 1;
        assert r[a] == s[a'] && r[b] == s[b'] && a' < b';
      }
      forall y | y in s && y != x
        ensures y in r
      {
        var k :| 0 <= k < |s| && s[k] == y;
        if k < i { assert r[k] == y; } else { assert r[k - 1] == y; }
      }
      forall y | y in r
        ensures y in s && y != x
      {
        var k :| 0 <= k < |r| && r[k] == y;
        if k < i { assert s[k] == y; } else { assert s[k + 1] == y; }
      }
    }
  }

  /** A list without repeats holds each value at most once, counted as a multiset. */
  lemma {:induction false} DistinctCounts<T>(s: seq<T>, x: T)
    requires Distinct(s)
    ensures multiset(s)[x] <= 1
  {
    if s != [] {
      var t := s[1..];
      assert Distinct(t) by {
        forall i, j | 0 <= i < j < |t| ensures t[i] != t[j] {
          assert t[i] == s[i + 1] && t[j] == s[j + 1];
        }
      }
      DistinctCounts(t, x);
      assert s == [s[0]] + t;
      assert multiset(s)[x] == multiset([s[0]])[x] + multiset(t)[x];
      if x == s[0] {
        assert x !in t;
      }
    }
  }

  /** A value at two positions is counted at least twice. */
  lemma RepeatCounts<T>(s: seq<T>, i: nat, j: nat)
    requires i < j < |s| && s[i] == s[j]
    ensures multiset(s)[s[i]] >= 2
  {
    var x := s[i];
    assert s == s[..j] + [s[j]] + s[j + 1..];
    assert multiset(s)[x] == multiset(s[..j])[x] + multiset([s[j]])[x] + multiset(s[j + 1..])[x];
    assert s[..j][i] == x;
  }

  /** A permutation of a list without repeats has no repeats. */
  lemma DistinctPermutation<T>(s: seq<T>, t: seq<T>)
    requires multiset(s) == multiset(t) && Distinct(s)
    ensures Distinct(t)
  {
    forall i, j | 0 <= i < j < |t|
      ensures t[i] != t[j]
    {
      if t[i] == t[j] {
        RepeatCounts(t, i, j);
        DistinctCounts(s, t[i]);
      }
    }
  }

  /** A list without repeats has as many distinct values as elements. */
  lemma {:induction false} DistinctCardinality<T>(s: seq<T>)
    requires Distinct(s)
    ensures |set x | x in s| == |s|
  {
    if s != [] {
      DistinctCardinality(s[1..]);
      assert (set x | x in s) == (set x | x in s[1..]) + {s[0]};
      assert s[0] !in (set x | x in s[1..]);
    }
  }

  /** A list without repeats drawn from a set of the same size lists the whole set. */
  lemma DistinctCovers<T>(s: seq<T>, all: set<T>)
    requires Distinct(s) && |s| == |all|
    requires forall k :: 0 <= k < |s| ==> s[k] in all
    ensures forall x :: x in all <==> x in s
  {
    DistinctCardinality(s);
    var listed := set x | x in s;
    assert listed <= all;
    assert all * listed == listed;
    assert |all - listed| == 0;
    assert all - listed == {};
  }

  /** The elements of a list, as a set, gathered front to back. */
  function Members(s: seq<int>): (r: set<int>)
    ensures forall x :: x in r <==> x in s
  {
    if s == [] then {} else Members(s[..|s| - 1]) + {s[|s| - 1]}
  }

  /** The members of a one-longer prefix are one more. */
  lemma MembersSnoc(s: seq<int>, i: nat)
    requires i < |s|
    ensures Members(s[..i + 1]) == Members(s[..i]) + {s[i]}
  {
    assert s[..i + 1][..i] == s[..i];
  }

  /** A list without repeats has as many members as elements. */
  lemma MembersCardinality(s: seq<int>)
    requires Distinct(s)
    ensures |Members(s)| == |s|
  {
    DistinctCardinality(s);
    assert Members(s) == set x | x in s;
  }

  /** A set of ids is empty or has a member. */
  lemma HasMember(s: set<int>)
    ensures s == {} || exists x :: x in s
  {
    if forall x :: x !in s {
      assert s == {};
    }
  }

  /**
   * A row of a non-empty query result: the cursor's moveToFirst or
   * moveToNext picks one of the rows not visited yet.
   */
  method AnyMember(s: set<int>) returns (x: int)
    requires s != {}
    ensures x in s
  {
    HasMember(s);
    x :| x in s;
  }

  /** Removing an element from a list without repeats leaves exactly the other elements, still without repeats. */
  lemma RemoveAtDistinct<T>(s: seq<T>, i: nat)
    requires Distinct(s) && i < |s|
    ensures Distinct(RemoveAt(s, i))
    ensures forall x :: x in RemoveAt(s, i) <==> x in s && x != s[i]
  {
    var r := RemoveAt(s, i);
    forall a, b | 0 <= a < b < |r|
      ensures r[a] != r[b]
    {
      var a' := if a < i then a else a + 1;
      var b' := if b < i then b else b + 1;
      assert r[a] == s[a'] && r[b] == s[b'] && a' < b';
    }
    forall x | x in s && x != s[i]
      ensures x in r
    {
      var k :| 0 <= k < |s| && s[k] == x;
      if k < i { assert r[k] == x; } else { assert r[k - 1] == x; }
    }
    forall x | x in r
      ensures x in s && x != s[i]
    {
      var k :| 0 <= k < |r| && r[k] == x;
      if k < i { assert s[k] == x; } else { assert s[k + 1] == x; }
    }
  }

  /** Inserting a new element into a list without repeats gives a list without repeats. */
  lemma InsertAtDistinct<T>(s: seq<T>, i: nat, x: T)
    requires Distinct(s) && i <= |s| && x !in s
    ensures Distinct(InsertAt(s, i, x))
    ensures forall y :: y in InsertAt(s, i, x) <==> y in s || y == x
  {
    var r := InsertAt(s, i, x);
    InsertAtMultiset(s, i, x);
    forall a, b | 0 <= a < b < |r|
      ensures r[a] != r[b]
    {
      if a != i && b != i {
        var a' := if a < i then a else a - 1;
        var b' := if b < i then b else b - 1;
        assert r[a] == s[a'] && r[b] == s[b'] && a' < b';
      } else if a == i {
        var b' := if b < i then b else b - 1;
        assert r[b] == s[b'];
      } else {
        assert r[a] == s[a];
      }
    }
    assert forall y :: y in r <==> y in multiset(r);
  }
}
