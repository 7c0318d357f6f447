/**
 * Python's `sorted(s, key=key, reverse=True)`: a stable sort into descending
 * key order. Python documents that `reverse=True` keeps equal-key elements
 * in their original order; the model is an insertion sort with that property.
 */
module Sorting {

  import opened Seqs

  predicate Descending<T>(key: T -> int, s: seq<T>)
  {
    forall i, j :: 0 <= i < j < |s| ==> key(s[i]) >= key(s[j])
  }

  /** The elements of s whose key is k, in their order in s. */
  function WithKey<T>(key: T -> int, k: int, s: seq<T>): seq<T>
  {
    if s == [] then [] else (if key(s[0]) == k then [s[0]] else []) + WithKey(key, k, s[1..])
  }

  lemma DescendingCons<T>(key: T -> int, y: T, t: seq<T>)
    requires Descending(key, t)
    requires t == [] || key(t[0]) <= key(y)
    ensures Descending(key, [y] + t)
  {
  }

  lemma WithKeyCons<T>(key: T -> int, k: int, y: T, t: seq<T>)
    ensures WithKey(key, k, [y] + t) == (if key(y) == k then [y] else []) + WithKey(key, k, t)
  {
    assert ([y] + t)[1..] == t;
  }

  /**
   * Places x, which came before every element of s in the input, after the
   * elements with a strictly larger key and before all others.
   */
  function Insert<T(==)>(key: T -> int, x: T, s: seq<T>): (r: seq<T>)
    requires Descending(key, s)
    ensures Descending(key, r)
    ensures multiset(r) == multiset(s) + multiset{x}
    ensures r[0] == x || (s != [] && r[0] == s[0])
  {
    if s == [] then [x]
    else if key(s[0]) > key(x) then
      var t := Insert(key, x, s[1..]);
      DescendingCons(key, s[0], t);
      assert s == [s[0]] + s[1..];
      [s[0]] + t
    else
      DescendingCons(key, x, s);
      [x] + s
  }

  /** x lands in front of every element of s that has its key. */
  lemma {:induction false} InsertWithKey<T>(key: T -> int, x: T, s: seq<T>, k: int)
    requires Descending(key, s)
    ensures WithKey(key, k, Insert(key, x, s)) == (if key(x) == k then [x] else []) + WithKey(key, k, s)
  {
    if s != [] && key(s[0]) > key(x) {
      var y, rest := s[0], s[1..];
      assert s == [y] + rest;
      DescendingTail(key, y, rest);
      InsertWithKey(key, x, rest, k);
      InsertWithKeyBehind(key, x, y, rest, k);
    } else {
      InsertFront(key, x, s);
      WithKeyCons(key, k, x, s);
    }
  }

  lemma DescendingTail<T>(key: T -> int, y: T, t: seq<T>)
    requires Descending(key, [y] + t)
    ensures Descending(key, t)
  {
    forall i, j | 0 <= i < j < |t|
      ensures key(t[i]) >= key(t[j])
    {
      assert t[i] == ([y] + t)[i + 1] && t[j] == ([y] + t)[j + 1];
    }
  }

  /** The step of InsertWithKey where x moves behind a head with a larger key. */
  lemma InsertWithKeyBehind<T>(key: T -> int, x: T, y: T, t: seq<T>, k: int)
    requires Descending(key, [y] + t) && Descending(key, t) && key(y) > key(x)
    requires WithKey(key, k, Insert(key, x, t)) == (if key(x) == k then [x] else []) + WithKey(key, k, t)
    ensures WithKey(key, k, Insert(key, x, [y] + t)) == (if key(x) == k then [x] else []) + WithKey(key, k, [y] + t)
  {
    var i := Insert(key, x, t);
    InsertBehind(key, x, y, t);
    WithKeyCons(key, k, y, i);
    WithKeyCons(key, k, y, t);
    if key(x) == k {
      assert WithKey(key, k, [y] + i) == WithKey(key, k, i);
      assert WithKey(key, k, [y] + t) == WithKey(key, k, t);
    } else {
      assert [] + WithKey(key, k, t) == WithKey(key, k, t);
      assert [] + WithKey(key, k, [y] + t) == WithKey(key, k, [y] + t);
    }
  }

  lemma DescendingPrefix<T>(key: T -> int, s: seq<T>, k: int)
    requires Descending(key, s) && 0 <= k <= |s|
    ensures Descending(key, s[..k])
  {
    forall i, j | 0 <= i < j < k
      ensures key(s[..k][i]) >= key(s[..k][j])
    {
      assert s[..k][i] == s[i] && s[..k][j] == s[j];
    }
  }

  lemma ShortDescending<T>(key: T -> int, s: seq<T>)
    requires |s| <= 1
    ensures Descending(key, s)
  {
  }

  /**
   * The first k of a descending list are its top k: each is taken from the
   * list no more often than it occurs there, and nothing left behind has a
   * greater key than anything taken.
   */
  lemma DescendingTop<T>(key: T -> int, s: seq<T>, k: int)
    requires Descending(key, s) && 0 <= k <= |s|
    ensures multiset(s[..k]) <= multiset(s)
    ensures forall x, y :: x in s[..k] && y in multiset(s) - multiset(s[..k]) ==> key(y) <= key(x)
  {
    assert s == s[..k] + s[k..];
    assert multiset(s) - multiset(s[..k]) == multiset(s[k..]);
    forall x, y | x in s[..k] && y in multiset(s) - multiset(s[..k])
      ensures key(y) <= key(x)
    {
      var i :| 0 <= i < k && s[i] == x;
      assert y in s[k..];
      var j :| k <= j < |s| && s[j] == y;
    }
  }

  /** sorted(s, key=key, reverse=True) */
  function SortDesc<T(==)>(key: T -> int, s: seq<T>): (r: seq<T>)
    ensures Descending(key, r)
    ensures multiset(r) == multiset(s)
  {
    if s == [] then []
    else
      assert s == [s[0]] + s[1..];
      Insert(key, s[0], SortDesc(key, s[1..]))
  }

  /**
   * Stability: for every key, the elements carrying it appear in the output
   * in the same order as in the input.
   */
  lemma {:induction false} SortDescStable<T>(key: T -> int, s: seq<T>, k: int)
    ensures WithKey(key, k, SortDesc(key, s)) == WithKey(key, k, s)
  {
    if s != [] {
      SortDescStable(key, s[1..], k);
      InsertWithKey(key, s[0], SortDesc(key, s[1..]), k);
      WithKeyCons(key, k, s[0], s[1..]);
      assert s == [s[0]] + s[1..];
    }
  }

  /** Sorting keeps the length and the elements. */
  lemma SortDescLength<T>(key: T -> int, s: seq<T>)
    ensures |SortDesc(key, s)| == |s|
    ensures forall x :: x in SortDesc(key, s) <==> x in s
  {
    var r := SortDesc(key, s);
    assert |multiset(r)| == |multiset(s)|;
    forall x ensures x in r <==> x in s {
      assert x in r <==> x in multiset(r);
      assert x in s <==> x in multiset(s);
    }
  }

  /** Every element of a subsequence is an element of the whole. */
  lemma {:induction false} SubsequenceMembers<T>(a: seq<T>, b: seq<T>)
    requires SubsequenceOf(a, b)
    ensures forall x :: x in a ==> x in b
    decreases |b|
  {
    if a != [] {
      if a[0] == b[0] {
        SubsequenceMembers(a[1..], b[1..]);
        assert a == [a[0]] + a[1..];
      } else {
        SubsequenceMembers(a, b[1..]);
      }
      assert b == [b[0]] + b[1..];
    }
  }

  /** Deleting elements from a descending sequence leaves it descending. */
  lemma {:induction false} SubsequenceDescending<T>(key: T -> int, a: seq<T>, b: seq<T>)
    requires SubsequenceOf(a, b) && Descending(key, b)
    ensures Descending(key, a)
    decreases |b|
  {
    if a != [] {
      if a[0] == b[0] {
        SubsequenceDescending(key, a[1..], b[1..]);
        SubsequenceMembers(a[1..], b[1..]);
        if |a| > 1 {
          assert a[1] in a[1..];
          assert a[1] in b[1..];
        }
        DescendingCons(key, a[0], a[1..]);
        assert a == [a[0]] + a[1..];
      } else {
        SubsequenceDescending(key, a, b[1..]);
      }
    }
  }

  lemma SortDescCons<T>(key: T -> int, x: T, t: seq<T>)
    ensures SortDesc(key, [x] + t) == Insert(key, x, SortDesc(key, t))
  {
    assert ([x] + t)[0] == x && ([x] + t)[1..] == t;
  }

  lemma InsertFront<T>(key: T -> int, x: T, s: seq<T>)
    requires Descending(key, s)
    requires s == [] || key(s[0]) <= key(x)
    ensures Insert(key, x, s) == [x] + s
  {
  }

  lemma InsertBehind<T>(key: T -> int, x: T, y: T, t: seq<T>)
    requires Descending(key, [y] + t) && Descending(key, t) && key(y) > key(x)
    ensures Insert(key, x, [y] + t) == [y] + Insert(key, x, t)
  {
    assert ([y] + t)[0] == y && ([y] + t)[1..] == t;
  }

  /** A worked case: three elements with distinct keys, middle one newest. */
  lemma SortThree<T>(key: T -> int, a: T, b: T, c: T)
    requires key(a) < key(c) < key(b)
    ensures SortDesc(key, [a, b, c]) == [b, c, a]
  {
    assert [a] + [b, c] == [a, b, c];
    SortDescCons(key, a, [b, c]);
    SortTwo(key, b, c);
    InsertLast(key, a, b, c);
  }

  lemma SortTwo<T>(key: T -> int, b: T, c: T)
    requires key(c) < key(b)
    ensures SortDesc(key, [b, c]) == [b, c]
  {
    assert [c] + [] == [c];
    SortDescCons(key, c, []);
    InsertFront(key, c, []);
    assert [b] + [c] == [b, c];
    SortDescCons(key, b, [c]);
    InsertFront(key, b, [c]);
  }

  lemma InsertLast<T>(key: T -> int, a: T, b: T, c: T)
    requires key(a) < key(c) < key(b)
    ensures Insert(key, a, [b, c]) == [b, c, a]
  {
    assert [b, c][0] == b && [b, c][1..] == [c];
    InsertOne(key, a, c);
    assert [b] + [c, a] == [b, c, a];
  }

  lemma InsertOne<T>(key: T -> int, a: T, c: T)
    requires key(a) < key(c)
    ensures Insert(key, a, [c]) == [c, a]
  {
    assert [c][0] == c && [c][1..] == [];
    assert [c] + [a] == [c, a];
  }
}
