/**
 * Sequence helpers shared by the two jobs: Python list comprehensions with
 * an `if` (Filter), "append unless already present" (Distinct) and slicing
 * to a quota (Take).
 */
module Seqs {

  /** `a` can be obtained from `b` by deleting elements (order kept). */
  predicate SubsequenceOf<T(==)>(a: seq<T>, b: seq<T>)
    decreases |b|
  {
    a == [] || (b != [] && if a[0] == b[0] then SubsequenceOf(a[1..], b[1..]) else SubsequenceOf(a, b[1..]))
  }

  /** [x for x in s if p(x)] */
  function Filter<T(!new)>(p: T -> bool, s: seq<T>): (r: seq<T>)
    ensures |r| <= |s|
    ensures forall x :: x in r <==> x in s && p(x)
    ensures SubsequenceOf(r, s)
  {
    if s == [] then []
    else if p(s[0]) then [s[0]] + Filter(p, s[1..])
    else
      var r := Filter(p, s[1..]);
      assert r != [] ==> r[0] != s[0] by {
        if r != [] { assert r[0] in r; }
      }
      r
  }

  lemma {:induction false} FilterAppend<T(!new)>(p: T -> bool, a: seq<T>, b: seq<T>)
    ensures Filter(p, a + b) == Filter(p, a) + Filter(p, b)
  {
    if a == [] {
      assert a + b == b;
    } else {
      assert (a + b)[1..] == a[1..] + b;
      FilterAppend(p, a[1..], b);
    }
  }

  /** Filtering one more element appends it exactly when it passes. */
  lemma FilterSnoc<T(!new)>(p: T -> bool, a: seq<T>, x: T)
    ensures Filter(p, a + [x]) == Filter(p, a) + if p(x) then [x] else []
  {
    FilterAppend(p, a, [x]);
  }

  lemma FilterNone<T(!new)>(p: T -> bool, s: seq<T>)
    requires forall x :: x in s ==> !p(x)
    ensures Filter(p, s) == []
  {
    if Filter(p, s) != [] {
      assert Filter(p, s)[0] in Filter(p, s);
    }
  }

  /** A worked case: filtering three elements of which the first fails. */
  lemma FilterThree<T(!new)>(p: T -> bool, a: T, b: T, c: T)
    requires !p(a) && p(b) && p(c)
    ensures Filter(p, [a, b, c]) == [b, c]
  {
    assert [a, b, c][1..] == [b, c] && [b, c][1..] == [c] && [c][1..] == [];
    assert Filter(p, [c]) == [c];
    assert Filter(p, [b, c]) == [b] + [c];
  }

  /** The elements of a sequence, as a set. */
  function Elems<T(!new)>(s: seq<T>): (e: set<T>)
    ensures forall x :: x in e <==> x in s
  {
    set x | x in s
  }

  predicate NoDuplicates<T(==)>(s: seq<T>)
  {
    forall i, j :: 0 <= i < j < |s| ==> s[i] != s[j]
  }

  /**
   * The elements of s, in order, that are neither in `seen` nor occur
   * earlier in s: what `if x not in chosen: chosen.append(x)` adds.
   * The contract gives the members; the first-seen order is what
   * DistinctSnoc states (offering x appends it exactly when it is new),
   * which together with Distinct([], seen) == [] fixes the result.
   */
  function Distinct<T(!new)>(s: seq<T>, seen: set<T>): (r: seq<T>)
    ensures forall x :: x in r <==> x in s && x !in seen
    ensures NoDuplicates(r)
    ensures SubsequenceOf(r, s)
  {
    if s == [] then []
    else if s[0] in seen then
      var r := Distinct(s[1..], seen);
      assert r != [] ==> r[0] != s[0] by {
        if r != [] { assert r[0] in r; }
      }
      r
    else
      var t := Distinct(s[1..], seen + {s[0]});
      assert s[0] !in t;
      [s[0]] + t
  }

  lemma {:induction false} DistinctAppend<T(!new)>(a: seq<T>, b: seq<T>, seen: set<T>)
    ensures Distinct(a + b, seen) == Distinct(a, seen) + Distinct(b, seen + Elems(a))
  {
    if a == [] {
      assert a + b == b;
      assert seen + Elems(a) == seen;
    } else {
      assert (a + b)[0] == a[0];
      assert (a + b)[1..] == a[1..] + b;
      if a[0] in seen {
        DistinctAppend(a[1..], b, seen);
        assert seen + Elems(a[1..]) == seen + Elems(a);
      } else {
        DistinctAppend(a[1..], b, seen + {a[0]});
        assert seen + {a[0]} + Elems(a[1..]) == seen + Elems(a);
      }
    }
  }

  /** Offering one more element appends it exactly when it is new. */
  lemma DistinctSnoc<T(!new)>(a: seq<T>, x: T, seen: set<T>)
    ensures Distinct(a + [x], seen) == Distinct(a, seen) + if x in seen || x in a then [] else [x]
  {
    DistinctAppend(a, [x], seen);
    assert [x][1..] == [];
  }

  /** s[:k] for a quota k that may be negative. */
  function Take<T>(s: seq<T>, k: int): (r: seq<T>)
    ensures |r| == if k <= 0 then 0 else if k < |s| then k else |s|
    ensures r == s[..|r|]
  {
    if k <= 0 then [] else if k < |s| then s[..k] else s
  }

  /** A prefix holds only elements of the whole, and no repeats when the whole has none. */
  lemma TakeMembers<T>(s: seq<T>, k: int)
    ensures forall x :: x in Take(s, k) ==> x in s
    ensures NoDuplicates(s) ==> NoDuplicates(Take(s, k))
  {
    var t := Take(s, k);
    forall x | x in t
      ensures x in s
    {
      var i :| 0 <= i < |t| && t[i] == x;
      assert s[i] == x;
    }
  }

  /** Taking exactly the length of a prefix gives back that prefix. */
  lemma TakeAppend<T>(a: seq<T>, b: seq<T>)
    ensures Take(a + b, |a|) == a
  {
    assert (a + b)[..|a|] == a;
  }

  /** [f(x) for x in s] */
  function Map<T, U>(f: T -> U, s: seq<T>): (r: seq<U>)
    ensures |r| == |s|
    ensures forall i :: 0 <= i < |s| ==> r[i] == f(s[i])
  {
    seq(|s|, i requires 0 <= i < |s| => f(s[i]))
  }

  lemma MapSnoc<T, U>(f: T -> U, s: seq<T>, x: T)
    ensures Map(f, s + [x]) == Map(f, s) + [f(x)]
  {
    assert |Map(f, s + [x])| == |Map(f, s) + [f(x)]|;
  }

  lemma AppendAssoc<T>(a: seq<T>, b: seq<T>, c: seq<T>)
    ensures (a + b) + c == a + (b + c)
  {
  }

  lemma TakeSnoc<T>(s: seq<T>, j: int)
    requires 0 <= j < |s|
    ensures s[..j + 1] == s[..j] + [s[j]]
  {
  }

  lemma TakeDrop<T>(s: seq<T>, j: int)
    requires 0 <= j <= |s|
    ensures s == s[..j] + s[j..]
  {
  }
}
