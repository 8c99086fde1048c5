/** Python's `sorted`: a stable sort under a comparison, and the laws its callers rely on. */
module Sorting {
  import opened Collections

  ghost predicate Ordered<T>(s: seq<T>, le: (T, T) -> bool) {
    forall i, j | 0 <= i < j < |s| :: le(s[i], s[j])
  }

  /** `le` is total and transitive on the elements of `s`. */
  ghost predicate Preorder<T>(s: seq<T>, le: (T, T) -> bool) {
    && (forall x, y | x in s && y in s :: le(x, y) || le(y, x))
    && (forall x, y, z | x in s && y in s && z in s :: le(x, y) && le(y, z) ==> le(x, z))
  }

  /** `x` placed before the first element that it does not exceed. */
  function Insert<T>(x: T, s: seq<T>, le: (T, T) -> bool): (r: seq<T>)
    ensures multiset(r) == multiset(s) + multiset{x}
  {
    if s == [] then [x]
    else if le(x, s[0]) then [x] + s
    else
      assert s == [s[0]] + s[1..];
      [s[0]] + Insert(x, s[1..], le)
  }

  function SortBy<T>(s: seq<T>, le: (T, T) -> bool): (r: seq<T>)
    ensures multiset(r) == multiset(s)
    ensures |r| == |s|
  {
    if s == [] then []
    else
      assert s == [s[0]] + s[1..];
      var r := Insert(s[0], SortBy(s[1..], le), le);
      assert |multiset(r)| == |multiset(s)|;
      r
  }

  lemma {:induction false} InsertOrdered<T>(x: T, s: seq<T>, le: (T, T) -> bool)
    requires Preorder([x] + s, le) && Ordered(s, le)
    ensures Ordered(Insert(x, s, le), le)
  {
    if s != [] {
      var all, first := [x] + s, s[0];
      assert x in all && first in all && forall i | 0 <= i < |s| :: s[i] == all[i + 1];
      if le(x, first) {
        forall j | 1 <= j < |s| ensures le(x, s[j]) {
          assert le(first, s[j]) && s[j] in all;
        }
      } else {
        var rest := Insert(x, s[1..], le);
        assert forall y | y in [x] + s[1..] :: y in all;
        InsertOrdered(x, s[1..], le);
        assert le(first, x);
        forall y | y in rest ensures le(first, y) {
          assert y in multiset(rest);
          assert y == x || y in s[1..];
        }
        FirstOrdered(first, rest, le);
      }
    }
  }

  lemma FirstOrdered<T>(first: T, rest: seq<T>, le: (T, T) -> bool)
    requires Ordered(rest, le) && forall y | y in rest :: le(first, y)
    ensures Ordered([first] + rest, le)
  {
  }

  lemma {:induction false} SortByOrdered<T>(s: seq<T>, le: (T, T) -> bool)
    requires Preorder(s, le)
    ensures Ordered(SortBy(s, le), le)
  {
    if s != [] {
      assert forall y | y in s[1..] :: y in s;
      SortByOrdered(s[1..], le);
      var rest := SortBy(s[1..], le);
      forall y | y in [s[0]] + rest ensures y in s {
        if y in rest {
          assert y in multiset(s[1..]);
        }
      }
      InsertOrdered(s[0], rest, le);
    }
  }

  lemma SameMember<T>(s: seq<T>, le: (T, T) -> bool, x: T)
    ensures x in SortBy(s, le) <==> x in s
  {
    assert x in multiset(SortBy(s, le)) <==> x in multiset(s);
  }

  lemma SameElements<T>(s: seq<T>, le: (T, T) -> bool)
    ensures forall x :: x in SortBy(s, le) <==> x in s
  {
    forall x ensures x in SortBy(s, le) <==> x in s {
      assert x in multiset(SortBy(s, le)) <==> x in multiset(s);
    }
  }

  lemma DistinctByMultiset<T>(s: seq<T>, r: seq<T>)
    requires multiset(s) == multiset(r) && Distinct(s)
    ensures Distinct(r)
  {
    forall i, j | 0 <= i < j < |r| ensures r[i] != r[j] {
      if r[i] == r[j] {
        TwicePresent(r, i, j);
        OncePresent(s, r[i]);
      }
    }
  }

  lemma TwicePresent<T>(r: seq<T>, i: nat, j: nat)
    requires i < j < |r| && r[i] == r[j]
    ensures multiset(r)[r[i]] >= 2
  {
    assert r == r[..i] + [r[i]] + r[i + 1..j] + [r[j]] + r[j + 1..];
  }

  lemma {:induction false} OncePresent<T>(s: seq<T>, x: T)
    requires Distinct(s)
    ensures multiset(s)[x] <= 1
  {
    if s != [] {
      assert s == [s[0]] + s[1..];
      OncePresent(s[1..], x);
    }
  }

  /** The head of an ordered list is least in it. */
  lemma HeadLeast<T>(s: seq<T>, x: T, le: (T, T) -> bool)
    requires Ordered(s, le) && x in s
    ensures s[0] == x || le(s[0], x)
  {
  }

  lemma TailMultiset<T>(s: seq<T>)
    requires s != []
    ensures multiset(s[1..]) == multiset(s) - multiset{s[0]}
    ensures forall x | x in s[1..] :: x in s
  {
    assert s == [s[0]] + s[1..];
  }

  /** Under an antisymmetric order the sorted form of a multiset is unique. */
  lemma {:induction false} OrderedUnique<T>(a: seq<T>, b: seq<T>, le: (T, T) -> bool)
    requires multiset(a) == multiset(b) && Ordered(a, le) && Ordered(b, le)
    requires forall x, y | x in a && y in a :: le(x, y) && le(y, x) ==> x == y
    ensures a == b
  {
    assert |multiset(a)| == |a| && |multiset(b)| == |b|;
    if a != [] {
      assert a[0] in multiset(b) && b[0] in multiset(a);
      HeadLeast(a, b[0], le);
      HeadLeast(b, a[0], le);
      assert a[0] == b[0];
      TailMultiset(a);
      TailMultiset(b);
      OrderedUnique(a[1..], b[1..], le);
    }
  }
}
