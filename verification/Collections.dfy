/** Options, sequences without repeats, and insertion-ordered dictionaries. */
module Collections {
  datatype Option<+T> = None | Some(value: T)

  ghost predicate Distinct<T>(s: seq<T>) {
    forall i, j | 0 <= i < j < |s| :: s[i] != s[j]
  }

  /** `s` with its first `x` removed. */
  function Without<T(==)>(s: seq<T>, x: T): seq<T> {
    if s == [] then [] else if s[0] == x then s[1..] else [s[0]] + Without(s[1..], x)
  }

  /** Dropping the element at `k` moves the later ones down by one. */
  function AllBut<T>(s: seq<T>, k: nat): (r: seq<T>)
    requires k < |s|
    ensures |r| == |s| - 1 && forall j | 0 <= j < |r| :: r[j] == if j < k then s[j] else s[j + 1]
  {
    s[..k] + s[k + 1..]
  }

  lemma AllButDistinct<T>(s: seq<T>, k: nat)
    requires Distinct(s) && k < |s|
    ensures Distinct(AllBut(s, k)) && s[k] !in AllBut(s, k)
  {
  }

  lemma AllButLast<T>(s: seq<T>)
    requires s != []
    ensures AllBut(s, |s| - 1) == s[..|s| - 1]
  {
  }

  lemma AllButSnoc<T>(s: seq<T>, k: nat)
    requires k < |s| - 1
    ensures AllBut(s, k) == AllBut(s[..|s| - 1], k) + [s[|s| - 1]]
  {
  }

  lemma {:induction false} WithoutAt<T>(s: seq<T>, k: nat)
    requires Distinct(s) && k < |s|
    ensures Without(s, s[k]) == AllBut(s, k)
  {
    if k == 0 {
      assert AllBut(s, 0) == s[1..];
    } else {
      assert s[0] != s[k] && s[1..][k - 1] == s[k];
      WithoutAt(s[1..], k - 1);
      assert AllBut(s, k) == [s[0]] + AllBut(s[1..], k - 1);
    }
  }

  lemma ListedAbsent<T>(s: seq<T>, x: T)
    requires Distinct(s) && x !in s
    ensures Distinct(s + [x])
  {
  }

  lemma {:induction false} WithoutAbsent<T>(s: seq<T>, x: T)
    requires x !in s
    ensures Without(s, x) == s
  {
    if s != [] {
      assert s[0] in s;
      WithoutAbsent(s[1..], x);
    }
  }

  lemma WithoutDistinct<T>(s: seq<T>, x: T)
    requires Distinct(s)
    ensures Distinct(Without(s, x)) && x !in Without(s, x)
    ensures forall y :: y in Without(s, x) <==> y in s && y != x
  {
    hide Without;
    if x in s {
      var k :| 0 <= k < |s| && s[k] == x;
      WithoutAt(s, k);
      AllButDistinct(s, k);
      hide Distinct;
      forall y ensures y in AllBut(s, k) <==> y in s && y != x {
        if y in s && y != x {
          var i :| 0 <= i < |s| && s[i] == y;
          assert AllBut(s, k)[if i < k then i else i - 1] == y;
        }
      }
    } else {
      WithoutAbsent(s, x);
    }
  }

  /** Distinct elements of a set number at most its size. */
  lemma {:induction false} DistinctBound<T>(s: seq<T>, all: set<T>)
    requires Distinct(s) && forall x | x in s :: x in all
    ensures |s| <= |all|
  {
    if s != [] {
      DistinctBound(s[1..], all - {s[0]});
    }
  }

  /** A Python `dict`: a map together with its iteration order. */
  datatype Dict<!K(==), +V> = Dict(keys: seq<K>, entries: map<K, V>) {
    ghost predicate Valid() {
      Distinct(keys) && (forall k | k in keys :: k in entries) && forall k | k in entries :: k in keys
    }

    /** `d[k] = v`: an existing key keeps its place, a new one goes last. */
    function Put(k: K, v: V): (d: Dict<K, V>)
      ensures d.entries == entries[k := v]
      ensures Valid() ==> d.Valid()
    {
      Dict(if k in entries then keys else keys + [k], entries[k := v])
    }

    /** `d.pop(k, None)` */
    function Pop(k: K): (d: Dict<K, V>)
      ensures d.entries == entries - {k}
      ensures Valid() ==> d.Valid()
    {
      assert Valid() ==> Dict(Without(keys, k), entries - {k}).Valid() by {
        if Valid() {
          WithoutDistinct(keys, k);
        }
      }
      Dict(Without(keys, k), entries - {k})
    }
  }
}
