/** Python's `sorted(xs, key=...)`: a stable sort of (key, item) pairs by key under an ordering
    `le`. Insertion sort is the reference: an element goes in front of the first element whose
    key it does not exceed, so elements with equal keys keep their input order. */
module Sorting {

  ghost predicate TotalPreorder<K(!new)>(le: (K, K) -> bool)
  {
    (forall a, b :: le(a, b) || le(b, a)) &&
    (forall a, b, c :: le(a, b) && le(b, c) ==> le(a, c))
  }

  ghost predicate Transitive<K(!new)>(le: (K, K) -> bool)
  {
    forall a, b, c :: le(a, b) && le(b, c) ==> le(a, c)
  }

  predicate SortedBy<K, T>(xs: seq<(K, T)>, le: (K, K) -> bool)
  {
    forall i, j :: 0 <= i < j < |xs| ==> le(xs[i].0, xs[j].0)
  }

  function Insert<K, T>(x: (K, T), s: seq<(K, T)>, le: (K, K) -> bool): seq<(K, T)>
  {
    if s == [] then [x]
    else if le(x.0, s[0].0) then [x] + s
    else [s[0]] + Insert(x, s[1..], le)
  }

  function SortByKey<K, T>(xs: seq<(K, T)>, le: (K, K) -> bool): seq<(K, T)>
  {
    if xs == [] then [] else Insert(xs[0], SortByKey(xs[1..], le), le)
  }

  lemma {:induction false} InsertPerm<K, T>(x: (K, T), s: seq<(K, T)>, le: (K, K) -> bool)
    ensures multiset(Insert(x, s, le)) == multiset(s) + multiset{x}
    ensures |Insert(x, s, le)| == |s| + 1
  {
    if s != [] && !le(x.0, s[0].0) {
      InsertPerm(x, s[1..], le);
      assert s == [s[0]] + s[1..];
    }
  }

  lemma {:induction false} InsertSorted<K(!new), T>(x: (K, T), s: seq<(K, T)>, le: (K, K) -> bool)
    requires TotalPreorder(le) && SortedBy(s, le)
    ensures SortedBy(Insert(x, s, le), le)
  {
    if s != [] && !le(x.0, s[0].0) {
      assert SortedBy(s[1..], le);
      InsertSorted(x, s[1..], le);
      InsertPerm(x, s[1..], le);
      var t := Insert(x, s[1..], le);
      forall j | 0 <= j < |t| ensures le(s[0].0, t[j].0) {
        assert t[j] in multiset(t);
        assert t[j] in multiset(s[1..]) + multiset{x};
        if t[j] != x {
          assert t[j] in multiset(s[1..]);
          var m :| 0 <= m < |s[1..]| && s[1..][m] == t[j];
          assert s[1 + m] == t[j];
        }
      }
    }
  }

  lemma {:induction false} SortPerm<K, T>(xs: seq<(K, T)>, le: (K, K) -> bool)
    ensures multiset(SortByKey(xs, le)) == multiset(xs)
    ensures |SortByKey(xs, le)| == |xs|
  {
    if xs != [] {
      SortPerm(xs[1..], le);
      InsertPerm(xs[0], SortByKey(xs[1..], le), le);
      assert xs == [xs[0]] + xs[1..];
    }
  }

  lemma {:induction false} SortSorted<K(!new), T>(xs: seq<(K, T)>, le: (K, K) -> bool)
    requires TotalPreorder(le)
    ensures SortedBy(SortByKey(xs, le), le)
  {
    if xs != [] {
      SortSorted(xs[1..], le);
      InsertSorted(xs[0], SortByKey(xs[1..], le), le);
    }
  }

  /** Keys `a` and `b` compare equal: neither sorts strictly before the other. */
  predicate Equiv<K>(a: K, b: K, le: (K, K) -> bool)
  {
    le(a, b) && le(b, a)
  }

  /** The elements whose key compares equal to `k`, in their order in `xs`. */
  function EqKey<K, T>(xs: seq<(K, T)>, k: K, le: (K, K) -> bool): (es: seq<(K, T)>)
    ensures |es| <= |xs|
  {
    if xs == [] then []
    else (if Equiv(xs[0].0, k, le) then [xs[0]] else []) + EqKey(xs[1..], k, le)
  }

  /** `Insert` puts `x` in front of every element whose key compares equal to its own. */
  lemma {:induction false} InsertEqKey<K(!new), T>(x: (K, T), s: seq<(K, T)>, k: K, le: (K, K) -> bool)
    requires Transitive(le)
    ensures EqKey(Insert(x, s, le), k, le)
         == (if Equiv(x.0, k, le) then [x] else []) + EqKey(s, k, le)
  {
    if s == [] {
      assert EqKey([x], k, le) == (if Equiv(x.0, k, le) then [x] else []) + EqKey([], k, le);
    } else if le(x.0, s[0].0) {
      assert ([x] + s)[1..] == s;
    } else {
      var t := Insert(x, s[1..], le);
      InsertEqKey(x, s[1..], k, le);
      assert ([s[0]] + t)[1..] == t;
      assert EqKey(s, k, le)
          == (if Equiv(s[0].0, k, le) then [s[0]] else []) + EqKey(s[1..], k, le);
      if Equiv(x.0, k, le) {
        // `s[0]` sorts strictly before `x`, so its key cannot equal `k`.
        SkippedNotEquiv(x.0, s[0].0, k, le);
        assert EqKey([s[0]] + t, k, le) == EqKey(t, k, le);
      } else {
        assert EqKey([s[0]] + t, k, le)
            == (if Equiv(s[0].0, k, le) then [s[0]] else []) + EqKey(t, k, le);
      }
    }
  }

  lemma SkippedNotEquiv<K(!new)>(a: K, b: K, k: K, le: (K, K) -> bool)
    requires Transitive(le)
    requires Equiv(a, k, le) && !le(a, b)
    ensures !Equiv(b, k, le)
  {
  }

  /** Sorting is stable: the elements of each key class come out in their input order. */
  lemma {:induction false} SortStable<K(!new), T>(xs: seq<(K, T)>, k: K, le: (K, K) -> bool)
    requires TotalPreorder(le)
    ensures EqKey(SortByKey(xs, le), k, le) == EqKey(xs, k, le)
  {
    if xs != [] {
      SortStable(xs[1..], k, le);
      InsertEqKey(xs[0], SortByKey(xs[1..], le), k, le);
    }
  }

  /** `SortByKey` returns a permutation of its input, ordered by key; `SortStable` adds that it
      keeps the input order among elements whose keys compare equal. */
  lemma SortCorrect<K(!new), T>(xs: seq<(K, T)>, le: (K, K) -> bool)
    requires TotalPreorder(le)
    ensures SortedBy(SortByKey(xs, le), le)
    ensures multiset(SortByKey(xs, le)) == multiset(xs)
    ensures |SortByKey(xs, le)| == |xs|
  {
    SortPerm(xs, le);
    SortSorted(xs, le);
  }

  /** The items of a keyed sequence, keys dropped. */
  function Items<K, T>(xs: seq<(K, T)>): (ts: seq<T>)
    ensures |ts| == |xs| && forall i :: 0 <= i < |xs| ==> ts[i] == xs[i].1
  {
    if xs == [] then [] else [xs[0].1] + Items(xs[1..])
  }

  lemma {:induction false} InsertItems<K, T>(x: (K, T), s: seq<(K, T)>, le: (K, K) -> bool)
    ensures multiset(Items(Insert(x, s, le))) == multiset(Items(s)) + multiset{x.1}
  {
    if s == [] {
    } else if le(x.0, s[0].0) {
      assert Items([x] + s) == [x.1] + Items(s);
    } else {
      var t := Insert(x, s[1..], le);
      InsertItems(x, s[1..], le);
      assert Items([s[0]] + t) == [s[0].1] + Items(t);
      assert Items(s) == [s[0].1] + Items(s[1..]);
    }
  }

  /** Sorting permutes the items along with their keys. */
  lemma {:induction false} SortItemsPerm<K, T>(xs: seq<(K, T)>, le: (K, K) -> bool)
    ensures multiset(Items(SortByKey(xs, le))) == multiset(Items(xs))
  {
    if xs != [] {
      SortItemsPerm(xs[1..], le);
      InsertItems(xs[0], SortByKey(xs[1..], le), le);
      assert Items(xs) == [xs[0].1] + Items(xs[1..]);
    }
  }

  /** Sorting an already sorted sequence changes nothing. */
  lemma {:induction false} SortSortedIdentity<K, T>(xs: seq<(K, T)>, le: (K, K) -> bool)
    requires SortedBy(xs, le)
    ensures SortByKey(xs, le) == xs
  {
    if xs != [] {
      assert SortedBy(xs[1..], le);
      SortSortedIdentity(xs[1..], le);
      if |xs| > 1 {
        assert le(xs[0].0, xs[1].0);
      }
      assert xs == [xs[0]] + xs[1..];
    }
  }
}
