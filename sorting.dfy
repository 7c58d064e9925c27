/** Python's `sorted(xs, key=k, reverse=True)`: a stable sort into
    descending key order. Elements with equal keys keep the order they had. */
module Sorting {
  import opened Seqs

  predicate SortedDesc<T>(s: seq<T>, key: T -> real) {
    forall i, j :: 0 <= i < j < |s| ==> key(s[i]) >= key(s[j])
  }

  /** Places `x` after every leading element whose key is at least `key(x)`;
      on a list in descending order that is after every such element. */
  function InsertDesc<T>(s: seq<T>, x: T, key: T -> real): (r: seq<T>)
    ensures |r| == |s| + 1
    ensures multiset(r) == multiset(s) + multiset{x}
  {
    if s == [] then [x]
    else if key(s[0]) >= key(x) then
      assert s == [s[0]] + s[1..];
      [s[0]] + InsertDesc(s[1..], x, key)
    else
      [x] + s
  }

  lemma {:induction false} InsertDescBounded<T>(s: seq<T>, x: T, key: T -> real, b: real)
    requires forall j :: 0 <= j < |s| ==> key(s[j]) <= b
    requires key(x) <= b
    ensures forall j :: 0 <= j < |InsertDesc(s, x, key)| ==> key(InsertDesc(s, x, key)[j]) <= b
  {
    if s != [] && key(s[0]) >= key(x) {
      InsertDescBounded(s[1..], x, key, b);
    }
  }

  lemma {:induction false} InsertDescSorted<T>(s: seq<T>, x: T, key: T -> real)
    requires SortedDesc(s, key)
    ensures SortedDesc(InsertDesc(s, x, key), key)
  {
    if s != [] {
      if key(s[0]) >= key(x) {
        InsertDescSorted(s[1..], x, key);
        InsertDescBounded(s[1..], x, key, key(s[0]));
      }
    }
  }

  /** `sorted(s, key=key, reverse=True)`. */
  function SortDesc<T>(s: seq<T>, key: T -> real): (r: seq<T>)
    ensures |r| == |s| && SortedDesc(r, key)
    ensures multiset(r) == multiset(s)
  {
    if s == [] then []
    else
      assert s == s[..|s| - 1] + [s[|s| - 1]];
      InsertDescSorted(SortDesc(s[..|s| - 1], key), s[|s| - 1], key);
      InsertDesc(SortDesc(s[..|s| - 1], key), s[|s| - 1], key)
  }

  /** The elements whose key is `v`, in their order. */
  function KeyIs<T>(key: T -> real, v: real): T -> bool {
    x => key(x) == v
  }

  lemma FilterSingle<T>(x: T, p: T -> bool)
    ensures Filter([x], p) == if p(x) then [x] else []
  {
    assert [x][1..] == [];
  }

  lemma {:induction false} InsertDescKeyOrder<T>(s: seq<T>, x: T, key: T -> real, v: real)
    requires SortedDesc(s, key)
    ensures Filter(InsertDesc(s, x, key), KeyIs(key, v))
         == Filter(s, KeyIs(key, v)) + Filter([x], KeyIs(key, v))
  {
    var p := KeyIs(key, v);
    FilterSingle(x, p);
    if s != [] {
      if key(s[0]) >= key(x) {
        InsertDescKeyOrder(s[1..], x, key, v);
        KeyOrderBehind(s, x, key, p);
      } else {
        KeyOrderFront(s, x, key, v);
      }
    }
  }

  lemma KeyOrderBehind<T>(s: seq<T>, x: T, key: T -> real, p: T -> bool)
    requires s != [] && key(s[0]) >= key(x)
    requires Filter(InsertDesc(s[1..], x, key), p) == Filter(s[1..], p) + Filter([x], p)
    ensures Filter(InsertDesc(s, x, key), p) == Filter(s, p) + Filter([x], p)
  {
    var r := InsertDesc(s, x, key);
    assert r[0] == s[0] && r[1..] == InsertDesc(s[1..], x, key);
    var h: seq<T> := if p(s[0]) then [s[0]] else [];
    var a, b := Filter(s[1..], p), Filter([x], p);
    assert Filter(r, p) == h + (a + b);
    assert Filter(s, p) == h + a;
    ConcatAssoc(h, a, b);
  }

  lemma ConcatAssoc<T>(a: seq<T>, b: seq<T>, c: seq<T>)
    ensures a + (b + c) == (a + b) + c
  {
  }

  lemma KeyOrderFront<T>(s: seq<T>, x: T, key: T -> real, v: real)
    requires SortedDesc(s, key) && s != [] && key(s[0]) < key(x)
    ensures Filter(InsertDesc(s, x, key), KeyIs(key, v))
         == Filter(s, KeyIs(key, v)) + Filter([x], KeyIs(key, v))
  {
    var p := KeyIs(key, v);
    FilterSingle(x, p);
    assert InsertDesc(s, x, key) == [x] + s;
    FilterAppend([x], s, p);
    if key(x) == v {
      NoneSelected(s, p, key, v);
    }
  }

  lemma {:induction false} NoneSelected<T>(s: seq<T>, p: T -> bool, key: T -> real, v: real)
    requires p == KeyIs(key, v)
    requires forall j :: 0 <= j < |s| ==> key(s[j]) < v
    ensures Filter(s, p) == []
  {
    if s != [] {
      NoneSelected(s[1..], p, key, v);
    }
  }

  /** Stability: among elements with the same key, the sorted list keeps the
      input order. */
  lemma {:induction false} SortDescStable<T>(s: seq<T>, key: T -> real, v: real)
    ensures Filter(SortDesc(s, key), KeyIs(key, v)) == Filter(s, KeyIs(key, v))
  {
    if s != [] {
      var init, last := s[..|s| - 1], s[|s| - 1];
      SortDescStable(init, key, v);
      InsertDescKeyOrder(SortDesc(init, key), last, key, v);
      assert s == init + [last];
      FilterAppend(init, [last], KeyIs(key, v));
    }
  }

  /** Sorting a list that is already in descending order changes nothing. */
  lemma {:induction false} SortDescOfSorted<T>(s: seq<T>, key: T -> real)
    requires SortedDesc(s, key)
    ensures SortDesc(s, key) == s
  {
    if s != [] {
      var init, last := s[..|s| - 1], s[|s| - 1];
      assert s == init + [last];
      assert SortDesc(s, key) == InsertDesc(SortDesc(init, key), last, key);
      SortDescOfSorted(init, key);
      AppendLowest(init, last, key);
    }
  }

  lemma {:induction false} AppendLowest<T>(s: seq<T>, x: T, key: T -> real)
    requires SortedDesc(s, key)
    requires forall j :: 0 <= j < |s| ==> key(s[j]) >= key(x)
    ensures InsertDesc(s, x, key) == s + [x]
  {
    if s != [] {
      AppendLowest(s[1..], x, key);
      assert s == [s[0]] + s[1..];
    }
  }

  /** No two elements share their `f`. */
  predicate DistinctBy<T, U(==)>(s: seq<T>, f: T -> U) {
    forall i, j :: 0 <= i < j < |s| ==> f(s[i]) != f(s[j])
  }

  lemma {:induction false} InsertDescDistinct<T, U>(s: seq<T>, x: T, key: T -> real, f: T -> U)
    requires DistinctBy(s, f)
    requires forall j :: 0 <= j < |s| ==> f(s[j]) != f(x)
    ensures DistinctBy(InsertDesc(s, x, key), f)
  {
    if s != [] && key(s[0]) >= key(x) {
      var rest := InsertDesc(s[1..], x, key);
      InsertDescDistinct(s[1..], x, key, f);
      forall j | 0 <= j < |rest|
        ensures f(rest[j]) != f(s[0])
      {
        assert rest[j] in multiset(rest);
        if rest[j] != x {
          assert rest[j] in multiset(s[1..]);
          var k :| 0 <= k < |s[1..]| && s[1..][k] == rest[j];
          assert s[k + 1] == rest[j];
        }
      }
      assert InsertDesc(s, x, key) == [s[0]] + rest;
    }
  }

  /** Sorting keeps distinct elements distinct. */
  lemma {:induction false} SortDescDistinct<T, U>(s: seq<T>, key: T -> real, f: T -> U)
    requires DistinctBy(s, f)
    ensures DistinctBy(SortDesc(s, key), f)
  {
    if s != [] {
      var init, last := s[..|s| - 1], s[|s| - 1];
      SortDescDistinct(init, key, f);
      var sorted := SortDesc(init, key);
      forall j | 0 <= j < |sorted|
        ensures f(sorted[j]) != f(last)
      {
        assert sorted[j] in multiset(sorted);
        var k :| 0 <= k < |init| && init[k] == sorted[j];
      }
      InsertDescDistinct(sorted, last, key, f);
    }
  }
}
