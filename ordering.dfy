/** The order pandas puts group keys in: strings compared code point by code
    point, a proper prefix first. `groupby` lists each distinct key once, in
    that order. */
module Ordering {

  /** `a < b` on Python strings. */
  predicate Less(a: string, b: string)
    decreases |a|
  {
    if a == [] then b != []
    else if b == [] then false
    else a[0] < b[0] || (a[0] == b[0] && Less(a[1..], b[1..]))
  }

  lemma {:induction false} LessIrreflexive(a: string)
    ensures !Less(a, a)
    decreases |a|
  {
    if a != [] {
      LessIrreflexive(a[1..]);
    }
  }

  lemma {:induction false} LessTransitive(a: string, b: string, c: string)
    requires Less(a, b) && Less(b, c)
    ensures Less(a, c)
    decreases |a|
  {
    if a != [] && b != [] && c != [] && a[0] == b[0] && b[0] == c[0] {
      LessTransitive(a[1..], b[1..], c[1..]);
    }
  }

  /** Two different strings are ordered one way or the other, never both. */
  lemma {:induction false} LessTotal(a: string, b: string)
    ensures a != b ==> Less(a, b) || Less(b, a)
    ensures !(Less(a, b) && Less(b, a))
    decreases |a|
  {
    if a != [] && b != [] && a[0] == b[0] {
      LessTotal(a[1..], b[1..]);
      if a != b {
        assert a == [a[0]] + a[1..] && b == [b[0]] + b[1..];
        assert a[1..] != b[1..];
      }
    }
  }

  predicate StrictlyIncreasing(s: seq<string>) {
    forall i, j :: 0 <= i < j < |s| ==> Less(s[i], s[j])
  }

  /** Adding one key to an increasing list of distinct keys. */
  function Insert(sorted: seq<string>, c: string): (r: seq<string>)
    requires StrictlyIncreasing(sorted)
    ensures StrictlyIncreasing(r)
    ensures forall x :: x in r <==> x in sorted || x == c
  {
    if sorted == [] then [c]
    else if c == sorted[0] then sorted
    else if Less(c, sorted[0]) then
      InsertFront(sorted, c);
      [c] + sorted
    else
      var rest := Insert(sorted[1..], c);
      InsertBehind(sorted, c, rest);
      [sorted[0]] + rest
  }

  lemma InsertFront(sorted: seq<string>, c: string)
    requires StrictlyIncreasing(sorted) && sorted != [] && Less(c, sorted[0])
    ensures StrictlyIncreasing([c] + sorted)
  {
    forall j | 0 <= j < |sorted|
      ensures Less(c, sorted[j])
    {
      if j > 0 {
        LessTransitive(c, sorted[0], sorted[j]);
      }
    }
    var r := [c] + sorted;
    forall i, j | 0 <= i < j < |r|
      ensures Less(r[i], r[j])
    {
      assert r[j] == sorted[j - 1];
      if i > 0 {
        assert r[i] == sorted[i - 1];
      }
    }
  }

  lemma InsertBehind(sorted: seq<string>, c: string, rest: seq<string>)
    requires StrictlyIncreasing(sorted) && sorted != []
    requires c != sorted[0] && !Less(c, sorted[0])
    requires StrictlyIncreasing(rest)
    requires forall x :: x in rest <==> x in sorted[1..] || x == c
    ensures StrictlyIncreasing([sorted[0]] + rest)
  {
    LessTotal(c, sorted[0]);
    forall j | 0 <= j < |rest|
      ensures Less(sorted[0], rest[j])
    {
      if rest[j] != c {
        assert rest[j] in sorted[1..];
      }
    }
  }

  /** The distinct keys of `codes` in ascending order, as `groupby` lists them. */
  function SortedKeys(codes: seq<string>): (r: seq<string>)
    ensures StrictlyIncreasing(r)
    ensures forall x :: x in r <==> x in codes
  {
    if codes == [] then []
    else Insert(SortedKeys(codes[..|codes| - 1]), codes[|codes| - 1])
  }

  /** Increasing lists of distinct keys are determined by their keys. */
  lemma {:induction false} IncreasingUnique(a: seq<string>, b: seq<string>)
    requires StrictlyIncreasing(a) && StrictlyIncreasing(b)
    requires forall x :: x in a <==> x in b
    ensures a == b
    decreases |a|
  {
    assert a != [] ==> a[0] in a;
    assert b != [] ==> b[0] in b;
    if a != [] && b != [] {
      if a[0] != b[0] {
        var i :| 0 <= i < |b| && b[i] == a[0];
        var j :| 0 <= j < |a| && a[j] == b[0];
        assert Less(b[0], a[0]);
        assert Less(a[0], b[0]);
        LessTotal(a[0], b[0]);
        assert false;
      }
      forall x
        ensures x in a[1..] <==> x in b[1..]
      {
        if x in a[1..] {
          var k :| 0 <= k < |a[1..]| && a[1..][k] == x;
          assert Less(a[0], a[k + 1]);
          LessIrreflexive(a[0]);
          assert x in b && x != b[0];
          var m :| 0 <= m < |b| && b[m] == x;
          assert b[1..][m - 1] == x;
        }
        if x in b[1..] {
          var k :| 0 <= k < |b[1..]| && b[1..][k] == x;
          assert Less(b[0], b[k + 1]);
          LessIrreflexive(b[0]);
          assert x in a && x != a[0];
          var m :| 0 <= m < |a| && a[m] == x;
          assert a[1..][m - 1] == x;
        }
      }
      IncreasingUnique(a[1..], b[1..]);
      assert a == [a[0]] + a[1..] && b == [b[0]] + b[1..];
    }
  }

  /** The key list only depends on which keys occur. */
  lemma SortedKeysBySet(a: seq<string>, b: seq<string>)
    requires forall x :: x in a <==> x in b
    ensures SortedKeys(a) == SortedKeys(b)
  {
    IncreasingUnique(SortedKeys(a), SortedKeys(b));
  }
}
