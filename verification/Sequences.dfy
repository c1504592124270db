/** Facts about sequences that several components share: permutations, distinctness, sorting. */
module Sequences {

  ghost predicate Distinct<T>(s: seq<T>) {
    forall i, j | 0 <= i < j < |s| :: s[i] != s[j]
  }

  lemma {:induction false} DistinctCounts<T>(s: seq<T>, x: T)
    requires Distinct(s)
    ensures multiset(s)[x] <= 1
  {
    if s != [] {
      DistinctCounts(s[1..], x);
      assert s == [s[0]] + s[1..];
    }
  }

  lemma RepeatCounts<T>(s: seq<T>, i: nat, j: nat)
    requires i < j < |s| && s[i] == s[j]
    ensures multiset(s)[s[i]] >= 2
  {
    assert s == s[..j] + s[j..];
    assert s[i] in s[..j] && s[j] in s[j..];
    assert s[..j][i] == s[i] && s[j..][0] == s[j];
  }

  lemma PermutationDistinct<T>(s: seq<T>, t: seq<T>)
    requires multiset(s) == multiset(t) && Distinct(s)
    ensures Distinct(t)
  {
    forall i, j | 0 <= i < j < |t|
      ensures t[i] != t[j]
    {
      DistinctCounts(s, t[i]);
      if t[i] == t[j] {
        RepeatCounts(t, i, j);
      }
    }
  }

  /** Distinct numbers below `n` are at most `n` many. */
  lemma {:induction false} Pigeonhole(s: seq<nat>, n: nat)
    requires Distinct(s) && forall i | 0 <= i < |s| :: s[i] < n
    ensures |s| <= n
  {
    if s == [] {
    } else if exists k :: 0 <= k < |s| && s[k] == n - 1 {
      var k :| 0 <= k < |s| && s[k] == n - 1;
      Pigeonhole(s[..k] + s[k + 1..], n - 1);
    } else {
      assert s[0] < n;
      Pigeonhole(s, n - 1);
    }
  }

  /** A sequence that holds every number below `n` has at least `n` elements. */
  lemma {:induction false} CoverLength(s: seq<nat>, n: nat)
    requires forall x | 0 <= x < n :: x in s
    ensures |s| >= n
  {
    if n > 0 {
      assert n - 1 in s;
      var k :| 0 <= k < |s| && s[k] == n - 1;
      var rest := s[..k] + s[k + 1..];
      forall x | 0 <= x < n - 1
        ensures x in rest
      {
        assert x in s;
        var j :| 0 <= j < |s| && s[j] == x;
        assert rest[if j < k then j else j - 1] == x;
      }
      CoverLength(rest, n - 1);
    }
  }

  /** A sequence of `n` distinct numbers below `n` holds all of them. */
  lemma AllPigeonholes(s: seq<nat>, n: nat, x: nat)
    requires Distinct(s) && |s| == n && x < n && forall i | 0 <= i < |s| :: s[i] < n
    ensures x in s
  {
    if x !in s {
      Pigeonhole(s + [x], n);
    }
  }

  // ---------------------------------------------------------------- sorting

  ghost predicate SortedBy<T>(s: seq<T>, key: T -> int) {
    forall i, j | 0 <= i < j < |s| :: key(s[i]) <= key(s[j])
  }

  function InsertionPoint<T>(x: T, s: seq<T>, key: T -> int): (k: nat)
    ensures k <= |s|
    ensures forall i | 0 <= i < k :: key(s[i]) <= key(x)
    ensures k < |s| ==> key(x) < key(s[k])
  {
    if s == [] || key(x) < key(s[0]) then 0 else 1 + InsertionPoint(x, s[1..], key)
  }

  function Insert<T>(x: T, s: seq<T>, key: T -> int): seq<T> {
    var k := InsertionPoint(x, s, key);
    s[..k] + [x] + s[k..]
  }

  lemma InsertSorts<T>(x: T, s: seq<T>, key: T -> int)
    requires SortedBy(s, key)
    ensures SortedBy(Insert(x, s, key), key)
  {
    var k, r := InsertionPoint(x, s, key), Insert(x, s, key);
    forall i, j | 0 <= i < j < |r|
      ensures key(r[i]) <= key(r[j])
    {
      assert j < k ==> r[j] == s[j];
      assert i < k ==> r[i] == s[i];
      assert j > k ==> r[j] == s[j - 1] && key(x) < key(s[k]) <= key(s[j - 1]);
      assert i > k ==> r[i] == s[i - 1];
    }
  }

  lemma InsertPermutes<T>(x: T, s: seq<T>, key: T -> int)
    ensures multiset(Insert(x, s, key)) == multiset{x} + multiset(s)
  {
    var k := InsertionPoint(x, s, key);
    assert s == s[..k] + s[k..];
  }

  /** A stable sort by `key`. */
  function SortBy<T>(s: seq<T>, key: T -> int): (r: seq<T>)
    ensures SortedBy(r, key) && multiset(r) == multiset(s) && |r| == |s|
  {
    if s == [] then []
    else
      var sorted := SortBy(s[..|s| - 1], key);
      var x := s[|s| - 1];
      assert s == s[..|s| - 1] + [x];
      InsertSorts(x, sorted, key);
      InsertPermutes(x, sorted, key);
      Insert(x, sorted, key)
  }
}
