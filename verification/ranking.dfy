/**
 * `ORDER BY <timestamp> DESC LIMIT n` over the rows a query selected. SQLite
 * leaves the order of rows with equal timestamps undefined, so the handlers are
 * specified only through IsNewest; Newest is one ordering that meets it.
 */
module Ranking {

  /** Non-increasing by `key`. */
  ghost predicate SortedDesc<T>(s: seq<T>, key: T -> int)
  {
    forall i, j :: 0 <= i < j < |s| ==> key(s[i]) >= key(s[j])
  }

  /**
   * `r` is a valid answer of ORDER BY key DESC LIMIT `limit` over the rows `s`:
   * min(limit, |s|) of them, newest first, all of them when fewer than `limit`
   * exist, and every row left out no newer than the last one returned.
   */
  ghost predicate IsNewest<T>(r: seq<T>, s: seq<T>, key: T -> int, limit: nat)
  {
    && |r| == (if |s| < limit then |s| else limit)
    && multiset(r) <= multiset(s)
    && SortedDesc(r, key)
    && (|r| < limit ==> multiset(r) == multiset(s))
    && (|r| > 0 ==> forall x :: x in multiset(s) - multiset(r) ==> key(x) <= key(r[|r| - 1]))
  }

  /** Every element of a sequence whose keys are all at most `bound` has key at most `bound`. */
  lemma KeyBound<T>(s: seq<T>, key: T -> int, bound: int, y: T)
    requires forall j :: 0 <= j < |s| ==> key(s[j]) <= bound
    requires y in multiset(s)
    ensures key(y) <= bound
  {
  }

  /** Inserting a row no newer than `bound` among rows no newer than `bound` keeps them so. */
  lemma InsertBelow<T>(x: T, s: seq<T>, key: T -> int, bound: int, r: seq<T>)
    requires key(x) <= bound && forall j :: 0 <= j < |s| ==> key(s[j]) <= bound
    requires multiset(r) == multiset(s) + multiset{x}
    ensures forall j :: 0 <= j < |r| ==> key(r[j]) <= bound
  {
    forall j | 0 <= j < |r| ensures key(r[j]) <= bound {
      assert r[j] in multiset(r);
      if r[j] != x {
        KeyBound(s, key, bound, r[j]);
      }
    }
  }

  /** Insertion of `x` into a sequence sorted newest first. */
  function InsertDesc<T>(x: T, s: seq<T>, key: T -> int): (r: seq<T>)
    requires SortedDesc(s, key)
    ensures multiset(r) == multiset(s) + multiset{x}
    ensures SortedDesc(r, key)
  {
    if |s| == 0 then [x]
    else if key(x) >= key(s[0]) then [x] + s
    else
      assert s == [s[0]] + s[1..];
      var rest := InsertDesc(x, s[1..], key);
      InsertBelow(x, s[1..], key, key(s[0]), rest);
      [s[0]] + rest
  }

  /** The rows in non-increasing key order: a sorted permutation of `s`. */
  function SortDesc<T>(s: seq<T>, key: T -> int): (r: seq<T>)
    ensures multiset(r) == multiset(s)
    ensures SortedDesc(r, key)
  {
    if |s| == 0 then []
    else
      assert s == [s[0]] + s[1..];
      InsertDesc(s[0], SortDesc(s[1..], key), key)
  }

  /** Cutting a sequence after `k` rows splits its multiset. */
  lemma SplitMultiset<T>(s: seq<T>, k: nat)
    requires k <= |s|
    ensures multiset(s) == multiset(s[..k]) + multiset(s[k..])
  {
    assert s == s[..k] + s[k..];
  }

  /** A row left out of the first `k` of a sorted sequence is no newer than row k - 1. */
  lemma TailBelow<T>(sorted: seq<T>, key: T -> int, k: nat, x: T)
    requires SortedDesc(sorted, key) && 0 < k <= |sorted|
    requires x in multiset(sorted) - multiset(sorted[..k])
    ensures key(x) <= key(sorted[k - 1])
  {
    SplitMultiset(sorted, k);
    var rest := sorted[k..];
    assert x in multiset(rest);
    forall j | 0 <= j < |rest| ensures key(rest[j]) <= key(sorted[k - 1]) {
      assert rest[j] == sorted[k + j];
    }
    KeyBound(rest, key, key(sorted[k - 1]), x);
  }

  /** A prefix of a sorted sequence is sorted. */
  lemma PrefixSorted<T>(sorted: seq<T>, key: T -> int, k: nat)
    requires SortedDesc(sorted, key) && k <= |sorted|
    ensures SortedDesc(sorted[..k], key)
  {
  }

  /** A sorted permutation cut after `limit` rows answers ORDER BY DESC LIMIT. */
  lemma PrefixIsNewest<T>(sorted: seq<T>, s: seq<T>, key: T -> int, limit: nat)
    requires SortedDesc(sorted, key) && multiset(sorted) == multiset(s)
    ensures |sorted| == |s|
    ensures IsNewest(sorted[..if |s| < limit then |s| else limit], s, key, limit)
  {
    assert |sorted| == |s| by {
      assert |multiset(sorted)| == |multiset(s)|;
    }
    var k := if |s| < limit then |s| else limit;
    var r := sorted[..k];
    SplitMultiset(sorted, k);
    assert multiset(r) <= multiset(s);
    PrefixSorted(sorted, key, k);
    assert |r| < limit ==> multiset(r) == multiset(s) by {
      if |r| < limit {
        assert r == sorted;
      }
    }
    if k > 0 {
      forall x | x in multiset(s) - multiset(r) ensures key(x) <= key(r[k - 1]) {
        TailBelow(sorted, key, k, x);
      }
    }
  }

  /** ORDER BY key DESC LIMIT `limit`. */
  function Newest<T>(s: seq<T>, key: T -> int, limit: nat): (r: seq<T>)
    ensures IsNewest(r, s, key, limit)
  {
    var sorted := SortDesc(s, key);
    PrefixIsNewest(sorted, s, key, limit);
    sorted[..if |s| < limit then |s| else limit]
  }

  /** Every row of an answer is a selected row. */
  lemma NewestMembers<T>(r: seq<T>, s: seq<T>, key: T -> int, limit: nat)
    requires IsNewest(r, s, key, limit)
    ensures forall x :: x in r ==> x in s
  {
    forall x | x in r ensures x in s {
      assert x in multiset(r);
    }
  }

  /**
   * A selected row is in the answer, or the answer is full and the row is no
   * newer than any row returned.
   */
  lemma NewestCovers<T>(r: seq<T>, s: seq<T>, key: T -> int, limit: nat, x: T)
    requires IsNewest(r, s, key, limit)
    requires x in s
    ensures x in r || (|r| == limit && forall i :: 0 <= i < |r| ==> key(x) <= key(r[i]))
  {
    assert x in multiset(s);
    if x !in r {
      assert x !in multiset(r);
      assert |r| == limit;
      assert x in multiset(s) - multiset(r);
    }
  }
}
