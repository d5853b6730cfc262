/** Ordering documents newest first, as a `.sort({ field: -1 })` query does, and keeping
    the first few of them, as `.limit(n)` does. */
module Recency {

  /** Every document comes before the documents with a smaller key. */
  ghost predicate NewestFirst<T>(docs: seq<T>, key: T -> int)
  {
    forall i, j :: 0 <= i < j < |docs| ==> key(docs[i]) >= key(docs[j])
  }

  /** A document no older than the head of an ordered list can go in front of it. */
  lemma ConsNewestFirst<T>(d: T, rest: seq<T>, key: T -> int)
    requires NewestFirst(rest, key)
    requires rest != [] ==> key(d) >= key(rest[0])
    ensures NewestFirst([d] + rest, key)
  {
    var r := [d] + rest;
    forall i, j | 0 <= i < j < |r| ensures key(r[i]) >= key(r[j]) {
      assert r[j] == rest[j - 1];
      if i == 0 {
        assert key(rest[0]) >= key(rest[j - 1]);
      } else {
        assert r[i] == rest[i - 1];
      }
    }
  }

  /** Places `x` into a list that is already newest first. */
  function Insert<T>(x: T, docs: seq<T>, key: T -> int): (r: seq<T>)
    requires NewestFirst(docs, key)
    ensures |r| == |docs| + 1
    ensures key(r[0]) == key(x) || (docs != [] && key(r[0]) == key(docs[0]))
    ensures NewestFirst(r, key)
    ensures multiset(r) == multiset(docs) + multiset{x}
  {
    if docs == [] || key(x) >= key(docs[0]) then
      ConsNewestFirst(x, docs, key);
      [x] + docs
    else
      var tail := docs[1..];
      assert NewestFirst(tail, key) by {
        forall i, j | 0 <= i < j < |tail| ensures key(tail[i]) >= key(tail[j]) {
          assert tail[i] == docs[i + 1] && tail[j] == docs[j + 1];
        }
      }
      var rest := Insert(x, tail, key);
      assert tail != [] ==> key(docs[0]) >= key(tail[0]);
      ConsNewestFirst(docs[0], rest, key);
      assert docs == [docs[0]] + tail;
      [docs[0]] + rest
  }

  /** The documents reordered newest first: a permutation of them that is ordered. */
  function SortNewestFirst<T>(docs: seq<T>, key: T -> int): (r: seq<T>)
    ensures NewestFirst(r, key)
    ensures multiset(r) == multiset(docs)
  {
    if docs == [] then []
    else
      assert docs == [docs[0]] + docs[1..];
      Insert(docs[0], SortNewestFirst(docs[1..], key), key)
  }

  /** In an ordered list, everything in the first `k` places is no older than anything after. */
  lemma PrefixNoOlder<T>(sorted: seq<T>, key: T -> int, k: nat)
    requires NewestFirst(sorted, key) && k <= |sorted|
    ensures NewestFirst(sorted[..k], key)
    ensures forall x, y :: x in sorted[..k] && y in sorted[k..] ==> key(y) <= key(x)
  {
    forall x, y | x in sorted[..k] && y in sorted[k..] ensures key(y) <= key(x) {
      var i :| 0 <= i < k && sorted[i] == x;
      var j :| 0 <= j < |sorted| - k && sorted[k..][j] == y;
      assert sorted[k + j] == y;
    }
  }

  /** Splitting a permutation of `docs` at `k`: the prefix is drawn from `docs`, and what it
      leaves of `docs` is the suffix. */
  lemma SplitPermutation<T>(sorted: seq<T>, docs: seq<T>, k: nat)
    requires multiset(sorted) == multiset(docs) && k <= |sorted|
    ensures multiset(sorted[..k]) <= multiset(docs)
    ensures multiset(docs) - multiset(sorted[..k]) == multiset(sorted[k..])
    ensures forall x :: x in sorted[..k] ==> x in docs
  {
    assert sorted == sorted[..k] + sorted[k..];
    assert multiset(sorted) == multiset(sorted[..k]) + multiset(sorted[k..]);
    forall x | x in sorted[..k] ensures x in docs {
      assert x in multiset(sorted[..k]);
      assert x in multiset(docs);
    }
  }

  /** `.sort({ key: -1 }).limit(limit)`: the `limit` newest documents, newest first, where
      a limit of 0 means no limit. Every document left out is no newer than every one kept. */
  function Newest<T>(docs: seq<T>, key: T -> int, limit: nat): (r: seq<T>)
    ensures |r| == if limit == 0 || |docs| <= limit then |docs| else limit
    ensures NewestFirst(r, key)
    ensures multiset(r) <= multiset(docs)
    ensures forall x :: x in r ==> x in docs
    ensures forall x, y :: x in r && y in docs && y !in r ==> key(y) <= key(x)
  {
    var sorted := SortNewestFirst(docs, key);
    var k := if limit == 0 || |docs| <= limit then |docs| else limit;
    assert |sorted| == |docs| by { assert |multiset(sorted)| == |multiset(docs)|; }
    PrefixNoOlder(sorted, key, k);
    SplitPermutation(sorted, docs, k);
    var r := sorted[..k];
    forall x, y | x in r && y in docs && y !in r ensures key(y) <= key(x) {
      assert y in multiset(docs) - multiset(r);
      assert y in multiset(sorted[k..]);
      assert y in sorted[k..];
    }
    r
  }
}
