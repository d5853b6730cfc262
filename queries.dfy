/** The three query shapes the controllers run against a collection held in natural
    (insertion) order: `findOne`, `find` with a filter, and `countDocuments`. */
module Queries {
  import opened Common
  import opened Models

  /** The index of the first document at or after `from` that the filter matches. */
  function FindOneFrom<T>(docs: seq<T>, filter: T -> bool, from: nat): (r: Option<nat>)
    requires from <= |docs|
    ensures r.Some? ==> from <= r.value < |docs| && filter(docs[r.value])
    ensures r.Some? ==> forall k :: from <= k < r.value ==> !filter(docs[k])
    ensures r.None? ==> forall k :: from <= k < |docs| ==> !filter(docs[k])
    decreases |docs| - from
  {
    if from == |docs| then None
    else if filter(docs[from]) then Some(from)
    else FindOneFrom(docs, filter, from + 1)
  }

  /** `findOne`: the first matching document, or none exactly when no document matches. */
  function FindOne<T>(docs: seq<T>, filter: T -> bool): (r: Option<nat>)
    ensures r.Some? ==> r.value < |docs| && filter(docs[r.value])
    ensures r.Some? ==> forall k :: 0 <= k < r.value ==> !filter(docs[k])
    ensures r.None? <==> forall k :: 0 <= k < |docs| ==> !filter(docs[k])
  {
    FindOneFrom(docs, filter, 0)
  }

  /** `Project.findById`. */
  function FindProjectById(projects: seq<Project>, id: Id): (r: Option<nat>)
    ensures r.Some? ==> r.value < |projects| && projects[r.value].id == id
    ensures r.None? <==> forall k :: 0 <= k < |projects| ==> projects[k].id != id
  {
    FindOne(projects, (p: Project) => p.id == id)
  }

  /** `countDocuments`: how many documents the filter matches. */
  function Count<T>(docs: seq<T>, filter: T -> bool): (n: nat)
    ensures n <= |docs|
  {
    if docs == [] then 0
    else Count(docs[..|docs| - 1], filter) + (if filter(docs[|docs| - 1]) then 1 else 0)
  }

  /** `r` holds every document the filter matches exactly as often as `docs` does, and
      nothing else: no match is dropped or repeated. */
  ghost predicate Selected<T(!new)>(r: seq<T>, docs: seq<T>, filter: T -> bool)
  {
    forall x :: multiset(r)[x] == if filter(x) then multiset(docs)[x] else 0
  }

  /** `find` with a filter: the matching documents in their natural order. */
  function Where<T(!new)>(docs: seq<T>, filter: T -> bool): (r: seq<T>)
    ensures |r| == Count(docs, filter)
    ensures forall x :: x in r <==> x in docs && filter(x)
  {
    if docs == [] then []
    else
      var init := Where(docs[..|docs| - 1], filter);
      assert docs == docs[..|docs| - 1] + [docs[|docs| - 1]];
      if filter(docs[|docs| - 1]) then init + [docs[|docs| - 1]] else init
  }

  /** `Where` drops no match and repeats none. */
  lemma {:induction false} WhereSelects<T(!new)>(docs: seq<T>, filter: T -> bool)
    ensures Selected(Where(docs, filter), docs, filter)
  {
    if docs != [] {
      var init, x := docs[..|docs| - 1], docs[|docs| - 1];
      WhereSelects(init, filter);
      WhereLast(docs, filter);
      assert docs == init + [x];
    }
  }

  /** Filtering two runs of documents one after the other is filtering each run. */
  lemma {:induction false} WhereConcat<T(!new)>(a: seq<T>, b: seq<T>, filter: T -> bool)
    ensures Where(a + b, filter) == Where(a, filter) + Where(b, filter)
  {
    if b == [] {
      assert a + b == a;
    } else {
      var init, x := b[..|b| - 1], b[|b| - 1];
      var tail := if filter(x) then [x] else [];
      WhereConcat(a, init, filter);
      assert (a + b)[..|a + b| - 1] == a + init;
      assert (a + b)[|a + b| - 1] == x;
      WhereLast(a + b, filter);
      WhereLast(b, filter);
      calc {
        Where(a + b, filter);
        Where(a + init, filter) + tail;
        (Where(a, filter) + Where(init, filter)) + tail;
        { SeqAssoc(Where(a, filter), Where(init, filter), tail); }
        Where(a, filter) + (Where(init, filter) + tail);
        Where(a, filter) + Where(b, filter);
      }
    }
  }

  /** Concatenation is associative. */
  lemma SeqAssoc<T>(x: seq<T>, y: seq<T>, z: seq<T>)
    ensures (x + y) + z == x + (y + z)
  {
  }

  /** `Where` on a non-empty run: the filtered run before the last document, then the last
      document when it matches. */
  lemma WhereLast<T(!new)>(docs: seq<T>, filter: T -> bool)
    requires docs != []
    ensures Where(docs, filter) == Where(docs[..|docs| - 1], filter) +
                                   (if filter(docs[|docs| - 1]) then [docs[|docs| - 1]] else [])
  {
  }

  /** Saving one more document raises each count by one exactly when the filter matches it. */
  lemma CountAppend<T>(docs: seq<T>, x: T, filter: T -> bool)
    ensures Count(docs + [x], filter) == Count(docs, filter) + (if filter(x) then 1 else 0)
  {
    assert (docs + [x])[..|docs + [x]| - 1] == docs;
  }

  /** Counting the same documents under a narrower filter never gives more. */
  lemma {:induction false} CountMonotone<T>(docs: seq<T>, narrow: T -> bool, wide: T -> bool)
    requires forall x :: narrow(x) ==> wide(x)
    ensures Count(docs, narrow) <= Count(docs, wide)
  {
    if docs != [] {
      CountMonotone(docs[..|docs| - 1], narrow, wide);
    }
  }

  /** A count is positive exactly when some document matches. */
  lemma {:induction false} CountPositive<T>(docs: seq<T>, filter: T -> bool)
    ensures Count(docs, filter) > 0 <==> exists k :: 0 <= k < |docs| && filter(docs[k])
  {
    if docs != [] {
      var init := docs[..|docs| - 1];
      CountPositive(init, filter);
      if exists k :: 0 <= k < |init| && filter(init[k]) {
        var k :| 0 <= k < |init| && filter(init[k]);
        assert filter(docs[k]);
      }
    }
  }

  /** Three filters that split every document into exactly one class split the whole count. */
  lemma {:induction false} CountPartition<T>(docs: seq<T>, f: T -> bool, g: T -> bool, h: T -> bool)
    requires forall x :: (if f(x) then 1 else 0) + (if g(x) then 1 else 0) + (if h(x) then 1 else 0) == 1
    ensures Count(docs, f) + Count(docs, g) + Count(docs, h) == |docs|
  {
    if docs != [] {
      CountPartition(docs[..|docs| - 1], f, g, h);
      var x := docs[|docs| - 1];
      assert (if f(x) then 1 else 0) + (if g(x) then 1 else 0) + (if h(x) then 1 else 0) == 1;
    }
  }

  /** Replacing one document moves the count by what the filter says of the old and the new one. */
  lemma {:induction false} CountUpdate<T>(docs: seq<T>, i: nat, y: T, filter: T -> bool)
    requires i < |docs|
    ensures Count(docs[i := y], filter)
            == Count(docs, filter) - (if filter(docs[i]) then 1 else 0) + (if filter(y) then 1 else 0)
  {
    var last := |docs| - 1;
    if i == last {
      assert docs[i := y][..last] == docs[..last];
    } else {
      CountUpdate(docs[..last], i, y, filter);
      assert docs[i := y][..last] == docs[..last][i := y];
    }
  }
}
