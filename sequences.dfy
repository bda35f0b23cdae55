/** The list operations the document store and the scoring engine are built
    from: `find` (first element satisfying a predicate), `filter`, and a `map`
    that rewrites only the elements carrying a given id. */
module Sequences {
  import opened Wrappers

  /** `xs.find(p)`: the first element satisfying `p`, or nothing (see `FindSpec`). */
  function Find<T>(xs: seq<T>, p: T -> bool): Option<T>
  {
    if |xs| == 0 then None
    else if p(xs[0]) then Some(xs[0])
    else Find(xs[1..], p)
  }

  /** No element before position `i` satisfies `p`. */
  ghost predicate FirstMatch<T>(xs: seq<T>, p: T -> bool, i: nat)
    requires i <= |xs|
  {
    forall j :: 0 <= j < i ==> !p(xs[j])
  }

  /** `Find` reports nothing exactly when no element satisfies `p`, and
      otherwise the element at the first position that does. */
  lemma {:induction false} FindSpec<T>(xs: seq<T>, p: T -> bool)
    ensures Find(xs, p).None? <==> forall i :: 0 <= i < |xs| ==> !p(xs[i])
    ensures Find(xs, p).Some? ==>
      exists i :: 0 <= i < |xs| && xs[i] == Find(xs, p).value && p(xs[i]) && FirstMatch(xs, p, i)
  {
    if |xs| > 0 {
      if p(xs[0]) {
        assert FirstMatch(xs, p, 0);
      } else {
        FindSpec(xs[1..], p);
        var r := Find(xs[1..], p);
        assert forall i :: 1 <= i < |xs| ==> xs[i] == xs[1..][i - 1];
        if r.Some? {
          var i :| 0 <= i < |xs[1..]| && xs[1..][i] == r.value && p(xs[1..][i]) && FirstMatch(xs[1..], p, i);
          assert FirstMatch(xs, p, i + 1);
        }
      }
    }
  }

  /** Appending an element changes what `Find` reports only when no element
      before it satisfied `p`. */
  lemma {:induction false} FindAppend<T>(xs: seq<T>, x: T, p: T -> bool)
    ensures Find(xs + [x], p) == if Find(xs, p).Some? then Find(xs, p) else if p(x) then Some(x) else None
  {
    if |xs| == 0 {
      assert xs + [x] == [x];
      assert [x][1..] == [];
    } else {
      assert (xs + [x])[0] == xs[0];
      assert (xs + [x])[1..] == xs[1..] + [x];
      if !p(xs[0]) {
        FindAppend(xs[1..], x, p);
      }
    }
  }

  /** When exactly one element satisfies `p`, `Find` reports that element. */
  lemma FindUnique<T>(xs: seq<T>, p: T -> bool, i: nat)
    requires i < |xs| && p(xs[i])
    requires forall j :: 0 <= j < |xs| && j != i ==> !p(xs[j])
    ensures Find(xs, p) == Some(xs[i])
  {
    FindSpec(xs, p);
  }

  /** `xs.filter(p)` (see `FilterSpec`). */
  function Filter<T>(xs: seq<T>, p: T -> bool): seq<T>
  {
    if |xs| == 0 then []
    else if p(xs[0]) then [xs[0]] + Filter(xs[1..], p)
    else Filter(xs[1..], p)
  }

  /** Filtering keeps exactly the elements satisfying `p`, each as often as in
      `xs`, in their original order. */
  lemma {:induction false} FilterSpec<T(!new)>(xs: seq<T>, p: T -> bool)
    ensures forall x :: multiset(Filter(xs, p))[x] == if p(x) then multiset(xs)[x] else 0
    ensures forall x :: x in Filter(xs, p) <==> x in xs && p(x)
    ensures IsSubsequence(Filter(xs, p), xs)
  {
    if |xs| > 0 {
      FilterSpec(xs[1..], p);
      var rest := Filter(xs[1..], p);
      assert xs == [xs[0]] + xs[1..];
      assert multiset(xs) == multiset{xs[0]} + multiset(xs[1..]);
      if p(xs[0]) {
        assert ([xs[0]] + rest)[1..] == rest;
      } else {
        assert rest != [] ==> rest[0] in rest && rest[0] != xs[0];
      }
    }
  }

  /** `r` is `xs` with some elements left out and the rest in their order. */
  predicate IsSubsequence<T(==)>(r: seq<T>, xs: seq<T>)
    decreases |xs|
  {
    if |r| == 0 then true
    else if |xs| == 0 then false
    else if r[0] == xs[0] then IsSubsequence(r[1..], xs[1..])
    else IsSubsequence(r, xs[1..])
  }

  /** Filtering a list whose every element passes gives the list back. */
  lemma {:induction false} FilterAll<T(!new)>(xs: seq<T>, p: T -> bool)
    requires forall i :: 0 <= i < |xs| ==> p(xs[i])
    ensures Filter(xs, p) == xs
  {
    if |xs| > 0 {
      FilterAll(xs[1..], p);
      assert xs == [xs[0]] + xs[1..];
    }
  }

  /** Filtering twice with the same predicate is filtering once. */
  lemma FilterIdempotent<T(!new)>(xs: seq<T>, p: T -> bool)
    ensures Filter(Filter(xs, p), p) == Filter(xs, p)
  {
    var r := Filter(xs, p);
    FilterSpec(xs, p);
    assert forall i :: 0 <= i < |r| ==> r[i] in r;
    FilterAll(r, p);
  }

  /** When at most one element fails `p`, filtering drops at most one element. */
  lemma {:induction false} FilterDropsAtMostOne<T(!new)>(xs: seq<T>, p: T -> bool)
    requires forall i, j :: 0 <= i < j < |xs| && !p(xs[i]) ==> p(xs[j])
    ensures |Filter(xs, p)| + 1 >= |xs|
  {
    if |xs| > 0 {
      if !p(xs[0]) {
        assert forall i :: 0 <= i < |xs[1..]| ==> p(xs[1..][i]) == p(xs[i + 1]);
        FilterAll(xs[1..], p);
      } else {
        FilterDropsAtMostOne(xs[1..], p);
      }
    }
  }

  /** Filtering a list with one element appended filters the list and then
      keeps or drops that element. */
  lemma {:induction false} FilterAppend<T(!new)>(xs: seq<T>, x: T, p: T -> bool)
    ensures Filter(xs + [x], p) == Filter(xs, p) + (if p(x) then [x] else [])
  {
    var ys := xs + [x];
    var tail := if p(x) then [x] else [];
    if |xs| == 0 {
      assert ys == [x];
      assert ys[1..] == [];
    } else {
      assert ys[0] == xs[0];
      assert ys[1..] == xs[1..] + [x];
      FilterAppend(xs[1..], x, p);
      if p(xs[0]) {
        assert Filter(ys, p) == [xs[0]] + Filter(ys[1..], p);
        assert Filter(xs, p) == [xs[0]] + Filter(xs[1..], p);
        assert [xs[0]] + (Filter(xs[1..], p) + tail) == ([xs[0]] + Filter(xs[1..], p)) + tail;
      } else {
        assert Filter(ys, p) == Filter(ys[1..], p);
        assert Filter(xs, p) == Filter(xs[1..], p);
      }
    }
  }

  /** `xs.map(x => key(x) === id ? f(x) : x)`: every element whose key is `id` is
      rewritten by `f`, every other element is kept, and positions do not move. */
  function UpdateWhere<T>(xs: seq<T>, key: T -> string, id: string, f: T -> T): (r: seq<T>)
    ensures |r| == |xs|
    ensures forall i :: 0 <= i < |xs| && key(xs[i]) == id ==> r[i] == f(xs[i])
    ensures forall i :: 0 <= i < |xs| && key(xs[i]) != id ==> r[i] == xs[i]
  {
    if |xs| == 0 then []
    else
      var rest := UpdateWhere(xs[1..], key, id, f);
      assert forall i :: 1 <= i < |xs| ==> xs[i] == xs[1..][i - 1];
      [if key(xs[0]) == id then f(xs[0]) else xs[0]] + rest
  }
}
