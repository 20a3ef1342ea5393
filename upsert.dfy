/**
  `upsert(base, match, replacement)` (index.js, `extendWith.upsert`): `_.reject(base, match)`
  builds a new array of the elements that do not satisfy the matcher, in their original order,
  and `push` appends the replacement to it. Every matching element is removed, not just one,
  and the replacement always goes last. `base` itself is never changed.

  The matcher is a predicate on elements; `PropsMatcher` gives the record form used with
  lodash's `_.matches`, comparing each listed key by whole-value equality.
*/
module Upsert {
  import opened Values

  /** The number of elements of `xs` that satisfy `matches`. */
  function MatchCount<T>(xs: seq<T>, matches: T -> bool): (n: nat)
    ensures n <= |xs|
  {
    if xs == [] then 0 else (if matches(xs[0]) then 1 else 0) + MatchCount(xs[1..], matches)
  }

  /** `a` is `b` with some elements left out, the rest in their order. */
  ghost predicate IsSubsequence<T>(a: seq<T>, b: seq<T>)
    decreases |b|
  {
    if a == [] then true
    else if b == [] then false
    else (a[0] == b[0] && IsSubsequence(a[1..], b[1..])) || IsSubsequence(a, b[1..])
  }

  /** lodash's `_.reject(xs, matches)`: walks `xs` in order and keeps the elements that do
      not satisfy `matches`. `RejectKeepsTheRest` and `RejectKeepsOrder` say what it keeps. */
  function Reject<T(==)>(xs: seq<T>, matches: T -> bool): (r: seq<T>)
    ensures |r| == |xs| - MatchCount(xs, matches)
    ensures forall k :: 0 <= k < |r| ==> !matches(r[k])
  {
    if xs == [] then []
    else if matches(xs[0]) then Reject(xs[1..], matches)
    else [xs[0]] + Reject(xs[1..], matches)
  }

  /** Every element that does not match is kept as often as it occurs in `xs`; every element
      that matches is gone. */
  lemma {:induction false} RejectKeepsTheRest<T(!new)>(xs: seq<T>, matches: T -> bool, x: T)
    ensures multiset(Reject(xs, matches))[x] == if matches(x) then 0 else multiset(xs)[x]
  {
    if xs != [] {
      RejectKeepsTheRest(xs[1..], matches, x);
      assert xs == [xs[0]] + xs[1..];
      assert multiset(xs) == multiset([xs[0]]) + multiset(xs[1..]);
    }
  }

  /** What is kept stays in the order of `xs`. */
  lemma {:induction false} RejectKeepsOrder<T>(xs: seq<T>, matches: T -> bool)
    ensures IsSubsequence(Reject(xs, matches), xs)
  {
    if xs != [] {
      RejectKeepsOrder(xs[1..], matches);
      var rest := Reject(xs[1..], matches);
      if !matches(xs[0]) {
        assert ([xs[0]] + rest)[1..] == rest;
      } else {
        SubsequenceOfTail(rest, xs);
      }
    }
  }

  lemma SubsequenceOfTail<T>(a: seq<T>, b: seq<T>)
    requires b != [] && IsSubsequence(a, b[1..])
    ensures IsSubsequence(a, b)
  {
  }

  /** `upsert`: the non-matching elements of `base` in order, then `replacement`. Its length is
      the number of non-matching elements plus one, the replacement is last, and nothing before
      it satisfies the matcher. */
  function Upsert<T(==)>(base: seq<T>, matches: T -> bool, replacement: T): (r: seq<T>)
    ensures |r| == |base| - MatchCount(base, matches) + 1
    ensures r[|r| - 1] == replacement
    ensures forall k :: 0 <= k < |r| - 1 ==> !matches(r[k])
  {
    var removed := Reject(base, matches);
    removed + [replacement]
  }

  /** What comes before the replacement is exactly what `_.reject` keeps: each non-matching
      element of `base` as often as there, in the order of `base`. */
  lemma UpsertKeepsTheRest<T(!new)>(base: seq<T>, matches: T -> bool, replacement: T, x: T)
    ensures var r := Upsert(base, matches, replacement);
      && IsSubsequence(r[..|r| - 1], base)
      && multiset(r[..|r| - 1])[x] == if matches(x) then 0 else multiset(base)[x]
  {
    var r := Upsert(base, matches, replacement);
    assert r[..|r| - 1] == Reject(base, matches);
    RejectKeepsOrder(base, matches);
    RejectKeepsTheRest(base, matches, x);
  }

  /** Rejecting from a sequence in which nothing matches gives the sequence back. */
  lemma {:induction false} RejectNothing<T(!new)>(xs: seq<T>, matches: T -> bool)
    requires forall k :: 0 <= k < |xs| ==> !matches(xs[k])
    ensures Reject(xs, matches) == xs
  {
    if xs != [] {
      RejectNothing(xs[1..], matches);
    }
  }

  /** When nothing in `base` matches, `upsert` is a plain append. */
  lemma UpsertWithoutMatchAppends<T(!new)>(base: seq<T>, matches: T -> bool, replacement: T)
    requires forall k :: 0 <= k < |base| ==> !matches(base[k])
    ensures Upsert(base, matches, replacement) == base + [replacement]
  {
    RejectNothing(base, matches);
  }

  /** Rejecting distributes over concatenation. */
  lemma {:induction false} RejectAppend<T(!new)>(xs: seq<T>, ys: seq<T>, matches: T -> bool)
    ensures Reject(xs + ys, matches) == Reject(xs, matches) + Reject(ys, matches)
  {
    if xs != [] {
      assert (xs + ys)[0] == xs[0];
      assert (xs + ys)[1..] == xs[1..] + ys;
      RejectAppend(xs[1..], ys, matches);
      var a, b := Reject(xs[1..], matches), Reject(ys, matches);
      if matches(xs[0]) {
        assert Reject(xs + ys, matches) == Reject(xs[1..] + ys, matches);
      } else {
        assert Reject(xs + ys, matches) == [xs[0]] + Reject(xs[1..] + ys, matches);
        assert [xs[0]] + (a + b) == ([xs[0]] + a) + b;
      }
    } else {
      assert xs + ys == ys;
    }
  }

  /** With a replacement that itself satisfies the matcher (the usual case: it carries the key
      being matched), upserting twice is the same as upserting once. */
  lemma UpsertIdempotent<T(!new)>(base: seq<T>, matches: T -> bool, replacement: T)
    requires matches(replacement)
    ensures Upsert(Upsert(base, matches, replacement), matches, replacement)
         == Upsert(base, matches, replacement)
  {
    var once := Upsert(base, matches, replacement);
    var removed := Reject(base, matches);
    RejectAppend(removed, [replacement], matches);
    RejectNothing(removed, matches);
    assert Reject([replacement], matches) == [];
  }

  /** The record matcher `_.matches(props)`: a record whose field at every key of `props` equals
      the value given there. */
  predicate MatchesProps(props: map<string, Value>, v: Value) {
    v.Obj? && forall key :: key in props ==> key in v.fields && v.fields[key] == props[key]
  }

  function PropsMatcher(props: map<string, Value>): Value -> bool {
    (v: Value) => MatchesProps(props, v)
  }

  /** The example in the source's documentation. The code removes the element with id 3 and
      appends the new element; the other elements are left as they were. */
  lemma UpsertDocumentationExample(base: seq<Value>, props: map<string, Value>, newElement: Value)
    requires base == [
      Obj(map["id" := Num(1), "data" := Num(2)]),
      Obj(map["id" := Num(2), "data" := Num(3)]),
      Obj(map["id" := Num(3), "data" := Obj(map["nested" := Num(4)])])]
    requires props == map["id" := Num(3), "data" := Obj(map["nested" := Num(4)])]
    requires newElement == Obj(map["id" := Num(3), "data" := Num(5)])
    ensures Upsert(base, PropsMatcher(props), newElement) == [base[0], base[1], newElement]
  {
    var matcher := PropsMatcher(props);
    assert !matcher(base[0]) by { assert base[0].fields["id"] != props["id"]; }
    assert !matcher(base[1]) by { assert base[1].fields["id"] != props["id"]; }
    assert matcher(base[2]);
    assert base[2..][1..] == [];
    assert base[1..][1..] == base[2..];
    assert Reject(base[1..], matcher) == [base[1]];
  }
}
