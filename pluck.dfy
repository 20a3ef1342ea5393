/**
  Nested-path pluck (index.js, `extendWith.pluck`, a wrapper around lodash's `_.pluck`). A
  path without a dot is handed to the single-level pluck. A dotted path is split on '.', and
  the single-level pluck is applied once per segment, in order, each time to the result of the
  previous one.
*/
module NestedPluck {
  import opened Values

  /** lodash's single-level `_.pluck(coll, key)`: `element[key]` for every element. */
  function PluckKey(coll: seq<Value>, key: string): (r: seq<Value>)
    ensures |r| == |coll|
  {
    seq(|coll|, k requires 0 <= k < |coll| => Property(coll[k], key))
  }

  /** `s.split('.')`: the runs of characters between dots, empty runs included. */
  function Split(s: string): (parts: seq<string>)
    ensures |parts| >= 1
    ensures forall k :: 0 <= k < |parts| ==> '.' !in parts[k]
  {
    if s == [] then [""]
    else
      var rest := Split(s[1..]);
      if s[0] == '.' then [""] + rest
      else [[s[0]] + rest[0]] + rest[1..]
  }

  /** The parts joined with '.' between them. */
  function Join(parts: seq<string>): string
    requires |parts| >= 1
  {
    if |parts| == 1 then parts[0] else parts[0] + "." + Join(parts[1..])
  }

  function DotCount(s: string): nat {
    if s == [] then 0 else (if s[0] == '.' then 1 else 0) + DotCount(s[1..])
  }

  /** Splitting loses nothing: joining the parts with dots gives the path back. */
  lemma {:induction false} JoinSplit(s: string)
    ensures Join(Split(s)) == s
  {
    if s != [] {
      JoinSplit(s[1..]);
      var rest := Split(s[1..]);
      if s[0] == '.' {
        assert s == "." + s[1..];
      } else {
        var parts := Split(s);
        if |rest| == 1 {
          assert parts == [[s[0]] + rest[0]];
        } else {
          assert parts[1..] == rest[1..];
          assert Join(rest) == rest[0] + "." + Join(rest[1..]);
        }
      }
    }
  }

  /** There is one more part than there are dots, and a path without a dot is one part. */
  lemma {:induction false} SplitCount(s: string)
    ensures |Split(s)| == DotCount(s) + 1
    ensures DotCount(s) == 0 <==> '.' !in s
  {
    if s != [] {
      SplitCount(s[1..]);
      assert s == [s[0]] + s[1..];
    }
  }

  /** Conversely, splitting dot-free parts joined with dots gives the parts back. */
  lemma {:induction false} SplitJoin(parts: seq<string>)
    requires |parts| >= 1
    requires forall k :: 0 <= k < |parts| ==> '.' !in parts[k]
    ensures Split(Join(parts)) == parts
  {
    if |parts| == 1 {
      SplitWithoutDot(parts[0]);
    } else {
      SplitJoin(parts[1..]);
      SplitPrefix(parts[0], Join(parts[1..]));
    }
  }

  /** A path without a dot splits into itself alone. */
  lemma {:induction false} SplitWithoutDot(s: string)
    requires '.' !in s
    ensures Split(s) == [s]
  {
    if s != [] {
      assert '.' !in s[1..];
      SplitWithoutDot(s[1..]);
      assert [s[0]] + s[1..] == s;
    }
  }

  lemma {:induction false} SplitPrefix(a: string, b: string)
    requires '.' !in a
    ensures Split(a + "." + b) == [a] + Split(b)
  {
    if a == [] {
      assert a + "." + b == "." + b;
    } else {
      assert (a + "." + b)[1..] == a[1..] + "." + b;
      assert '.' !in a[1..];
      SplitPrefix(a[1..], b);
      assert [a[0]] + a[1..] == a;
    }
  }

  /** Follows `segs` into `v`, one property at a time. */
  function Walk(v: Value, segs: seq<string>): Value
    decreases |segs|
  {
    if segs == [] then v else Walk(Property(v, segs[0]), segs[1..])
  }

  /** Walking one segment further reads one more property. */
  lemma {:induction false} WalkSnoc(v: Value, segs: seq<string>, key: string)
    ensures Walk(v, segs + [key]) == Property(Walk(v, segs), key)
    decreases |segs|
  {
    if segs != [] {
      assert (segs + [key])[1..] == segs[1..] + [key];
      WalkSnoc(Property(v, segs[0]), segs[1..], key);
    }
  }

  /** The single-level pluck applied once per segment, in order. */
  function PluckPath(coll: seq<Value>, segs: seq<string>): seq<Value>
    decreases |segs|
  {
    if segs == [] then coll else PluckPath(PluckKey(coll, segs[0]), segs[1..])
  }

  /** The fold of single-level plucks reads, for every element, the value at the end of the
      path in that element, and keeps the length of the collection. */
  lemma {:induction false} PluckPathWalks(coll: seq<Value>, segs: seq<string>)
    ensures |PluckPath(coll, segs)| == |coll|
    ensures forall k :: 0 <= k < |coll| ==> PluckPath(coll, segs)[k] == Walk(coll[k], segs)
    decreases |segs|
  {
    if segs != [] {
      PluckPathWalks(PluckKey(coll, segs[0]), segs[1..]);
    }
  }

  /** A one-segment fold agrees with the single-level pluck. */
  lemma OneSegment(coll: seq<Value>, key: string)
    ensures PluckPath(coll, [key]) == PluckKey(coll, key)
  {
    assert [key][1..] == [];
  }

  /** `_.pluck(coll, propStr)` as the wrapper computes it: the fold of single-level plucks over
      the split path, which for a path without a dot is the single-level pluck itself. Element
      k of the result is what walking the split path reads from element k of `coll`. */
  method Pluck(coll: seq<Value>, propStr: string) returns (elements: seq<Value>)
    ensures elements == PluckPath(coll, Split(propStr))
    ensures '.' !in propStr ==> elements == PluckKey(coll, propStr)
    ensures |elements| == |coll|
    ensures forall k :: 0 <= k < |coll| ==> elements[k] == Walk(coll[k], Split(propStr))
  {
    PluckPathWalks(coll, Split(propStr));
    if '.' in propStr {
      var props := Split(propStr);
      elements := coll;
      for j := 0 to |props|
        invariant |elements| == |coll|
        invariant forall k :: 0 <= k < |coll| ==> elements[k] == Walk(coll[k], props[..j])
      {
        forall k | 0 <= k < |coll| ensures Walk(coll[k], props[..j + 1]) == Property(elements[k], props[j]) {
          assert props[..j + 1] == props[..j] + [props[j]];
          WalkSnoc(coll[k], props[..j], props[j]);
        }
        elements := PluckKey(elements, props[j]);
      }
      assert props[..|props|] == props;
    } else {
      SplitWithoutDot(propStr);
      OneSegment(coll, propStr);
      elements := PluckKey(coll, propStr);
    }
  }

  /** The source's documented example: plucking 'p.c' from [{p: {c: 1}}, {p: {c: 2}}] reads
      1 and 2. */
  lemma PluckDocumentationExample()
    ensures Split("p.c") == ["p", "c"]
    ensures Walk(Obj(map["p" := Obj(map["c" := Num(1)])]), ["p", "c"]) == Num(1)
    ensures Walk(Obj(map["p" := Obj(map["c" := Num(2)])]), ["p", "c"]) == Num(2)
  {
    SplitPrefix("p", "c");
    SplitWithoutDot("c");
  }
}
