/**
 * The list idioms the query server is built from: the filtering list
 * comprehension `[f(x) for x in s if keep(x)]` and the deduplication
 * `list(set(xs))`.
 */
module Filtering {

  /** The indices, in ascending order, of the elements of `s` that `keep` accepts. */
  function Positions<T>(s: seq<T>, keep: T -> bool): (idx: seq<nat>)
    ensures |idx| <= |s|
    ensures forall k :: 0 <= k < |idx| ==> idx[k] < |s| && keep(s[idx[k]])
    ensures forall k, l :: 0 <= k < l < |idx| ==> idx[k] < idx[l]
    ensures forall i :: 0 <= i < |s| && keep(s[i]) ==> i in idx
    decreases |s|
  {
    if s == [] then []
    else
      var init := s[..|s| - 1];
      assert forall i :: 0 <= i < |init| ==> init[i] == s[i];
      Positions(init, keep) + (if keep(s[|s| - 1]) then [|s| - 1] else [])
  }

  /** `[f(x) for x in s if keep(x)]`. */
  function FilterMap<T, U>(s: seq<T>, keep: T -> bool, f: T -> U): (r: seq<U>)
    ensures |r| <= |s|
    ensures forall y :: y in r ==> exists i :: 0 <= i < |s| && keep(s[i]) && y == f(s[i])
    decreases |s|
  {
    if s == [] then []
    else
      var init := s[..|s| - 1];
      assert forall i :: 0 <= i < |init| ==> init[i] == s[i];
      FilterMap(init, keep, f) + (if keep(s[|s| - 1]) then [f(s[|s| - 1])] else [])
  }

  /**
   * The comprehension yields, in order, `f` of exactly the accepted elements:
   * its k-th entry is `f` of the k-th accepted element.
   */
  lemma {:induction false} FilterMapAtPositions<T, U>(s: seq<T>, keep: T -> bool, f: T -> U)
    ensures |FilterMap(s, keep, f)| == |Positions(s, keep)|
    ensures forall k :: 0 <= k < |Positions(s, keep)| ==>
              FilterMap(s, keep, f)[k] == f(s[Positions(s, keep)[k]])
    decreases |s|
  {
    if s != [] {
      var init := s[..|s| - 1];
      var last := s[|s| - 1];
      FilterMapAtPositions(init, keep, f);
      var idx := Positions(init, keep);
      assert Positions(s, keep) == idx + (if keep(last) then [|s| - 1] else []);
      assert FilterMap(s, keep, f) == FilterMap(init, keep, f) + (if keep(last) then [f(last)] else []);
      forall k | 0 <= k < |idx| ensures init[idx[k]] == s[idx[k]] {
      }
    }
  }

  /** An element is accepted exactly when its index is among the positions. */
  lemma PositionsMembership<T>(s: seq<T>, keep: T -> bool, i: int)
    requires 0 <= i < |s|
    ensures i in Positions(s, keep) <==> keep(s[i])
  {
    var idx := Positions(s, keep);
    if i in idx {
      var k :| 0 <= k < |idx| && idx[k] == i;
    }
  }

  /** A comprehension that accepts nothing yields the empty list. */
  lemma FilterMapNoneKept<T, U>(s: seq<T>, keep: T -> bool, f: T -> U)
    requires forall i :: 0 <= i < |s| ==> !keep(s[i])
    ensures FilterMap(s, keep, f) == []
  {
    FilterMapAtPositions(s, keep, f);
  }

  /** Two accepted elements both appear in the comprehension's output, in their order. */
  lemma FilterMapKeepsOrder<T, U>(s: seq<T>, keep: T -> bool, f: T -> U, a: int, b: int)
    requires 0 <= a < b < |s| && keep(s[a]) && keep(s[b])
    ensures var r := FilterMap(s, keep, f);
            exists k, l :: 0 <= k < l < |r| && r[k] == f(s[a]) && r[l] == f(s[b])
  {
    var matched := Positions(s, keep);
    FilterMapAtPositions(s, keep, f);
    assert a in matched && b in matched;
    var k :| 0 <= k < |matched| && matched[k] == a;
    var l :| 0 <= l < |matched| && matched[l] == b;
    assert k < l;
  }

  /** The concatenation, in order, of `g` of every element of `s`. */
  function Concat<T, U>(s: seq<T>, g: T -> seq<U>): seq<U>
    decreases |s|
  {
    if s == [] then [] else Concat(s[..|s| - 1], g) + g(s[|s| - 1])
  }

  /** A value is in the concatenation exactly when some element's part holds it. */
  lemma {:induction false} ConcatMembership<T, U>(s: seq<T>, g: T -> seq<U>, u: U)
    ensures u in Concat(s, g) <==> exists j :: 0 <= j < |s| && u in g(s[j])
    decreases |s|
  {
    if s != [] {
      var init := s[..|s| - 1];
      ConcatMembership(init, g, u);
      assert forall j :: 0 <= j < |init| ==> init[j] == s[j];
    }
  }

  predicate NoDuplicates<T(==)>(s: seq<T>) {
    forall i, j :: 0 <= i < j < |s| ==> s[i] != s[j]
  }

  /**
   * `list(set(xs))`: the distinct elements of `xs`, each once. Python does
   * not fix the order of a set, so no order is promised.
   */
  method Deduplicate<T(==)>(xs: seq<T>) returns (ys: seq<T>)
    ensures NoDuplicates(ys)
    ensures forall y :: y in ys <==> y in xs
  {
    ys := [];
    for i := 0 to |xs|
      invariant NoDuplicates(ys)
      invariant forall y :: y in ys <==> y in xs[..i]
    {
      assert xs[..i + 1] == xs[..i] + [xs[i]];
      if xs[i] !in ys {
        ys := ys + [xs[i]];
      }
    }
    assert xs[..|xs|] == xs;
  }
}
