/**
 The iterator chain `iter().filter(keep).map(f).collect()`, on a sequence
 standing for what the iterator yields, for any predicate and any mapping.
 */
module Iter {

  /** The collected results of `filter(keep).map(f)`, in iteration order. */
  function FilterMap<T, U>(s: seq<T>, keep: T -> bool, f: T -> U): (r: seq<U>)
    ensures |r| <= |s|
  {
    if s == [] then []
    else (if keep(s[0]) then [f(s[0])] else []) + FilterMap(s[1..], keep, f)
  }

  /** A single element gives its image when it is kept, and nothing otherwise. */
  lemma FilterMapSingle<T, U>(x: T, keep: T -> bool, f: T -> U)
    ensures FilterMap([x], keep, f) == if keep(x) then [f(x)] else []
  {
    assert [x][1..] == [];
  }

  /**
   The chain works element by element: the results for two runs of input are
   those of the first followed by those of the second. With `FilterMapSingle`
   this says that each kept element contributes its image exactly once, in
   input order.
   */
  lemma {:induction false} FilterMapAppend<T, U>(a: seq<T>, b: seq<T>, keep: T -> bool, f: T -> U)
    ensures FilterMap(a + b, keep, f) == FilterMap(a, keep, f) + FilterMap(b, keep, f)
  {
    if a == [] {
      assert a + b == b;
    } else {
      var head := if keep(a[0]) then [f(a[0])] else [];
      calc {
        FilterMap(a + b, keep, f);
        == { assert (a + b)[0] == a[0]; assert (a + b)[1..] == a[1..] + b; }
        head + FilterMap(a[1..] + b, keep, f);
        == { FilterMapAppend(a[1..], b, keep, f); }
        head + (FilterMap(a[1..], keep, f) + FilterMap(b, keep, f));
        (head + FilterMap(a[1..], keep, f)) + FilterMap(b, keep, f);
      }
    }
  }

  /** Every kept element's image is collected, and nothing else is. */
  lemma {:induction false} FilterMapMembers<T, U>(s: seq<T>, keep: T -> bool, f: T -> U)
    ensures forall x :: x in s && keep(x) ==> f(x) in FilterMap(s, keep, f)
    ensures forall y :: y in FilterMap(s, keep, f) ==> exists x :: x in s && keep(x) && y == f(x)
  {
    if s != [] {
      FilterMapMembers(s[1..], keep, f);
      assert forall x :: x in s ==> x == s[0] || x in s[1..];
      assert forall x :: x in s[1..] ==> x in s;
    }
  }

  /** When every element is kept, the result is the image of each element, in order. */
  lemma {:induction false} FilterMapKeepingAll<T, U>(s: seq<T>, keep: T -> bool, f: T -> U)
    requires forall x :: keep(x)
    ensures |FilterMap(s, keep, f)| == |s|
    ensures forall i :: 0 <= i < |s| ==> FilterMap(s, keep, f)[i] == f(s[i])
  {
    if s != [] {
      FilterMapKeepingAll(s[1..], keep, f);
    }
  }
}
