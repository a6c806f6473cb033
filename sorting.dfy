/**
 `slice::sort_by` from Rust's standard library: a stable sort driven by a
 comparator. `less(a, b)` says the comparator returns `Less` for `(a, b)`;
 records it returns `Equal` for are "equivalent" here (neither is less).

 `StableSort` says what the sort returns, `SortInPlace` does it in place on
 an array, and the lemmas prove that the result is ordered, a permutation
 and stable, and that these properties fix the result uniquely.
 */
module Sorting {

  /** Asymmetric and negatively transitive: a comparator whose `Ordering` is consistent. */
  ghost predicate StrictWeakOrder<T(!new)>(less: (T, T) -> bool)
  {
    && (forall a, b :: less(a, b) ==> !less(b, a))
    && (forall a, b, c :: !less(a, b) && !less(b, c) ==> !less(a, c))
  }

  /** The comparator returns `Equal`. */
  predicate Equiv<T>(less: (T, T) -> bool, a: T, b: T)
  {
    !less(a, b) && !less(b, a)
  }

  /**
   Place `x` after every element of `s` that it is not less than: the scan
   goes from the back and stops at the first element `x` is not less than.
   */
  function Insert<T>(less: (T, T) -> bool, s: seq<T>, x: T): (r: seq<T>)
    ensures |r| == |s| + 1
    ensures multiset(r) == multiset(s) + multiset{x}
  {
    if s == [] || !less(x, s[|s| - 1]) then s + [x]
    else
      assert s == s[..|s| - 1] + [s[|s| - 1]];
      Insert(less, s[..|s| - 1], x) + [s[|s| - 1]]
  }

  /** What a stable sort with comparator `less` returns for `s`. */
  function StableSort<T>(less: (T, T) -> bool, s: seq<T>): (r: seq<T>)
    ensures |r| == |s|
    ensures multiset(r) == multiset(s)
  {
    if s == [] then []
    else
      assert s == s[..|s| - 1] + [s[|s| - 1]];
      Insert(less, StableSort(less, s[..|s| - 1]), s[|s| - 1])
  }

  /** Two elements in the wrong order are swapped. */
  lemma StableSortPair<T>(less: (T, T) -> bool, a: T, b: T)
    requires less(b, a)
    ensures StableSort(less, [a, b]) == [b, a]
  {
    assert [a, b][..1] == [a];
    assert [a][..0] == [];
    assert StableSort(less, [a]) == [a];
  }

  /** No element stands after one that is less than it. */
  ghost predicate Sorted<T>(less: (T, T) -> bool, s: seq<T>)
  {
    forall i, j :: 0 <= i < j < |s| ==> !less(s[j], s[i])
  }

  lemma {:induction false} InsertSorted<T(!new)>(less: (T, T) -> bool, s: seq<T>, x: T)
    requires StrictWeakOrder(less)
    requires Sorted(less, s)
    ensures Sorted(less, Insert(less, s, x))
  {
    var r := Insert(less, s, x);
    if s == [] || !less(x, s[|s| - 1]) {
      forall i | 0 <= i < |s|
        ensures !less(x, s[i])
      {
        if i < |s| - 1 {
          assert !less(s[|s| - 1], s[i]);
        }
      }
    } else {
      var init, last := s[..|s| - 1], s[|s| - 1];
      var r' := Insert(less, init, x);
      InsertSorted(less, init, x);
      assert r == r' + [last];
      forall i | 0 <= i < |r'|
        ensures !less(last, r'[i])
      {
        assert r'[i] in multiset(r');
        if r'[i] != x {
          assert r'[i] in init;
        }
      }
    }
  }

  /** The sort's output is ordered. */
  lemma {:induction false} StableSortSorted<T(!new)>(less: (T, T) -> bool, s: seq<T>)
    requires StrictWeakOrder(less)
    ensures Sorted(less, StableSort(less, s))
  {
    if s != [] {
      StableSortSorted(less, s[..|s| - 1]);
      InsertSorted(less, StableSort(less, s[..|s| - 1]), s[|s| - 1]);
    }
  }

  /**
   The elements of `s` equivalent to `x`, in their order in `s`. A sort is
   stable when it leaves each of these subsequences as it was.
   */
  function KeyClass<T>(less: (T, T) -> bool, s: seq<T>, x: T): (c: seq<T>)
    ensures |c| <= |s|
  {
    if s == [] then []
    else KeyClass(less, s[..|s| - 1], x) + (if Equiv(less, s[|s| - 1], x) then [s[|s| - 1]] else [])
  }

  lemma {:induction false} InsertKeyClass<T(!new)>(less: (T, T) -> bool, s: seq<T>, y: T, x: T)
    requires StrictWeakOrder(less)
    ensures KeyClass(less, Insert(less, s, y), x)
         == KeyClass(less, s, x) + (if Equiv(less, y, x) then [y] else [])
  {
    var r := Insert(less, s, y);
    if s == [] || !less(y, s[|s| - 1]) {
      assert r[..|r| - 1] == s;
    } else {
      var init, last := s[..|s| - 1], s[|s| - 1];
      assert r[..|r| - 1] == Insert(less, init, y);
      InsertKeyClass(less, init, y, x);
    }
  }

  /** The sort is stable: equivalent elements keep their relative input order. */
  lemma {:induction false} StableSortKeepsKeyClasses<T(!new)>(less: (T, T) -> bool, s: seq<T>, x: T)
    requires StrictWeakOrder(less)
    ensures KeyClass(less, StableSort(less, s), x) == KeyClass(less, s, x)
  {
    if s != [] {
      var init, last := s[..|s| - 1], s[|s| - 1];
      StableSortKeepsKeyClasses(less, init, x);
      InsertKeyClass(less, StableSort(less, init), last, x);
    }
  }

  /** A key class depends only on the equivalence class it is taken for. */
  lemma {:induction false} KeyClassOfEquiv<T(!new)>(less: (T, T) -> bool, s: seq<T>, x: T, y: T)
    requires StrictWeakOrder(less)
    requires Equiv(less, x, y)
    ensures KeyClass(less, s, x) == KeyClass(less, s, y)
  {
    if s != [] {
      KeyClassOfEquiv(less, s[..|s| - 1], x, y);
    }
  }

  lemma {:induction false} KeyClassMembers<T>(less: (T, T) -> bool, s: seq<T>, x: T, y: T)
    requires y in KeyClass(less, s, x)
    ensures y in s && Equiv(less, y, x)
  {
    if s != [] {
      var init := s[..|s| - 1];
      if y in KeyClass(less, init, x) {
        KeyClassMembers(less, init, x, y);
        assert y in init;
      }
    }
  }

  /** The last element ends its own key class. */
  lemma KeyClassLast<T(!new)>(less: (T, T) -> bool, s: seq<T>)
    requires StrictWeakOrder(less)
    requires s != []
    ensures var c := KeyClass(less, s, s[|s| - 1]); c != [] && c[|c| - 1] == s[|s| - 1]
  {
    assert Equiv(less, s[|s| - 1], s[|s| - 1]);
  }

  /** Two sorted sequences with the same key classes are equal. */
  lemma {:induction false} SortedKeyClassesDetermine<T(!new)>(less: (T, T) -> bool, t: seq<T>, u: seq<T>)
    requires StrictWeakOrder(less)
    requires Sorted(less, t) && Sorted(less, u)
    requires forall x :: KeyClass(less, t, x) == KeyClass(less, u, x)
    ensures t == u
    decreases |t| + |u|
  {
    if t == [] || u == [] {
      // An empty sequence has only empty key classes, so the other is empty too.
      if t != [] {
        KeyClassLast(less, t);
      } else if u != [] {
        KeyClassLast(less, u);
      }
    } else {
      var lt, lu := t[|t| - 1], u[|u| - 1];
      var t', u' := t[..|t| - 1], u[..|u| - 1];
      // Each last element turns up in the other sequence, so neither is less than the other.
      assert lt in KeyClass(less, u, lt);
      KeyClassMembers(less, u, lt, lt);
      assert lu in KeyClass(less, t, lu);
      KeyClassMembers(less, t, lu, lu);
      var i :| 0 <= i < |u| && u[i] == lt;
      var j :| 0 <= j < |t| && t[j] == lu;
      assert !less(lu, lt) by {
        if i < |u| - 1 { assert !less(u[|u| - 1], u[i]); }
      }
      assert !less(lt, lu) by {
        if j < |t| - 1 { assert !less(t[|t| - 1], t[j]); }
      }
      // Hence both are the last element of one key class.
      KeyClassOfEquiv(less, u, lt, lu);
      KeyClassLast(less, t);
      KeyClassLast(less, u);
      assert KeyClass(less, t, lt) == KeyClass(less, u, lu);
      assert lt == lu;
      forall x
        ensures KeyClass(less, t', x) == KeyClass(less, u', x)
      {
        assert KeyClass(less, t, x) == KeyClass(less, u, x);
        var tail := if Equiv(less, lt, x) then [lt] else [];
        var ct, cu := KeyClass(less, t', x), KeyClass(less, u', x);
        assert ct + tail == cu + tail;
        assert ct == (ct + tail)[..|ct|];
        assert cu == (cu + tail)[..|cu|];
      }
      SortedKeyClassesDetermine(less, t', u');
      assert t == t' + [lt] && u == u' + [lu];
    }
  }

  /**
   `StableSort` is the only ordered arrangement that keeps every key class,
   so it is what any stable sort with this comparator returns.
   */
  lemma StableSortUnique<T(!new)>(less: (T, T) -> bool, s: seq<T>, t: seq<T>)
    requires StrictWeakOrder(less)
    requires Sorted(less, t)
    requires forall x :: KeyClass(less, t, x) == KeyClass(less, s, x)
    ensures t == StableSort(less, s)
  {
    StableSortSorted(less, s);
    forall x
      ensures KeyClass(less, t, x) == KeyClass(less, StableSort(less, s), x)
    {
      StableSortKeepsKeyClasses(less, s, x);
    }
    SortedKeyClassesDetermine(less, t, StableSort(less, s));
  }

  lemma {:induction false} KeyClassOfPrefix<T>(less: (T, T) -> bool, s: seq<T>, k: nat, x: T)
    requires k <= |s|
    ensures |KeyClass(less, s[..k], x)| <= |KeyClass(less, s, x)|
    ensures KeyClass(less, s[..k], x) == KeyClass(less, s, x)[..|KeyClass(less, s[..k], x)|]
    decreases |s|
  {
    if k < |s| {
      assert s[..k] == s[..|s| - 1][..k];
      KeyClassOfPrefix(less, s[..|s| - 1], k, x);
    } else {
      assert s[..k] == s;
    }
  }

  lemma InsertStep<T>(less: (T, T) -> bool, o: seq<T>, i: nat, j: nat, x: T)
    requires 0 < j <= i < |o|
    requires less(x, o[j - 1])
    requires Insert(less, o[..i], x) == Insert(less, o[..j], x) + o[j..i]
    ensures Insert(less, o[..i], x) == Insert(less, o[..j - 1], x) + o[j - 1..i]
  {
    assert o[..j][..j - 1] == o[..j - 1];
    assert o[j - 1..i] == [o[j - 1]] + o[j..i];
  }

  /** Shifting `o[j - 1]` up one place opens the gap at `j - 1`. */
  lemma ShiftStep<T>(o: seq<T>, i: nat, j: nat)
    requires 0 < j <= i < |o|
    ensures (o[..j + 1] + o[j..i] + o[i + 1..])[j := o[j - 1]] == o[..j] + o[j - 1..i] + o[i + 1..]
  {
    var l := (o[..j + 1] + o[j..i] + o[i + 1..])[j := o[j - 1]];
    var r := o[..j] + o[j - 1..i] + o[i + 1..];
    assert |l| == |r|;
    forall k | 0 <= k < |l|
      ensures l[k] == r[k]
    {
      if k < j {
      } else if k == j {
      } else if k <= i {
      } else {
      }
    }
  }

  /** Dropping `x` into the gap completes the insertion. */
  lemma FillStep<T>(less: (T, T) -> bool, o: seq<T>, i: nat, j: nat, x: T)
    requires j <= i < |o|
    requires j == 0 || !less(x, o[j - 1])
    requires Insert(less, o[..i], x) == Insert(less, o[..j], x) + o[j..i]
    ensures var r := (o[..j + 1] + o[j..i] + o[i + 1..])[j := x];
      r[..i + 1] == Insert(less, o[..i], x) && r[i + 1..] == o[i + 1..]
  {
    var r := (o[..j + 1] + o[j..i] + o[i + 1..])[j := x];
    var m := o[..j] + [x] + o[j..i] + o[i + 1..];
    assert |r| == |m|;
    forall k | 0 <= k < |r|
      ensures r[k] == m[k]
    {
      if k < j {
      } else if k == j {
      } else if k <= i {
      } else {
      }
    }
    assert Insert(less, o[..j], x) == o[..j] + [x];
    assert m[..i + 1] == o[..j] + [x] + o[j..i];
    assert m[i + 1..] == o[i + 1..];
  }

  /**
   One step of the in-place insertion sort: with `a[..i]` sorted, shift the
   elements `a[i]` is less than one place up and drop it into the gap.
   */
  method InsertInPlace<T>(a: array<T>, i: nat, less: (T, T) -> bool)
    requires i < a.Length
    modifies a
    ensures a[..i + 1] == Insert(less, old(a[..i]), old(a[i]))
    ensures a[i + 1..] == old(a[i + 1..])
  {
    ghost var o := a[..];
    var x := a[i];
    var j := i;
    assert o[..i + 1] + o[i..i] + o[i + 1..] == o;
    while j > 0 && less(x, a[j - 1])
      invariant 0 <= j <= i
      invariant a[..] == o[..j + 1] + o[j..i] + o[i + 1..]
      invariant Insert(less, o[..i], x) == Insert(less, o[..j], x) + o[j..i]
    {
      assert a[j - 1] == o[j - 1];
      InsertStep(less, o, i, j, x);
      ShiftStep(o, i, j);
      a[j] := a[j - 1];
      j := j - 1;
    }
    assert j > 0 ==> a[j - 1] == o[j - 1];
    FillStep(less, o, i, j, x);
    a[j] := x;
  }

  /** Sorting one more element is inserting it into the sorted prefix. */
  lemma SortStep<T>(less: (T, T) -> bool, o: seq<T>, cur: seq<T>, i: nat)
    requires i < |o| == |cur|
    requires cur[..i] == StableSort(less, o[..i]) && cur[i..] == o[i..]
    ensures Insert(less, cur[..i], cur[i]) == StableSort(less, o[..i + 1])
    ensures cur[i + 1..] == o[i + 1..]
  {
    assert o[..i + 1][..i] == o[..i];
    assert cur[i] == cur[i..][0];
    assert cur[i + 1..] == cur[i..][1..];
  }

  /** `sort_by` on a slice: an insertion sort, which never moves an element past an equivalent one. */
  method SortInPlace<T>(a: array<T>, less: (T, T) -> bool)
    modifies a
    ensures a[..] == StableSort(less, old(a[..]))
  {
    ghost var o := a[..];
    var i := 0;
    while i < a.Length
      invariant 0 <= i <= a.Length
      invariant a[..i] == StableSort(less, o[..i])
      invariant a[i..] == o[i..]
    {
      SortStep(less, o, a[..], i);
      InsertInPlace(a, i, less);
      i := i + 1;
    }
    assert a[..] == a[..a.Length];
    assert o == o[..a.Length];
  }
}
