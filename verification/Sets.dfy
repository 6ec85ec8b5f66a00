/** Sizes of finite sets, lists without repetitions, as a JavaScript `Set` keeps them, and mapped lists. */
module Sets {

  predicate Distinct<T(==)>(s: seq<T>) {
    forall i, j :: 0 <= i < j < |s| ==> s[i] != s[j]
  }

  ghost predicate Injective<T(!new), U(!new)>(f: T -> U) {
    forall x, y :: f(x) == f(y) ==> x == y
  }

  function Mapped<T, U>(s: seq<T>, f: T -> U): (r: seq<U>)
    ensures |r| == |s| && forall k :: 0 <= k < |r| ==> r[k] == f(s[k])
  {
    seq(|s|, k requires 0 <= k < |s| => f(s[k]))
  }

  lemma {:induction false} SubsetSize<T>(a: set<T>, b: set<T>)
    requires a <= b
    ensures |a| <= |b|
    ensures |a| == |b| ==> a == b
    decreases a
  {
    if a != {} {
      var x :| x in a;
      SubsetSize(a - {x}, b - {x});
    } else if |b| == 0 {
      assert b == {};
    }
  }

  lemma {:induction false} SetOfSeqSize<T>(s: seq<T>)
    ensures |set x | x in s| <= |s|
  {
    if s == [] {
      assert (set x | x in s) == {};
    } else {
      SetOfSeqSize(s[1..]);
      assert (set x | x in s) == {s[0]} + set x | x in s[1..];
    }
  }

  lemma {:induction false} DistinctSize<T>(s: seq<T>)
    requires Distinct(s)
    ensures |set x | x in s| == |s|
  {
    if s == [] {
      assert (set x | x in s) == {};
    } else {
      DistinctSize(s[1..]);
      assert (set x | x in s) == {s[0]} + set x | x in s[1..];
    }
  }

  function Add<T(==)>(s: seq<T>, x: T): seq<T> {
    if x in s then s else s + [x]
  }

  /** Adds the elements in order, each unless it is there: `[...new Set([...s, ...xs])]`. */
  function AddAll<T(==)>(s: seq<T>, xs: seq<T>): seq<T>
    decreases xs
  {
    if xs == [] then s else AddAll(Add(s, xs[0]), xs[1..])
  }

  lemma {:induction false} AddAllMeans<T>(s: seq<T>, xs: seq<T>)
    ensures forall x :: x in AddAll(s, xs) <==> x in s || x in xs
    ensures Distinct(s) ==> Distinct(AddAll(s, xs))
    decreases xs
  {
    if xs != [] {
      AddAllMeans(Add(s, xs[0]), xs[1..]);
    }
  }
}
