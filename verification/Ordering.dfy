/** Stable sorting, as `Array.prototype.sort` does it, and the orders the program sorts by. */
module Ordering {

  /** Less or equal, for the comparison a sort is given. */
  type Order<!T> = (T, T) -> bool

  ghost predicate IsTotalPreorder<T(!new)>(le: Order<T>) {
    && (forall a, b :: le(a, b) || le(b, a))
    && (forall a, b, c :: le(a, b) && le(b, c) ==> le(a, c))
  }

  ghost predicate IsTotalOrder<T(!new)>(le: Order<T>) {
    IsTotalPreorder(le) && forall a, b :: le(a, b) && le(b, a) ==> a == b
  }

  ghost predicate IsSorted<T>(s: seq<T>, le: Order<T>) {
    forall i, j :: 0 <= i < j < |s| ==> le(s[i], s[j])
  }

  /** Puts an element before the first one it does not exceed. */
  function Insert<T>(x: T, s: seq<T>, le: Order<T>): (r: seq<T>)
    ensures |r| == |s| + 1
  {
    if s == [] || le(x, s[0]) then [x] + s
    else [s[0]] + Insert(x, s[1..], le)
  }

  /** Stable: an element keeps its place before later equal ones. */
  function Sort<T>(s: seq<T>, le: Order<T>): (r: seq<T>)
    ensures |r| == |s|
  {
    if s == [] then [] else Insert(s[0], Sort(s[1..], le), le)
  }

  lemma {:induction false} InsertPermutes<T>(x: T, s: seq<T>, le: Order<T>)
    ensures multiset(Insert(x, s, le)) == multiset{x} + multiset(s)
  {
    if s == [] || le(x, s[0]) {
    } else {
      InsertPermutes(x, s[1..], le);
      assert s == [s[0]] + s[1..];
    }
  }

  lemma {:induction false} SortPermutes<T>(s: seq<T>, le: Order<T>)
    ensures multiset(Sort(s, le)) == multiset(s)
  {
    if s != [] {
      SortPermutes(s[1..], le);
      InsertPermutes(s[0], Sort(s[1..], le), le);
      assert s == [s[0]] + s[1..];
    }
  }

  lemma SortKeepsElements<T>(s: seq<T>, le: Order<T>)
    ensures forall x :: x in Sort(s, le) <==> x in s
  {
    SortPermutes(s, le);
    forall x ensures x in Sort(s, le) <==> x in s {
      assert x in Sort(s, le) <==> x in multiset(Sort(s, le));
      assert x in s <==> x in multiset(s);
    }
  }

  lemma {:induction false} InsertSorts<T(!new)>(x: T, s: seq<T>, le: Order<T>)
    requires IsTotalPreorder(le) && IsSorted(s, le)
    ensures IsSorted(Insert(x, s, le), le)
  {
    if s == [] || le(x, s[0]) {
      forall j | 0 <= j < |s| ensures le(x, s[j]) {
      }
    } else {
      var rest := Insert(x, s[1..], le);
      InsertSorts(x, s[1..], le);
      InsertPermutes(x, s[1..], le);
      forall j | 0 <= j < |rest| ensures le(s[0], rest[j]) {
        assert rest[j] in multiset(rest);
        assert rest[j] == x || rest[j] in s[1..];
      }
    }
  }

  lemma {:induction false} SortSorts<T(!new)>(s: seq<T>, le: Order<T>)
    requires IsTotalPreorder(le)
    ensures IsSorted(Sort(s, le), le)
  {
    if s != [] {
      SortSorts(s[1..], le);
      InsertSorts(s[0], Sort(s[1..], le), le);
    }
  }

  /** The order is strict on these elements: no two places hold elements that compare equal. */
  ghost predicate IsStrictOn<T>(s: seq<T>, le: Order<T>) {
    forall i, j :: 0 <= i < |s| && 0 <= j < |s| && le(s[i], s[j]) && le(s[j], s[i]) ==> s[i] == s[j]
  }

  lemma SameElement<T>(a: seq<T>, b: seq<T>, x: T)
    requires multiset(a) == multiset(b)
    ensures x in a <==> x in b
  {
    assert x in a <==> x in multiset(a);
    assert x in b <==> x in multiset(b);
  }

  lemma {:induction false} CountOnce<T>(a: seq<T>, x: T)
    requires forall i, j :: 0 <= i < j < |a| ==> a[i] != a[j]
    ensures multiset(a)[x] == if x in a then 1 else 0
    decreases |a|
  {
    if a != [] {
      var n := |a| - 1;
      CountOnce(a[..n], x);
      assert a == a[..n] + [a[n]];
    }
  }

  /** Sorting keeps a list free of repetitions. */
  lemma SortKeepsDifferent<T>(s: seq<T>, le: Order<T>)
    requires forall i, j :: 0 <= i < j < |s| ==> s[i] != s[j]
    ensures forall i, j :: 0 <= i < j < |s| ==> Sort(s, le)[i] != Sort(s, le)[j]
  {
    SortPermutes(s, le);
    var sorted := Sort(s, le);
    forall i, j | 0 <= i < j < |s| ensures sorted[i] != sorted[j] {
      if sorted[i] == sorted[j] {
        CountOnce(s, sorted[i]);
        CountedTwice(sorted, i, j);
      }
    }
  }

  lemma CountedTwice<T>(s: seq<T>, i: nat, j: nat)
    requires i < j < |s| && s[i] == s[j]
    ensures multiset(s)[s[i]] >= 2
  {
    assert s == s[..j] + s[j..];
    assert s[i] in s[..j] && s[i] in s[j..];
  }

  lemma SameHead<T(!new)>(a: seq<T>, b: seq<T>, le: Order<T>)
    requires IsTotalPreorder(le) && IsSorted(a, le) && IsSorted(b, le)
    requires a != [] && b != [] && multiset(a) == multiset(b) && IsStrictOn(a, le)
    ensures a[0] == b[0]
  {
    SameElement(a, b, a[0]);
    SameElement(a, b, b[0]);
    var i :| 0 <= i < |b| && b[i] == a[0];
    var j :| 0 <= j < |a| && a[j] == b[0];
    assert le(b[0], b[0]) && le(a[0], a[0]);
    assert le(b[0], a[0]) && le(a[0], a[j]);
  }

  lemma TailMultiset<T>(s: seq<T>)
    requires s != []
    ensures multiset(s[1..]) == multiset(s) - multiset{s[0]}
  {
    assert s == [s[0]] + s[1..];
  }

  lemma {:induction false} SortedUnique<T(!new)>(a: seq<T>, b: seq<T>, le: Order<T>)
    requires IsTotalPreorder(le) && IsSorted(a, le) && IsSorted(b, le)
    requires multiset(a) == multiset(b) && IsStrictOn(a, le)
    ensures a == b
  {
    assert |multiset(a)| == |a| && |multiset(b)| == |b|;
    if a != [] {
      var restA, restB := a[1..], b[1..];
      SameHead(a, b, le);
      TailMultiset(a);
      TailMultiset(b);
      SortedUnique(restA, restB, le);
      assert a == [a[0]] + restA && b == [b[0]] + restB;
    }
  }

  /** The sorted list depends on the elements alone, not on the order they came in. */
  lemma SortForgetsOrder<T(!new)>(a: seq<T>, b: seq<T>, le: Order<T>)
    requires IsTotalPreorder(le) && multiset(a) == multiset(b) && IsStrictOn(a, le)
    ensures Sort(a, le) == Sort(b, le)
  {
    SortSorts(a, le);
    SortSorts(b, le);
    SortPermutes(a, le);
    SortPermutes(b, le);
    var s := Sort(a, le);
    forall i, j | 0 <= i < |s| && 0 <= j < |s| && le(s[i], s[j]) && le(s[j], s[i])
      ensures s[i] == s[j]
    {
      assert s[i] in multiset(a) && s[j] in multiset(a);
    }
    SortedUnique(s, Sort(b, le), le);
  }

  /** A sorted list is its own sorted form. */
  lemma {:induction false} SortOfSorted<T>(s: seq<T>, le: Order<T>)
    requires IsSorted(s, le)
    ensures Sort(s, le) == s
  {
    if s != [] {
      SortOfSorted(s[1..], le);
      assert s == [s[0]] + s[1..];
      assert |s| > 1 ==> le(s[0], s[1]);
    }
  }

  /** The default comparison of strings: by code unit, a prefix first. */
  predicate ByCodeUnit(a: string, b: string) {
    a == "" || (b != "" && (a[0] < b[0] || (a[0] == b[0] && ByCodeUnit(a[1..], b[1..]))))
  }

  lemma {:induction false} ByCodeUnitTotal(a: string, b: string)
    ensures ByCodeUnit(a, b) || ByCodeUnit(b, a)
    ensures ByCodeUnit(a, b) && ByCodeUnit(b, a) ==> a == b
  {
    if a != "" && b != "" && a[0] == b[0] {
      ByCodeUnitTotal(a[1..], b[1..]);
      assert a == [a[0]] + a[1..] && b == [b[0]] + b[1..];
    }
  }

  lemma {:induction false} ByCodeUnitTransitive(a: string, b: string, c: string)
    requires ByCodeUnit(a, b) && ByCodeUnit(b, c)
    ensures ByCodeUnit(a, c)
  {
    if a != "" && b != "" && c != "" && a[0] == b[0] == c[0] {
      ByCodeUnitTransitive(a[1..], b[1..], c[1..]);
    }
  }

  lemma ByCodeUnitIsOrder()
    ensures IsTotalOrder(ByCodeUnit)
  {
    forall a, b ensures (ByCodeUnit(a, b) || ByCodeUnit(b, a)) && (ByCodeUnit(a, b) && ByCodeUnit(b, a) ==> a == b) {
      ByCodeUnitTotal(a, b);
    }
    forall a, b, c | ByCodeUnit(a, b) && ByCodeUnit(b, c) ensures ByCodeUnit(a, c) {
      ByCodeUnitTransitive(a, b, c);
    }
  }
}
