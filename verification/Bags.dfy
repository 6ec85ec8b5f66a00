/** Collecting the contributions of a list's members: the order of the list does not matter. */
module Bags {

  function Gather<T, U>(s: seq<T>, f: T -> multiset<U>): multiset<U> {
    if s == [] then multiset{} else Gather(s[..|s| - 1], f) + f(s[|s| - 1])
  }

  lemma {:induction false} GatherConcat<T, U>(a: seq<T>, b: seq<T>, f: T -> multiset<U>)
    ensures Gather(a + b, f) == Gather(a, f) + Gather(b, f)
    decreases |b|
  {
    if b == [] {
      assert a + b == a;
    } else {
      var n := |b| - 1;
      GatherConcat(a, b[..n], f);
      assert (a + b)[..|a| + n] == a + b[..n];
    }
  }

  lemma GatherOne<T, U>(x: T, f: T -> multiset<U>)
    ensures Gather([x], f) == f(x)
  {
    assert Gather([x], f) == Gather([x][..0], f) + f(x);
  }

  lemma GatherMiddle<T, U>(before: seq<T>, x: T, after: seq<T>, f: T -> multiset<U>)
    ensures Gather((before + [x]) + after, f) == Gather(before + after, f) + f(x)
  {
    GatherConcat(before + [x], after, f);
    GatherConcat(before, [x], f);
    GatherConcat(before, after, f);
    GatherOne(x, f);
  }

  lemma SplitAt<T>(b: seq<T>, k: nat)
    requires k < |b|
    ensures b == (b[..k] + [b[k]]) + b[k + 1..]
  {
  }

  /** A member can be taken out wherever it stands. */
  lemma GatherWithout<T, U>(b: seq<T>, k: nat, f: T -> multiset<U>)
    requires k < |b|
    ensures Gather(b, f) == Gather(b[..k] + b[k + 1..], f) + f(b[k])
  {
    SplitAt(b, k);
    GatherMiddle(b[..k], b[k], b[k + 1..], f);
  }

  lemma MembersWithout<T>(b: seq<T>, k: nat)
    requires k < |b|
    ensures multiset(b[..k] + b[k + 1..]) == multiset(b) - multiset{b[k]}
  {
    assert b == b[..k] + ([b[k]] + b[k + 1..]);
  }

  lemma {:induction false} GatherForgetsOrder<T, U>(a: seq<T>, b: seq<T>, f: T -> multiset<U>)
    requires multiset(a) == multiset(b)
    ensures Gather(a, f) == Gather(b, f)
    decreases |a|
  {
    if a == [] {
      assert |multiset(b)| == 0;
    } else {
      var n := |a| - 1;
      assert a[..n] + a[n + 1..] == a[..n];
      GatherWithout(a, n, f);
      MembersWithout(a, n);
      assert a[n] in multiset(b);
      var k :| 0 <= k < |b| && b[k] == a[n];
      GatherWithout(b, k, f);
      MembersWithout(b, k);
      GatherForgetsOrder(a[..n], b[..k] + b[k + 1..], f);
    }
  }
}
