/**
 The minimum policy version of a workflow. The comparison is written three times in the
 program, in three ways; on numbers that are exact in JavaScript they accept the same.
 */
module Policy {
  import opened Numbers

  /** `^\d+\.\d+\.\d+$` */
  predicate IsVersion(s: string) {
    var first := SpanDigits(s);
    && first.0 != "" && first.1 != "" && first.1[0] == '.'
    && var second := SpanDigits(first.1[1..]);
       && second.0 != "" && second.1 != "" && second.1[0] == '.'
       && IsNumeral(second.1[1..])
  }

  lemma ThreeNumerals(a: string, b: string, c: string)
    requires IsNumeral(a) && IsNumeral(b) && IsNumeral(c)
    ensures IsVersion(a + ("." + (b + ("." + c))))
  {
    SpanDigitsOfNumeral(b, "." + c);
    SpanDigitsOfNumeral(a, "." + (b + ("." + c)));
    assert ("." + c)[1..] == c;
    assert ("." + (b + ("." + c)))[1..] == b + ("." + c);
  }

  type Version = v: seq<nat> | |v| == 3 witness [0, 0, 0]

  const MAX_SAFE_INTEGER := 9007199254740991

  predicate EqualUpTo(a: Version, b: Version, i: int) {
    forall j :: 0 <= j < i && j < 3 ==> a[j] == b[j]
  }

  /** The first number that differs decides. */
  predicate Reaches(policy: Version, minimum: Version) {
    policy == minimum || exists i :: 0 <= i < 3 && EqualUpTo(policy, minimum, i) && policy[i] > minimum[i]
  }

  predicate Exact(version: Version) {
    forall i :: 0 <= i < 3 ==> version[i] <= MAX_SAFE_INTEGER
  }

  /** The check of the readiness plan: a smaller number refuses, a greater one ends the loop. */
  method CheckForPlan(policy: Version, minimum: Version) returns (ok: bool)
    ensures ok <==> Reaches(policy, minimum)
  {
    var i := 0;
    while i < 3
      invariant 0 <= i <= 3 && EqualUpTo(policy, minimum, i)
    {
      if policy[i] < minimum[i] { return false; }
      if policy[i] > minimum[i] { return true; }
      i := i + 1;
    }
    assert policy == minimum;
    ok := true;
  }

  /** The check of grants, which also refuses numbers that are not exact. */
  method CheckForGrant(current: Version, minimum: Version) returns (ok: bool)
    ensures ok <==> Exact(current) && Exact(minimum) && Reaches(current, minimum)
  {
    if !Exact(current) || !Exact(minimum) { return false; }
    var i := 0;
    while i < 3
      invariant 0 <= i <= 3 && EqualUpTo(current, minimum, i)
    {
      if current[i] > minimum[i] { return true; }
      if current[i] < minimum[i] { return false; }
      i := i + 1;
    }
    assert current == minimum;
    ok := true;
  }

  /** The check of prompt rendering: some number is smaller while all before it are equal. */
  predicate Below(actual: Version, minimum: Version) {
    exists i :: 0 <= i < 3 && actual[i] != minimum[i] && EqualUpTo(actual, minimum, i) && actual[i] < minimum[i]
  }

  /** The check of prompt rendering refuses exactly what the other two refuse. */
  lemma PolicyChecksAgree(policy: Version, minimum: Version)
    ensures Below(policy, minimum) <==> !Reaches(policy, minimum)
  {
    if !Reaches(policy, minimum) {
      FirstDifference(policy, minimum);
    }
  }

  lemma FirstDifference(a: Version, b: Version)
    requires a != b
    ensures exists i :: 0 <= i < 3 && EqualUpTo(a, b, i) && a[i] != b[i]
  {
    assert a[0] != b[0] || a[1] != b[1] || a[2] != b[2] by {
      assert a == [a[0], a[1], a[2]] && b == [b[0], b[1], b[2]];
    }
    assert EqualUpTo(a, b, 0);
    assert a[0] == b[0] ==> EqualUpTo(a, b, 1);
    assert a[0] == b[0] && a[1] == b[1] ==> EqualUpTo(a, b, 2);
  }

  /** Versions are totally ordered by the check. */
  lemma ReachesIsTotal(a: Version, b: Version)
    ensures Reaches(a, b) || Reaches(b, a)
    ensures Reaches(a, b) && Reaches(b, a) ==> a == b
  {
    if a != b {
      FirstDifference(a, b);
    }
  }
}
