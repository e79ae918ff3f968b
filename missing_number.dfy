/** `findMissing` from MissingNumberFinder.java: the value of 0..n that an array
    of length n lacks, as the Gauss sum n*(n+1)/2 minus the array's sum, all in
    Java's 32-bit `int`. */
module MissingNumberFinder {

  import opened Int32

  /** The exact (unbounded) sum of the elements. */
  function Sum(s: seq<int>): int {
    if s == [] then 0 else Sum(s[..|s| - 1]) + s[|s| - 1]
  }

  predicate Distinct(s: seq<int>) {
    forall i, j :: 0 <= i < j < |s| ==> s[i] != s[j]
  }

  /** The input `findMissing` is meant for: `|s|` distinct values, each in 0..|s|. */
  predicate IsGaussInput(s: seq<int>) {
    Distinct(s) && forall i :: 0 <= i < |s| ==> 0 <= s[i] <= |s|
  }

  /** m is a value of 0..|s| that `s` lacks. */
  predicate IsAbsent(s: seq<int>, m: int) {
    0 <= m <= |s| && m !in s
  }

  /** `expectedSum` as the source computes it: `(n * (n + 1)) / 2`, where the
      multiplication wraps around in 32 bits and `/` truncates toward zero.
      Up to 46340 nothing wraps and it is the Gauss sum. */
  function ExpectedSumAsWritten(n: int): (e: int)
    requires 0 <= n <= MAX
    ensures InRange(e)
    ensures n <= 46340 ==> e == n * (n + 1) / 2
  {
    if n <= 46340 then MulBound(n, n + 1, 46340, 46341); JavaDiv(Wrap(n * Wrap(n + 1)), 2)
    else JavaDiv(Wrap(n * Wrap(n + 1)), 2)
  }

  /** `findMissing` as written: the sum accumulates with 32-bit wrap-around and
      the final subtraction wraps too. */
  method FindMissing(arr: array<int>) returns (r: int)
    requires arr.Length <= MAX
    requires forall i :: 0 <= i < arr.Length ==> InRange(arr[i])
    ensures InRange(r)
    ensures r == Wrap(ExpectedSumAsWritten(arr.Length) - Wrap(Sum(arr[..])))
    ensures arr.Length <= 46340 && IsGaussInput(arr[..]) ==> IsAbsent(arr[..], r)
  {
    var n := arr.Length;
    var expectedSum := JavaDiv(Wrap(n * Wrap(n + 1)), 2);
    var actualSum := 0;
    for i := 0 to n
      invariant actualSum == Wrap(Sum(arr[..i]))
    {
      assert arr[..i + 1][..i] == arr[..i];
      WrapAdd(Sum(arr[..i]), arr[i]);
      actualSum := Wrap(actualSum + arr[i]);
    }
    assert arr[..n] == arr[..];
    r := Wrap(expectedSum - actualSum);
    if n <= 46340 && IsGaussInput(arr[..]) {
      FindMissingAsWrittenSmall(arr[..]);
    }
  }

  /** For arrays of at most 46340 elements nothing overflows, and the result
      is the one absent value. */
  lemma FindMissingAsWrittenSmall(s: seq<int>)
    requires |s| <= 46340 && IsGaussInput(s)
    ensures IsAbsent(s, Wrap(ExpectedSumAsWritten(|s|) - Wrap(Sum(s))))
  {
    var n := |s|;
    var m := OneAbsent(s);
    SumOfAllBut(s, n, m);
    var p := n * (n + 1);
    MulBound(n, n + 1, 46340, 46341);
    GaussAtLeast(n);
    assert ExpectedSumAsWritten(n) == p / 2;
    assert Wrap(Sum(s)) == Sum(s);
  }

  lemma GaussAtLeast(n: nat)
    ensures n <= n * (n + 1) / 2
  {
    if n > 0 {
      MulBound(n, 2, n, n + 1);
    }
  }

  lemma MulBound(a: nat, b: nat, x: nat, y: nat)
    requires a <= x && b <= y
    ensures a * b <= x * y
  {
  }

  /** At 46341 elements `n * (n + 1)` overflows: `expectedSum` is off by 2^31,
      and the result is the absent value minus 2^31. */
  lemma FindMissingOverflows(s: seq<int>, m: int)
    requires |s| == 46341 && IsGaussInput(s) && IsAbsent(s, m)
    ensures Wrap(ExpectedSumAsWritten(|s|) - Wrap(Sum(s))) == m - 0x8000_0000
    ensures !IsAbsent(s, Wrap(ExpectedSumAsWritten(|s|) - Wrap(Sum(s))))
  {
    var n := |s|;
    var m' := OneAbsent(s);
    SumOfAllBut(s, n, m');
    assert m' == m;
    assert ExpectedSumAsWritten(n) == -1073716337;
    assert Sum(s) == 1073767311 - m;
  }

  /** The corrected `findMissing`: the sums are computed in `long`, where they
      cannot overflow, and only the final difference is narrowed to `int`. */
  method FindMissingCorrected(arr: array<int>) returns (r: int)
    requires arr.Length <= MAX
    requires forall i :: 0 <= i < arr.Length ==> InRange(arr[i])
    ensures InRange(r)
    ensures r == Wrap(arr.Length * (arr.Length + 1) / 2 - Sum(arr[..]))
    ensures IsGaussInput(arr[..]) ==> IsAbsent(arr[..], r)
  {
    var n := arr.Length;
    var expectedSum := n * (n + 1) / 2;
    var actualSum := 0;
    for i := 0 to n
      invariant actualSum == Sum(arr[..i])
    {
      assert arr[..i + 1][..i] == arr[..i];
      actualSum := actualSum + arr[i];
    }
    assert arr[..n] == arr[..];
    r := Wrap(expectedSum - actualSum);
    if IsGaussInput(arr[..]) {
      var m := OneAbsent(arr[..]);
      SumOfAllBut(arr[..], n, m);
    }
  }

  /** A Gauss input lacks exactly one value of 0..n (pigeonhole). */
  lemma OneAbsent(s: seq<int>) returns (m: int)
    requires IsGaussInput(s)
    ensures IsAbsent(s, m)
    ensures forall v :: 0 <= v <= |s| && v !in s ==> v == m
  {
    var present := set i | 0 <= i < |s| :: s[i];
    var range := Below(|s| + 1);
    DistinctCard(s);
    assert present <= range;
    assert range * present == present;
    var gaps := range - present;
    assert |gaps| == |range| - |present| == 1;
    m :| m in gaps;
    forall v | 0 <= v <= |s| && v !in s
      ensures v == m
    {
      assert v in gaps;
      assert |gaps - {m}| == 0;
      assert v !in gaps - {m};
    }
  }

  lemma {:induction false} DistinctCard(s: seq<int>)
    requires Distinct(s)
    ensures |set i | 0 <= i < |s| :: s[i]| == |s|
  {
    if s != [] {
      var t := s[..|s| - 1];
      DistinctCard(t);
      var st := set i | 0 <= i < |t| :: t[i];
      assert (set i | 0 <= i < |s| :: s[i]) == st + {s[|s| - 1]};
      assert s[|s| - 1] !in st;
    }
  }

  /** The set 0..n-1. */
  function Below(n: nat): (r: set<int>)
    ensures |r| == n
    ensures forall v :: v in r <==> 0 <= v < n
  {
    if n == 0 then {} else Below(n - 1) + {n - 1}
  }

  /** The sum of an arrangement of 0..n without m is n*(n+1)/2 - m. Each step
      takes away the largest value still present. */
  lemma {:induction false} SumOfAllBut(s: seq<int>, n: nat, m: int)
    requires |s| == n && Distinct(s) && 0 <= m <= n
    requires forall i :: 0 <= i < |s| ==> 0 <= s[i] <= n && s[i] != m
    requires forall v :: 0 <= v <= n && v != m ==> v in s
    ensures Sum(s) == n * (n + 1) / 2 - m
  {
    if n > 0 {
      var top := if m == n then n - 1 else n;
      var m' := if m == n then n - 1 else m;
      var j, rest := TakeTop(s, n, m, top, m');
      SumRemove(s, j);
      SumOfAllBut(rest, n - 1, m');
      GaussStep(n);
    }
  }

  /** Taking the largest present value `top` out of an arrangement of 0..n
      without m leaves an arrangement of 0..n-1 without m'. */
  lemma TakeTop(s: seq<int>, n: nat, m: int, top: int, m': int) returns (j: int, rest: seq<int>)
    requires |s| == n && Distinct(s) && 0 <= m <= n && n > 0
    requires forall i :: 0 <= i < |s| ==> 0 <= s[i] <= n && s[i] != m
    requires forall v :: 0 <= v <= n && v != m ==> v in s
    requires top == (if m == n then n - 1 else n) && m' == (if m == n then n - 1 else m)
    ensures 0 <= j < |s| && s[j] == top && rest == s[..j] + s[j + 1..]
    ensures |rest| == n - 1 && Distinct(rest) && 0 <= m' <= n - 1
    ensures forall i :: 0 <= i < |rest| ==> 0 <= rest[i] <= n - 1 && rest[i] != m'
    ensures forall v :: 0 <= v <= n - 1 && v != m' ==> v in rest
  {
    assert top in s;
    j :| 0 <= j < |s| && s[j] == top;
    rest := s[..j] + s[j + 1..];
    RemoveAt(s, j);
    forall i | 0 <= i < |rest|
      ensures 0 <= rest[i] <= n - 1 && rest[i] != m'
    {
      assert rest[i] in rest;
    }
    forall v | 0 <= v <= n - 1 && v != m'
      ensures v in rest
    {
      assert v in s;
    }
  }

  lemma GaussStep(n: nat)
    requires n > 0
    ensures n * (n + 1) / 2 == (n - 1) * n / 2 + n
  {
    assert n * (n + 1) == (n - 1) * n + 2 * n;
  }

  /** Taking out the element at j of a distinct sequence keeps it distinct and
      takes out exactly that value. */
  lemma RemoveAt(s: seq<int>, j: int)
    requires 0 <= j < |s| && Distinct(s)
    ensures Distinct(s[..j] + s[j + 1..])
    ensures forall v :: v in s[..j] + s[j + 1..] <==> v in s && v != s[j]
  {
    var rest := s[..j] + s[j + 1..];
    forall i | 0 <= i < |rest|
      ensures rest[i] == s[if i < j then i else i + 1]
    {
    }
    forall v | v in s && v != s[j]
      ensures v in rest
    {
      var k :| 0 <= k < |s| && s[k] == v;
      if k < j { assert rest[k] == v; } else { assert rest[k - 1] == v; }
    }
  }

  /** Taking out the element at j takes it out of the sum. */
  lemma {:induction false} SumRemove(s: seq<int>, j: int)
    requires 0 <= j < |s|
    ensures Sum(s) == s[j] + Sum(s[..j] + s[j + 1..])
  {
    var last := |s| - 1;
    if j < last {
      var t := s[..last];
      SumRemove(t, j);
      assert (s[..j] + s[j + 1..])[..last - 1] == t[..j] + t[j + 1..];
    } else {
      assert s[..j] + s[j + 1..] == s[..last];
    }
  }

  /** The run in `main`: {3, 0, 1} lacks 2. */
  method DemoRun() returns (missing: int)
    ensures missing == 2
  {
    var arr := new int[3];
    arr[0], arr[1], arr[2] := 3, 0, 1;
    assert arr[..] == [3, 0, 1];
    missing := FindMissing(arr);
    var m := OneAbsent(arr[..]);
    assert m == 2 by {
      assert 2 !in arr[..];
    }
  }
}
