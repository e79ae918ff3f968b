/** ArrayRotator from Challege_ArrayRotator/Program.cs: right rotation of an
    `int[]` in place by three reversals. */
module ArrayRotator {

  import Modular
  import opened Int32

  /** How a call ends: normally, or with the exception C# raises. */
  datatype Outcome = Completed | DivideByZeroException | IndexOutOfRangeException

  /** An independent reference: the reversal of a whole sequence. */
  function Reversed(s: seq<int>): (r: seq<int>)
    ensures |r| == |s|
  {
    if s == [] then [] else Reversed(s[1..]) + [s[0]]
  }

  lemma {:induction false} ReversedAt(s: seq<int>, i: int)
    requires 0 <= i < |s|
    ensures Reversed(s)[i] == s[|s| - 1 - i]
  {
    if i < |s| - 1 {
      ReversedAt(s[1..], i);
    }
  }

  /** `s` with the slice from `start` to `end` (both inclusive) reversed by
      swapping its two ends and moving inward; nothing happens when
      `start >= end`. */
  function ReverseRange(s: seq<int>, start: int, end: int): (r: seq<int>)
    requires start >= end || (0 <= start && end < |s|)
    ensures |r| == |s|
    decreases end - start
  {
    if start >= end then s else ReverseRange(s[start := s[end]][end := s[start]], start + 1, end - 1)
  }

  /** What ReverseRange means element by element: inside the slice index `i`
      takes the value mirrored about the slice's middle, outside it nothing
      moves. */
  lemma {:induction false} ReverseRangeAt(s: seq<int>, start: int, end: int, i: int)
    requires start >= end || (0 <= start && end < |s|)
    requires 0 <= i < |s|
    ensures ReverseRange(s, start, end)[i] == if start <= i <= end then s[start + end - i] else s[i]
    decreases end - start
  {
    if start < end {
      var u := s[start := s[end]][end := s[start]];
      ReverseRangeAt(u, start + 1, end - 1, i);
    }
  }

  /** ReverseRange agrees with cutting out the slice, reversing it and putting it back. */
  lemma ReverseRangeIsSliceReversal(s: seq<int>, start: int, end: int)
    requires 0 <= start < end < |s|
    ensures ReverseRange(s, start, end) == s[..start] + Reversed(s[start..end + 1]) + s[end + 1..]
  {
    var t := s[..start] + Reversed(s[start..end + 1]) + s[end + 1..];
    forall i | 0 <= i < |s|
      ensures ReverseRange(s, start, end)[i] == t[i]
    {
      ReverseRangeAt(s, start, end, i);
      if start <= i <= end {
        ReversedAt(s[start..end + 1], i - start);
      }
    }
  }

  /** The right rotation by k: the last `k` elements move to the front. */
  function RotatedRight(s: seq<int>, k: nat): (r: seq<int>)
    requires k <= |s|
    ensures |r| == |s|
  {
    s[|s| - k..] + s[..|s| - k]
  }

  /** What a right rotation means: the element at `i` moves to `(i + k) % n`. */
  lemma RotatedRightAt(s: seq<int>, k: nat, i: int)
    requires k <= |s| && 0 <= i < |s|
    ensures RotatedRight(s, k)[(i + k) % |s|] == s[i]
  {
    var n := |s|;
    if i + k < n {
      Modular.DivModUnique(i + k, n, 0, i + k);
    } else {
      Modular.DivModUnique(i + k, n, 1, i + k - n);
    }
  }

  /** A rotation only moves elements around. */
  lemma RotatedRightPermutes(s: seq<int>, k: nat)
    requires k <= |s|
    ensures multiset(RotatedRight(s, k)) == multiset(s)
  {
    assert s == s[..|s| - k] + s[|s| - k..];
  }

  /** The triple reversal of `Rotate` computes the right rotation by `k`: first
      the whole sequence, then its first `k` elements, then the rest. */
  lemma TripleReversal(s: seq<int>, a: seq<int>, b: seq<int>, c: seq<int>, k: nat)
    requires 0 < |s| && k < |s|
    requires a == ReverseRange(s, 0, |s| - 1)
    requires b == ReverseRange(a, 0, k - 1)
    requires c == ReverseRange(b, k, |s| - 1)
    ensures c == RotatedRight(s, k)
  {
    var n := |s|;
    forall i | 0 <= i < n
      ensures c[i] == RotatedRight(s, k)[i]
    {
      ReverseRangeAt(b, k, n - 1, i);
      if i < k {
        ReverseRangeAt(a, 0, k - 1, i);
        ReverseRangeAt(s, 0, n - 1, k - 1 - i);
        assert c[i] == b[i] == a[k - 1 - i] == s[n - k + i];
      } else {
        var j := k + n - 1 - i;
        ReverseRangeAt(a, 0, k - 1, j);
        ReverseRangeAt(s, 0, n - 1, j);
        assert c[i] == b[j] == a[j] == s[i - k];
      }
    }
  }

  /** `Reverse(nums, start, end)`: swaps from both ends toward the middle.
      With `start < end` and either bound outside the array, the first swap
      reads outside it and throws before anything is written. */
  method Reverse(nums: array<int>, start: int, end: int) returns (outcome: Outcome)
    modifies nums
    ensures outcome != DivideByZeroException
    ensures outcome == IndexOutOfRangeException <==> start < end && (start < 0 || end >= nums.Length)
    ensures outcome == Completed ==> nums[..] == ReverseRange(old(nums[..]), start, end)
    ensures outcome == IndexOutOfRangeException ==> nums[..] == old(nums[..])
  {
    if start < end && (start < 0 || end >= nums.Length) {
      return IndexOutOfRangeException;
    }
    var lo, hi := start, end;
    while lo < hi
      invariant start >= end ==> lo == start && hi == end
      invariant start < end ==> 0 <= start <= lo && hi <= end < nums.Length && lo <= hi + 1
      invariant ReverseRange(nums[..], lo, hi) == ReverseRange(old(nums[..]), start, end)
    {
      ghost var before := nums[..];
      nums[lo], nums[hi] := nums[hi], nums[lo];
      assert nums[..] == before[lo := before[hi]][hi := before[lo]];
      lo, hi := lo + 1, hi - 1;
    }
    return Completed;
  }

  /** `Rotate(nums, k)`: a right rotation by k. C#'s `k % n` throws for an empty
      array. For a negative k that is not a multiple of n, `k % n` is negative:
      the whole array has already been reversed when the third reversal starts
      outside it and throws. Any other k rotates, even a negative multiple of n
      (by nothing). */
  method Rotate(nums: array<int>, k: int) returns (outcome: Outcome)
    requires InRange(k)
    modifies nums
    ensures outcome == DivideByZeroException <==> nums.Length == 0
    ensures outcome == Completed <==> nums.Length > 0 && (k >= 0 || k % nums.Length == 0)
    ensures outcome == Completed ==>
      && nums[..] == RotatedRight(old(nums[..]), k % nums.Length)
      && (forall i :: 0 <= i < nums.Length ==> nums[(i + k) % nums.Length] == old(nums[i]))
      && multiset(nums[..]) == multiset(old(nums[..]))
    ensures outcome == IndexOutOfRangeException ==> nums[..] == ReverseRange(old(nums[..]), 0, nums.Length - 1)
    ensures outcome == DivideByZeroException ==> nums[..] == old(nums[..])
  {
    var n := nums.Length;
    if n == 0 {
      return DivideByZeroException;
    }
    var r := JavaRem(k, n);
    RemainderZero(k, n);
    ghost var original := nums[..];
    outcome := ReverseThree(nums, r);
    if outcome == Completed {
      RotatedRightFacts(original, nums[..], k);
    }
  }

  /** The three reversals of `Rotate` with `r == k % n`: they rotate right by
      r when r is not negative; otherwise the third one throws, after the
      first has reversed the whole array. */
  method ReverseThree(nums: array<int>, r: int) returns (outcome: Outcome)
    requires nums.Length > 0 && -nums.Length < r < nums.Length
    modifies nums
    ensures outcome == Completed <==> r >= 0
    ensures outcome != Completed ==> outcome == IndexOutOfRangeException
    ensures outcome == Completed ==> nums[..] == RotatedRight(old(nums[..]), r)
    ensures outcome != Completed ==> nums[..] == ReverseRange(old(nums[..]), 0, nums.Length - 1)
  {
    var n := nums.Length;
    ghost var s := nums[..];
    var whole := Reverse(nums, 0, n - 1);
    ghost var a := nums[..];
    var first := Reverse(nums, 0, r - 1);
    ghost var b := nums[..];
    assert whole == Completed && first == Completed;
    assert a == ReverseRange(s, 0, n - 1);
    assert b == ReverseRange(a, 0, r - 1);
    outcome := Reverse(nums, r, n - 1);
    if outcome == Completed {
      ghost var c := nums[..];
      assert c == ReverseRange(b, r, n - 1);
      assert 0 <= r < |s| && |s| == n;
      TripleReversal(s, a, b, c, r);
    }
  }

  /** The right rotation by `k % n` sends each element at i to `(i + k) % n`
      and keeps the multiset. */
  lemma RotatedRightFacts(s: seq<int>, c: seq<int>, k: int)
    requires |s| > 0 && c == RotatedRight(s, k % |s|)
    ensures forall i :: 0 <= i < |s| ==> c[(i + k) % |s|] == s[i]
    ensures multiset(c) == multiset(s)
  {
    forall i | 0 <= i < |s|
      ensures c[(i + k) % |s|] == s[i]
    {
      RotatedRightByAnyAt(s, k, i);
    }
    RotatedRightPermutes(s, k % |s|);
  }

  /** A truncated remainder that is not negative is the Euclidean one. */
  lemma RemainderZero(k: int, n: int)
    requires n > 0
    ensures JavaRem(k, n) >= 0 <==> k >= 0 || k % n == 0
    ensures JavaRem(k, n) >= 0 ==> JavaRem(k, n) == k % n
  {
    var m := JavaRem(k, n);
    if k < 0 {
      var q := JavaDiv(k, n);
      if m == 0 {
        Modular.DivModUnique(k, n, q, 0);
      } else {
        Modular.DivModUnique(k, n, q - 1, m + n);
      }
    }
  }

  /** Rotating by k and by `k % n` move each element to the same place. */
  lemma RotatedRightByAnyAt(s: seq<int>, k: int, i: int)
    requires 0 <= i < |s|
    ensures 0 <= (i + k) % |s| < |s|
    ensures RotatedRight(s, k % |s|)[(i + k) % |s|] == s[i]
  {
    RotatedRightAt(s, k % |s|, i);
    ModSum(i, k, |s|);
  }

  /** Rotating by k and by `k % n` move each index to the same place. */
  lemma ModSum(i: nat, k: int, n: nat)
    requires n > 0
    ensures (i + k) % n == (i + k % n) % n
  {
    Modular.DivModUnique(k, n, k / n, k % n);
    assert i + k == (i + k % n) + (k / n) * n;
    Modular.ModAddMultiple(i + k % n, k / n, n);
  }

  /** The rotation `Main` asks for, worked out. */
  lemma RotateExample()
    ensures RotatedRight([1, 2, 3, 4, 5, 6, 7], 3 % 7) == [5, 6, 7, 1, 2, 3, 4]
  {
    assert 3 % 7 == 3;
    assert [1, 2, 3, 4, 5, 6, 7][4..] == [5, 6, 7];
    assert [1, 2, 3, 4, 5, 6, 7][..4] == [1, 2, 3, 4];
  }

  /** The example in `Main`: {1,...,7} rotated by 3. */
  method DemoRun() returns (rotated: seq<int>)
    ensures rotated == [5, 6, 7, 1, 2, 3, 4]
  {
    var nums := new int[7];
    nums[0], nums[1], nums[2], nums[3], nums[4], nums[5], nums[6] := 1, 2, 3, 4, 5, 6, 7;
    assert nums[..] == [1, 2, 3, 4, 5, 6, 7];
    RotateExample();
    var outcome := Rotate(nums, 3);
    rotated := nums[..];
  }
}
