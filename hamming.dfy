/**
 * Hamming distance between two hash strings, extended to strings of different
 * lengths: mismatches over the shared prefix plus the difference in length.
 */
module Hamming {
  import opened Seqs

  function Abs(x: int): nat {
    if x < 0 then -x else x
  }

  /**
   * Reference definition: walk both strings together; a position where both
   * have a character costs 1 if they differ, a position where only one has a
   * character always costs 1.
   */
  function Distance(a: string, b: string): nat
    decreases |a|
  {
    if a == [] then |b|
    else if b == [] then |a|
    else (if a[0] != b[0] then 1 else 0) + Distance(a[1..], b[1..])
  }

  /** Number of positions `i < k` at which `a` and `b` differ. */
  function Mismatches(a: string, b: string, k: nat): nat
    requires k <= |a| && k <= |b|
  {
    if k == 0 then 0
    else Mismatches(a, b, k - 1) + (if a[k - 1] != b[k - 1] then 1 else 0)
  }

  /** `hamming`: a counter loop over the shared prefix, then the length difference. */
  method Hamming(a: string, b: string) returns (d: nat)
    ensures d == Mismatches(a, b, Min(|a|, |b|)) + Abs(|a| - |b|)
    ensures d == Distance(a, b)
  {
    d := 0;
    var i := 0;
    while i < Min(|a|, |b|)
      invariant 0 <= i <= Min(|a|, |b|)
      invariant d == Mismatches(a, b, i)
    {
      if a[i] != b[i] {
        d := d + 1;
      }
      i := i + 1;
    }
    d := d + Abs(|a| - |b|);
    DistanceCountsMismatches(a, b);
  }

  /** Counting from the front agrees with the prefix count shifted by one position. */
  lemma {:induction false} MismatchesShift(a: string, b: string, k: nat)
    requires 0 < k <= |a| && k <= |b|
    ensures Mismatches(a, b, k) == (if a[0] != b[0] then 1 else 0) + Mismatches(a[1..], b[1..], k - 1)
  {
    if k > 1 {
      MismatchesShift(a, b, k - 1);
      assert a[1..][k - 2] == a[k - 1] && b[1..][k - 2] == b[k - 1];
    }
  }

  /** The reference definition is the loop's count: mismatches over the shared prefix plus `||a| - |b||`. */
  lemma {:induction false} DistanceCountsMismatches(a: string, b: string)
    ensures Distance(a, b) == Mismatches(a, b, Min(|a|, |b|)) + Abs(|a| - |b|)
    decreases |a|
  {
    if a != [] && b != [] {
      DistanceCountsMismatches(a[1..], b[1..]);
      MismatchesShift(a, b, Min(|a|, |b|));
    }
  }

  /** `hamming(a, a) == 0`. */
  lemma {:induction false} DistanceToSelf(a: string)
    ensures Distance(a, a) == 0
    decreases |a|
  {
    if a != [] {
      DistanceToSelf(a[1..]);
    }
  }

  /** The distance is zero exactly for equal strings. */
  lemma {:induction false} DistanceZeroIffEqual(a: string, b: string)
    ensures Distance(a, b) == 0 <==> a == b
    decreases |a|
  {
    if a == b {
      DistanceToSelf(a);
    } else if a != [] && b != [] {
      DistanceZeroIffEqual(a[1..], b[1..]);
    }
  }

  /** `hamming(a, b) == hamming(b, a)`. */
  lemma {:induction false} DistanceSymmetric(a: string, b: string)
    ensures Distance(a, b) == Distance(b, a)
    decreases |a|
  {
    if a != [] && b != [] {
      DistanceSymmetric(a[1..], b[1..]);
    }
  }

  /** The distance is at least the length difference and at most the longer length. */
  lemma {:induction false} DistanceBounds(a: string, b: string)
    ensures Abs(|a| - |b|) <= Distance(a, b)
    ensures Distance(a, b) <= if |a| < |b| then |b| else |a|
    decreases |a|
  {
    if a != [] && b != [] {
      DistanceBounds(a[1..], b[1..]);
    }
  }

  /** The extended distance is a metric on all strings: the triangle inequality holds. */
  lemma {:induction false} DistanceTriangle(a: string, b: string, c: string)
    ensures Distance(a, b) <= Distance(a, c) + Distance(c, b)
    decreases |a| + |b| + |c|
  {
    if a == [] {
      DistanceBounds(c, b);
    } else if b == [] {
      DistanceBounds(a, c);
    } else if c == [] {
      DistanceBounds(a, b);
    } else {
      DistanceTriangle(a[1..], b[1..], c[1..]);
    }
  }
}
