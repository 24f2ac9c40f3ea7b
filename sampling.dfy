/** Stride subsampling, shared by both scripts: the stride
    `len(xs) // target + 1` and Python's extended slice `xs[start::step]`. */
module Sampling {

  /** Ceiling division, for a positive divisor. */
  function CeilDiv(a: nat, b: nat): (q: nat)
    requires b >= 1
  {
    (a + b - 1) / b
  }

  /** The ceiling quotient is the least multiplier whose multiple of `b` reaches `a`. */
  lemma CeilDivBounds(a: nat, b: nat)
    requires a >= 1 && b >= 1
    ensures (CeilDiv(a, b) - 1) * b < a <= CeilDiv(a, b) * b
  {
    var q, r := (a + b - 1) / b, (a + b - 1) % b;
    assert a + b - 1 == q * b + r;
    assert (q - 1) * b == q * b - b;
  }

  lemma SmallMultiple(k: int, d: int)
    requires d >= 1 && -d < k * d < d
    ensures k == 0
  {
  }

  lemma DivAddDivisor(x: nat, d: nat)
    requires d >= 1
    ensures (x + d) / d == x / d + 1
  {
    var q, r := x / d, x % d;
    var q', r' := (x + d) / d, (x + d) % d;
    assert x == q * d + r;
    assert x + d == q' * d + r';
    assert (q' - q - 1) * d == q' * d - q * d - d;
    SmallMultiple(q' - q - 1, d);
  }

  lemma MultipleOfStride(m: nat, step: nat)
    requires step >= 2
    ensures m * step >= 2 * m
  {
    assert m * step == 2 * m + m * (step - 2);
  }

  lemma DivSmall(x: nat, d: nat)
    requires x < d
    ensures x / d == 0
  {
    var q, r := x / d, x % d;
    assert x == q * d + r;
    SmallMultiple(q, d);
  }

  /** The index reached after one step and then `i - 1` more is that reached after `i` steps. */
  lemma StepShift(start: nat, step: nat, i: nat)
    requires i >= 1
    ensures start + step + (i - 1) * step == start + i * step
  {
    assert (i - 1) * step == i * step - step;
  }

  /** Taking one step off a positive length takes one off its ceiling quotient. */
  lemma CeilDivStep(a: nat, step: nat)
    requires a >= 1 && step >= 1
    ensures CeilDiv(a, step) == 1 + if a > step then CeilDiv(a - step, step) else 0
  {
    DivAddDivisor(a - 1, step);
    if a <= step {
      DivSmall(a - 1, step);
    } else {
      assert CeilDiv(a - step, step) == (a - 1) / step;
    }
  }

  /** Putting the element at `start` in front of the slice from `start + step`
      keeps every position i at index start + i * step. */
  lemma SliceConsAt<T>(xs: seq<T>, start: nat, step: nat, rest: seq<T>)
    requires step >= 1 && start < |xs|
    requires forall i :: 0 <= i < |rest| ==> start + step + i * step < |xs| && rest[i] == xs[start + step + i * step]
    ensures forall i :: 0 <= i < |rest| + 1 ==>
      start + i * step < |xs| && ([xs[start]] + rest)[i] == xs[start + i * step]
  {
    var r := [xs[start]] + rest;
    forall i | 0 <= i < |rest| + 1 ensures start + i * step < |xs| && r[i] == xs[start + i * step] {
      if i > 0 {
        StepShift(start, step, i);
        assert r[i] == rest[i - 1];
      }
    }
  }

  /** `n // target + 1`: the least stride whose multiple of `target` exceeds `n`.
      It is never 0, so the slice it drives is well defined. */
  function Stride(n: nat, target: nat): (step: nat)
    requires target >= 1
    ensures step >= 1
    ensures (step - 1) * target <= n < step * target
  {
    var q := n / target;
    assert n == q * target + n % target;
    assert (q + 1) * target == q * target + target;
    q + 1
  }

  /** `xs[start::step]`: the elements at indices start, start + step,
      start + 2 * step, ... below |xs|, in order. Its length is the
      ceiling of (|xs| - start) / step, or 0 when start is at or past the end. */
  function Slice<T>(xs: seq<T>, start: nat, step: nat): (r: seq<T>)
    requires step >= 1
    ensures |r| == if start < |xs| then CeilDiv(|xs| - start, step) else 0
    ensures forall i :: 0 <= i < |r| ==> start + i * step < |xs| && r[i] == xs[start + i * step]
    decreases |xs| - start
  {
    if start >= |xs| then []
    else
      var rest := Slice(xs, start + step, step);
      var r := [xs[start]] + rest;
      CeilDivStep(|xs| - start, step);
      SliceConsAt(xs, start, step, rest);
      r
  }

  /** Every index start + k * step below |xs| is selected, at position k. */
  lemma {:induction false} SliceCovers<T>(xs: seq<T>, start: nat, step: nat, k: nat)
    requires step >= 1
    requires start + k * step < |xs|
    ensures k < |Slice(xs, start, step)| && Slice(xs, start, step)[k] == xs[start + k * step]
    decreases k
  {
    if k > 0 {
      StepShift(start, step, k);
      SliceCovers(xs, start + step, step, k - 1);
    }
  }

  /** If `k` steps from `start` reach the end, the slice has at most `k` elements. */
  lemma {:induction false} SliceAtMost<T>(xs: seq<T>, start: nat, step: nat, k: nat)
    requires step >= 1
    requires |xs| <= start + k * step
    ensures |Slice(xs, start, step)| <= k
    decreases k
  {
    if start < |xs| {
      assert k > 0;
      StepShift(start, step, k);
      SliceAtMost(xs, start + step, step, k - 1);
    }
  }

  /** With the stride computed for `target`, no slice has more than `target` elements. */
  lemma SliceWithinTarget<T>(xs: seq<T>, start: nat, target: nat)
    requires target >= 1
    ensures |Slice(xs, start, Stride(|xs|, target))| <= target
  {
    var step := Stride(|xs|, target);
    SliceAtMost(xs, start, step, target);
  }

  /** With a stride of one, the slice from 0 is the whole sequence. */
  lemma SliceUnitStride<T>(xs: seq<T>)
    ensures Slice(xs, 0, 1) == xs
  {
    var r := Slice(xs, 0, 1);
    assert |r| == |xs| by {
      if |xs| > 0 {
        assert CeilDiv(|xs|, 1) == |xs|;
      }
    }
  }

  /** An example: ten elements, target 5 (stride 3), from index 2. */
  lemma SliceExample()
    ensures Stride(10, 5) == 3
    ensures Slice([0, 1, 2, 3, 4, 5, 6, 7, 8, 9], 2, Stride(10, 5)) == [2, 5, 8]
  {
    var xs := [0, 1, 2, 3, 4, 5, 6, 7, 8, 9];
    var r := Slice(xs, 2, 3);
    assert CeilDiv(8, 3) == 3;
    assert r[0] == xs[2] && r[1] == xs[5] && r[2] == xs[8];
  }
}
