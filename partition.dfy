/**
 * Static work partitioning. Every phase of the program splits an index
 * space [0, total) among `n` workers: worker `tid` owns
 * [tid * total / n, Min((tid + 1) * total / n, total)). The unlocked
 * shared buffers are safe only because these ranges are disjoint and
 * consecutive and together cover [0, total), which is proved here.
 * All operands are non-negative, so C's truncating division agrees with
 * Dafny's.
 */
module Partition {

  import opened Arith

  function Min(a: int, b: int): int {
    if a < b then a else b
  }

  /** Worker `tid` owns index `idx`. */
  predicate Owns(tid: int, idx: int, total: int, n: int)
    requires n > 0
  {
    Start(tid, total, n) <= idx < End(tid, total, n)
  }

  /** First index owned by worker `tid`. */
  function Start(tid: int, total: int, n: int): (s: int)
    requires n > 0
    ensures 0 <= tid <= n && 0 <= total ==> 0 <= s <= total
  {
    if 0 <= tid <= n && 0 <= total then
      MulMonotone(0, tid, total);
      MulMonotone(tid, n, total);
      DivMonotone(tid * total, n * total, n);
      DivOfMultiple(total, n);
      tid * total / n
    else
      tid * total / n
  }

  /** One past the last index owned by worker `tid`. */
  function End(tid: int, total: int, n: int): (e: int)
    requires n > 0
    ensures 0 <= tid < n && 0 <= total ==> Start(tid, total, n) <= e <= total
  {
    if 0 <= tid < n && 0 <= total then
      StartMonotone(tid, tid + 1, total, n);
      Min((tid + 1) * total / n, total)
    else
      Min((tid + 1) * total / n, total)
  }

  /** Start is monotone in the worker number. */
  lemma {:induction false} StartMonotone(a: int, b: int, total: int, n: int)
    requires 0 <= a <= b && 0 <= total && n > 0
    ensures Start(a, total, n) <= Start(b, total, n)
  {
    MulMonotone(a, b, total);
    assert 0 <= a * total by { MulMonotone(0, a, total); }
    DivMonotone(a * total, b * total, n);
  }

  /** Starts range over [0, total]: worker 0 starts at 0 and the
      (fictitious) worker n would start at total. */
  lemma {:induction false} StartWithin(tid: int, total: int, n: int)
    requires 0 <= tid <= n && 0 <= total && n > 0
    ensures 0 <= Start(tid, total, n) <= total
    ensures Start(0, total, n) == 0
    ensures Start(n, total, n) == total
  {
    StartMonotone(0, tid, total, n);
    StartMonotone(tid, n, total, n);
    DivOfMultiple(total, n);
    assert n * total == total * n;
  }

  /** Each range is well formed, lies in [0, total), and ends exactly
      where the next worker's range starts. */
  lemma {:induction false} EndIsNextStart(tid: int, total: int, n: int)
    requires 0 <= tid < n && 0 <= total && n > 0
    ensures 0 <= Start(tid, total, n) <= End(tid, total, n) <= total
    ensures End(tid, total, n) == Start(tid + 1, total, n)
  {
    StartWithin(tid + 1, total, n);
    StartMonotone(tid, tid + 1, total, n);
    StartWithin(tid, total, n);
  }

  /** Ranges of distinct workers never share an index. */
  lemma {:induction false} RangesDisjoint(a: int, b: int, total: int, n: int)
    requires 0 <= a < b < n && 0 <= total
    ensures End(a, total, n) <= Start(b, total, n)
    ensures forall idx :: !(Owns(a, idx, total, n) && Owns(b, idx, total, n))
  {
    EndIsNextStart(a, total, n);
    StartMonotone(a + 1, b, total, n);
  }

  /** Every index of [0, total) is owned by some worker at or after `from`
      once that worker's range starts at or before it. */
  lemma {:induction false} OwnerFrom(idx: int, from: int, total: int, n: int)
    requires 0 <= from < n && 0 <= total
    requires Start(from, total, n) <= idx < total
    ensures exists tid :: from <= tid < n && Owns(tid, idx, total, n)
    decreases n - from
  {
    EndIsNextStart(from, total, n);
    if idx >= End(from, total, n) {
      if from == n - 1 {
        StartWithin(n, total, n);
        assert false;
      }
      OwnerFrom(idx, from + 1, total, n);
    } else {
      assert Owns(from, idx, total, n);
    }
  }

  /** The ranges cover [0, total): every index has exactly one owner. */
  lemma {:induction false} RangesCover(idx: int, total: int, n: int)
    requires 0 <= idx < total && n > 0
    ensures exists tid :: 0 <= tid < n && Owns(tid, idx, total, n)
    ensures forall a, b ::
              0 <= a < n && 0 <= b < n && Owns(a, idx, total, n) && Owns(b, idx, total, n) ==> a == b
  {
    StartWithin(0, total, n);
    OwnerFrom(idx, 0, total, n);
    forall a, b | 0 <= a < n && 0 <= b < n && Owns(a, idx, total, n) && Owns(b, idx, total, n)
      ensures a == b
    {
      if a < b { RangesDisjoint(a, b, total, n); }
      if b < a { RangesDisjoint(b, a, total, n); }
    }
  }
}
