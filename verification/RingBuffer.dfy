/**
 The fixed-memory ring buffer: a queue kept in an array with modular indices. Its contents, read from the
 index of the oldest element onwards, behave as a bounded first-in first-out sequence.
 */
module RingBuffer {
  import opened Wrappers

  // The array index i places after start in a ring of length n
  function Around(start: nat, i: nat, n: nat): nat {
    if start + i < n then start + i else start + i - n
  }

  // The n elements of the ring that start at index start
  function Window<T>(ring: seq<T>, start: nat, n: nat): (w: seq<T>)
    requires start < |ring| && n <= |ring|
    ensures |w| == n
  {
    seq(n, i requires 0 <= i < n => ring[Around(start, i, |ring|)])
  }

  lemma AroundIsModular(start: nat, i: nat, n: nat)
    requires start < n && i <= n
    ensures Around(start, i, n) == (start + i) % n
  {
    Remainder(if start + i < n then 0 else 1, Around(start, i, n), n);
  }

  lemma Remainder(q: nat, r: nat, n: nat)
    requires r < n && q <= 1
    ensures (q * n + r) % n == r
  {
    if q == 0 {
      assert q * n + r == r;
    } else {
      assert q * n + r == n + r;
    }
  }

  class FixedMemRingBuffer<T(0)> {
    const ring: array<T>
    const maxCapacity: nat
    var inIdx: nat
    var outIdx: nat
    var count: nat

    ghost predicate Valid()
      reads this, ring
    {
      && 1 <= maxCapacity < ring.Length
      && outIdx < ring.Length
      && count <= maxCapacity
      && inIdx == Around(outIdx, count, ring.Length)
    }

    // The stored elements, oldest first
    ghost function Contents(): (s: seq<T>)
      requires Valid()
      reads this, ring
      ensures |s| == count
    {
      Window(ring[..], outIdx, count)
    }

    // A buffer of ringSize array entries that accepts at most maxCap elements
    constructor (ringSize: nat, maxCap: nat)
      requires 1 <= maxCap < ringSize
      ensures Valid() && fresh(ring) && Contents() == []
      ensures maxCapacity == maxCap && ring.Length == ringSize
    {
      ring := new T[ringSize];
      maxCapacity := maxCap;
      inIdx, outIdx, count := 0, 0, 0;
    }

    method IsEmpty() returns (b: bool)
      requires Valid()
      ensures b <==> Contents() == []
    {
      b := count == 0;
    }

    method IsFull() returns (b: bool)
      requires Valid()
      ensures b <==> |Contents()| == maxCapacity
    {
      b := count == maxCapacity;
    }

    // None stands for the exception raised on an empty buffer
    method Pop() returns (r: Option<T>)
      requires Valid()
      modifies this
      ensures Valid()
      ensures old(Contents()) == [] ==> r == None && Contents() == []
      ensures old(Contents()) != [] ==> r == Some(old(Contents())[0]) && Contents() == old(Contents())[1..]
    {
      if count == 0 {
        return None;
      }
      r := Some(ring[outIdx]);
      AroundIsModular(outIdx, 1, ring.Length);
      outIdx := (outIdx + 1) % ring.Length;
      count := count - 1;
    }

    method Peek() returns (r: Option<T>)
      requires Valid()
      ensures r == if Contents() == [] then None else Some(Contents()[0])
    {
      if count == 0 {
        return None;
      }
      r := Some(ring[outIdx]);
    }

    // false stands for the exception raised on a full buffer
    method Push(x: T) returns (ok: bool)
      requires Valid()
      modifies this, ring
      ensures Valid()
      ensures ok <==> |old(Contents())| < maxCapacity
      ensures Contents() == if ok then old(Contents()) + [x] else old(Contents())
    {
      if count == maxCapacity {
        return false;
      }
      ring[inIdx] := x;
      AroundIsModular(inIdx, 1, ring.Length);
      inIdx := (inIdx + 1) % ring.Length;
      count := count + 1;
      ok := true;
    }

    method Reset()
      requires Valid()
      modifies this
      ensures Valid() && Contents() == []
    {
      inIdx, outIdx, count := 0, 0, 0;
    }
  }
}
