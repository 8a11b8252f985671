/**
 The shared-memory finite queue: descriptors of fixed-size buffers move between the queue and the free list, two
 ring buffers, and the payload bytes stay in one block of memory. Every method is one locked section; a method
 that waits on a condition variable ends there, and goes on in a second one after it was woken.
 */
module ShmFiniteQueue {
  import opened Bytes
  import opened FiniteQueueSpec
  import opened RingBuffer
  import opened Sets

  const WORD := 8

  // Some space is added to each buffer for handlers that write a little too much
  function SlotSize(size: nat): (n: nat)
    ensures size + 3 * WORD < n <= size + 4 * WORD
  {
    WORD * ((size + 4 * WORD) / WORD)
  }

  datatype Descr = Descr(offs: nat, len: nat)

  function OffsetOf(k: nat, slot: nat): nat {
    k * slot
  }

  // ---------- Where buffers are ----------

  ghost predicate InPlace(d: Descr, slot: nat, n: nat) {
    exists k: nat :: k < n && d.offs == OffsetOf(k, slot)
  }

  ghost predicate AllInPlace(ds: seq<Descr>, slot: nat, n: nat) {
    forall i :: 0 <= i < |ds| ==> InPlace(ds[i], slot, n)
  }

  ghost predicate Distinct(ds: seq<Descr>) {
    forall i, j :: 0 <= i < j < |ds| ==> ds[i].offs != ds[j].offs
  }

  ghost predicate Unused(d: Descr, ds: seq<Descr>) {
    forall i :: 0 <= i < |ds| ==> ds[i].offs != d.offs
  }

  // The buffers of the queue and of the free list are different buffers of the memory block
  ghost predicate Separate(q: seq<Descr>, f: seq<Descr>, slot: nat, n: nat) {
    && AllInPlace(q, slot, n) && AllInPlace(f, slot, n)
    && Distinct(q) && Distinct(f)
    && (forall i :: 0 <= i < |f| ==> Unused(f[i], q))
  }

  // A further buffer is in neither of the two
  ghost predicate InHand(d: Descr, q: seq<Descr>, f: seq<Descr>, slot: nat, n: nat) {
    InPlace(d, slot, n) && Unused(d, q) && Unused(d, f)
  }

  lemma TakeFromQueue(q: seq<Descr>, f: seq<Descr>, slot: nat, n: nat)
    requires Separate(q, f, slot, n) && q != []
    ensures Separate(q[1..], f, slot, n) && InHand(q[0], q[1..], f, slot, n)
  {
    hide InPlace;
  }

  lemma TakeFromFree(q: seq<Descr>, f: seq<Descr>, slot: nat, n: nat)
    requires Separate(q, f, slot, n) && f != []
    ensures Separate(q, f[1..], slot, n) && InHand(f[0], q, f[1..], slot, n)
  {
    hide InPlace;
  }

  lemma PutIntoQueue(d: Descr, q: seq<Descr>, f: seq<Descr>, slot: nat, n: nat)
    requires Separate(q, f, slot, n) && InHand(d, q, f, slot, n)
    ensures Separate(q + [d], f, slot, n)
  {
    hide InPlace;
  }

  lemma PutIntoFree(d: Descr, d': Descr, q: seq<Descr>, f: seq<Descr>, slot: nat, n: nat)
    requires Separate(q, f, slot, n) && InHand(d, q, f, slot, n) && d'.offs == d.offs
    ensures Separate(q, f + [d'], slot, n)
  {
    assert InPlace(d', slot, n);
    hide InPlace;
  }

  lemma NextOffset(k: nat, slot: nat)
    ensures OffsetOf(k + 1, slot) == OffsetOf(k, slot) + slot
  {
  }

  lemma {:induction false} SlotsApart(k: nat, l: nat, slot: nat)
    requires k < l
    ensures OffsetOf(k, slot) + slot <= OffsetOf(l, slot)
  {
    hide OffsetOf;
    NextOffset(l - 1, slot);
    if k < l - 1 {
      SlotsApart(k, l - 1, slot);
    }
  }

  lemma SlotFits(k: nat, slot: nat, n: nat)
    requires k < n
    ensures OffsetOf(k, slot) + slot <= n * slot
  {
    SlotsApart(k, n, slot);
  }

  lemma BuffersApart(d: Descr, e: Descr, slot: nat, n: nat)
    requires InPlace(d, slot, n) && InPlace(e, slot, n) && d.offs != e.offs
    ensures d.offs + slot <= e.offs || e.offs + slot <= d.offs
    ensures d.offs + slot <= n * slot && e.offs + slot <= n * slot
  {
    var k: nat :| k < n && d.offs == OffsetOf(k, slot);
    var l: nat :| l < n && e.offs == OffsetOf(l, slot);
    SlotFits(k, slot, n);
    SlotFits(l, slot, n);
    if k < l {
      SlotsApart(k, l, slot);
    } else if l < k {
      SlotsApart(l, k, slot);
    }
  }

  // ---------- What buffers hold ----------

  function BytesAt(d: Descr, space: seq<Byte>): Payload {
    if d.offs + d.len <= |space| then space[d.offs..d.offs + d.len] else []
  }

  function Payloads(ds: seq<Descr>, space: seq<Byte>): (r: seq<Payload>)
    ensures |r| == |ds|
  {
    seq(|ds|, i requires 0 <= i < |ds| => BytesAt(ds[i], space))
  }

  // The memory block after bytes have been written from index at on; what would lie beyond its end is not part of it
  function Written(space: seq<Byte>, at: nat, bytes: seq<Byte>): (r: seq<Byte>)
    ensures |r| == |space|
  {
    seq(|space|, i requires 0 <= i < |space| => if at <= i < at + |bytes| then bytes[i - at] else space[i])
  }

  // A payload keeps its bytes exactly where it does not overlap with what was written
  lemma OverrunOverwrites(d: Descr, space: seq<Byte>, at: nat, bytes: seq<Byte>, i: nat)
    requires d.offs + d.len <= |space| && i < d.len && at + |bytes| <= |space|
    ensures |BytesAt(d, Written(space, at, bytes))| == d.len
    ensures BytesAt(d, Written(space, at, bytes))[i]
         == if at <= d.offs + i < at + |bytes| then bytes[d.offs + i - at] else BytesAt(d, space)[i]
  {
  }

  ghost predicate SameOutside(space: seq<Byte>, space': seq<Byte>, from: nat, to: nat) {
    && |space| == |space'|
    && forall i :: 0 <= i < |space| && !(from <= i < to) ==> space'[i] == space[i]
  }

  // Writing into a buffer, even up to the end of its safety margin, changes no other buffer's bytes
  lemma OthersKeepBytes(d: Descr, ds: seq<Descr>, space: seq<Byte>, space': seq<Byte>, slot: nat, n: nat)
    requires AllInPlace(ds, slot, n) && InPlace(d, slot, n) && Unused(d, ds)
    requires forall i :: 0 <= i < |ds| ==> ds[i].len <= slot
    requires |space| == n * slot && SameOutside(space, space', d.offs, d.offs + slot)
    ensures Payloads(ds, space') == Payloads(ds, space)
  {
    forall i | 0 <= i < |ds| ensures BytesAt(ds[i], space') == BytesAt(ds[i], space) {
      BuffersApart(d, ds[i], slot, n);
    }
  }

  // ---------- All buffers are in one of the two places ----------

  ghost function Offsets(ds: seq<Descr>): (s: set<nat>) {
    set i | 0 <= i < |ds| :: ds[i].offs
  }

  lemma {:induction false} OffsetsCounted(ds: seq<Descr>)
    requires Distinct(ds)
    ensures |Offsets(ds)| == |ds|
  {
    if ds != [] {
      var rest, last := ds[..|ds| - 1], ds[|ds| - 1];
      OffsetsCounted(rest);
      assert last.offs !in Offsets(rest);
      assert Offsets(ds) == Offsets(rest) + {last.offs};
    }
  }

  ghost function SlotOffsets(slot: nat, n: nat): (s: set<nat>) {
    set k | 0 <= k < n :: OffsetOf(k, slot)
  }

  lemma {:induction false} SlotsCounted(slot: nat, n: nat)
    ensures |SlotOffsets(slot, n)| <= n
  {
    if n > 0 {
      SlotsCounted(slot, n - 1);
      assert SlotOffsets(slot, n) == SlotOffsets(slot, n - 1) + {OffsetOf(n - 1, slot)};
    }
  }

  lemma BothDistinct(q: seq<Descr>, f: seq<Descr>, slot: nat, n: nat)
    requires Separate(q, f, slot, n)
    ensures Distinct(q + f) && AllInPlace(q + f, slot, n)
  {
    hide InPlace;
    var ds := q + f;
    forall i, j | 0 <= i < j < |ds| ensures ds[i].offs != ds[j].offs {
      if i < |q| <= j {
        assert Unused(f[j - |q|], q);
      }
    }
  }

  // There are never more buffers in the two ring buffers than there is memory for
  lemma NoMoreThanSlots(q: seq<Descr>, f: seq<Descr>, slot: nat, n: nat)
    requires Separate(q, f, slot, n)
    ensures |q| + |f| <= n && Offsets(q + f) <= SlotOffsets(slot, n)
  {
    var ds := q + f;
    BothDistinct(q, f, slot, n);
    OffsetsCounted(ds);
    SlotsCounted(slot, n);
    forall o | o in Offsets(ds) ensures o in SlotOffsets(slot, n) {
      var i :| 0 <= i < |ds| && ds[i].offs == o;
      assert InPlace(ds[i], slot, n);
    }
    SubsetIsSmaller(Offsets(ds), SlotOffsets(slot, n));
  }

  // When no buffer is lost, every buffer of the memory block is in exactly one of the two places
  lemma EverySlotOnce(q: seq<Descr>, f: seq<Descr>, slot: nat, n: nat, k: nat)
    requires Separate(q, f, slot, n) && |q| + |f| == n && k < n
    ensures OffsetOf(k, slot) in Offsets(q + f) && Distinct(q + f)
  {
    NoMoreThanSlots(q, f, slot, n);
    BothDistinct(q, f, slot, n);
    OffsetsCounted(q + f);
    SlotsCounted(slot, n);
    LargeSubsetIsAll(Offsets(q + f), SlotOffsets(slot, n));
  }

  function FreshBuffers(slot: nat, n: nat): (ds: seq<Descr>)
    ensures |ds| == n
  {
    seq(n, k requires 0 <= k < n => Descr(OffsetOf(k, slot), 0))
  }

  lemma FreshMore(slot: nat, n: nat)
    ensures FreshBuffers(slot, n + 1) == FreshBuffers(slot, n) + [Descr(OffsetOf(n, slot), 0)]
  {
  }

  lemma FreshAreSeparate(slot: nat, n: nat)
    requires slot > 0
    ensures Separate([], FreshBuffers(slot, n), slot, n)
  {
    var ds := FreshBuffers(slot, n);
    forall i, j | 0 <= i < j < n ensures ds[i].offs != ds[j].offs {
      SlotsApart(i, j, slot);
    }
    forall i | 0 <= i < n ensures InPlace(ds[i], slot, n) {
      assert ds[i].offs == OffsetOf(i, slot);
    }
  }

  class ShmFiniteQueue {
    const numberBuffers: nat
    const bufferSize: nat
    const queue: FixedMemRingBuffer<Descr>
    const freeList: FixedMemRingBuffer<Descr>
    const bufferSpace: array<Byte>
    var hasData: bool

    ghost function Repr(): set<object> {
      {this, queue, queue.ring, freeList, freeList.ring, bufferSpace}
    }

    ghost function Slot(): nat {
      SlotSize(bufferSize)
    }

    ghost predicate Parts()
      reads this, queue, queue.ring, freeList, freeList.ring
    {
      && queue != freeList && queue.ring != freeList.ring
      && queue.Valid() && freeList.Valid()
      && queue.maxCapacity <= numberBuffers == freeList.maxCapacity
      && bufferSpace.Length == numberBuffers * SlotSize(bufferSize)
      && Separate(queue.Contents(), freeList.Contents(), Slot(), numberBuffers)
      && (forall i :: 0 <= i < |queue.Contents()| ==> 0 < queue.Contents()[i].len <= bufferSize)
    }

    ghost predicate Valid()
      reads this, queue, queue.ring, freeList, freeList.ring
    {
      Parts() && |queue.Contents()| + |freeList.Contents()| <= numberBuffers
    }

    ghost function Shape(): Shape {
      FiniteQueueSpec.Shape(numberBuffers, queue.maxCapacity, bufferSize)
    }

    ghost function Model(): Snapshot
      requires Parts()
      reads this, queue, queue.ring, freeList, freeList.ring, bufferSpace
    {
      Snapshot(Payloads(queue.Contents(), bufferSpace[..]), |freeList.Contents()|, hasData)
    }

    constructor (numberBuffers: nat, bufferSize: nat, maxCap: nat)
      requires 1 <= maxCap <= numberBuffers
      ensures Valid() && Model() == Snapshot([], numberBuffers, false)
      ensures Shape() == FiniteQueueSpec.Shape(numberBuffers, maxCap, bufferSize)
      ensures fresh(Repr())
    {
      this.numberBuffers, this.bufferSize := numberBuffers, bufferSize;
      queue := new FixedMemRingBuffer(numberBuffers + 1, maxCap);
      freeList := new FixedMemRingBuffer(numberBuffers + 1, numberBuffers);
      bufferSpace := new Byte[numberBuffers * SlotSize(bufferSize)];
      hasData := false;
      new;
      InitializeQueueAndFreeList();
    }

    // Clears both ring buffers and puts all buffers into the free list
    method InitializeQueueAndFreeList()
      requires queue != freeList && queue.ring != freeList.ring && queue.Valid() && freeList.Valid()
      requires queue.maxCapacity <= numberBuffers == freeList.maxCapacity
      requires bufferSpace.Length == numberBuffers * SlotSize(bufferSize)
      modifies queue, freeList, freeList.ring
      ensures Valid() && Model() == Snapshot([], numberBuffers, hasData)
    {
      hide Separate, OffsetOf, SlotSize, FreshBuffers;
      queue.Reset();
      freeList.Reset();
      var slot := SlotSize(bufferSize);
      var i := 0;
      while i < numberBuffers
        invariant i <= numberBuffers && queue.Valid() && freeList.Valid() && queue.Contents() == []
        invariant freeList.Contents() == FreshBuffers(slot, i)
      {
        FreshMore(slot, i);
        var ok := freeList.Push(Descr(OffsetOf(i, slot), 0));
        i := i + 1;
      }
      FreshAreSeparate(slot, numberBuffers);
      assert Payloads([], bufferSpace[..]) == [];
    }

    method Reset()
      requires Valid()
      modifies queue, freeList, freeList.ring
      ensures Valid() && Model() == FiniteQueueSpec.Reset(Shape(), old(Model()))
    {
      InitializeQueueAndFreeList();
    }

    method StoredElements() returns (n: nat)
      requires Valid()
      ensures n == |Model().stored|
    {
      n := queue.count;
    }

    // ---------- Pushing ----------

    method WriteBytes(d: Descr, payload: Payload)
      requires Parts() && InHand(d, queue.Contents(), freeList.Contents(), Slot(), numberBuffers)
      requires d.offs + |payload| <= bufferSpace.Length
      modifies bufferSpace
      ensures bufferSpace[..] == Written(old(bufferSpace[..]), d.offs, payload)
      ensures BytesAt(Descr(d.offs, |payload|), bufferSpace[..]) == payload
      ensures |payload| <= Slot() ==>
                Payloads(queue.Contents(), bufferSpace[..]) == old(Payloads(queue.Contents(), bufferSpace[..]))
    {
      hide InPlace, Distinct, Unused, Payloads;
      ghost var was := bufferSpace[..];
      BufferFits(d, Slot(), numberBuffers);
      forall i | 0 <= i < |payload| {
        bufferSpace[d.offs + i] := payload[i];
      }
      assert bufferSpace[..] == Written(was, d.offs, payload);
      assert bufferSpace[..][d.offs..d.offs + |payload|] == payload;
      if |payload| <= Slot() {
        assert SameOutside(was, bufferSpace[..], d.offs, d.offs + Slot());
        OthersKeepBytes(d, queue.Contents(), was, bufferSpace[..], Slot(), numberBuffers);
      }
    }

    // The handler writes the payload into the buffer in hand, which then goes into the queue, or back into the
    // free list, or nowhere when there is an exception. A handler that writes beyond the safety margin of the buffer, but
    // not beyond the memory block, writes into other buffers.
    method Fill(d: Descr, payload: Payload) returns (outcome: Outcome)
      requires Parts() && InHand(d, queue.Contents(), freeList.Contents(), Slot(), numberBuffers)
      requires |queue.Contents()| + |freeList.Contents()| < numberBuffers
      requires d.offs + |payload| <= bufferSpace.Length
      modifies `hasData, queue, queue.ring, freeList, freeList.ring, bufferSpace
      ensures Valid() && outcome == Filled(Shape(), old(Model()), payload).1
      ensures |payload| <= Slot() ==> Model() == Filled(Shape(), old(Model()), payload).0
      ensures |payload| > Slot() ==>
                && queue.Contents() == old(queue.Contents()) && freeList.Contents() == old(freeList.Contents())
                && hasData == old(hasData) && bufferSpace[..] == Written(old(bufferSpace[..]), d.offs, payload)
    {
      hide InPlace, Distinct, Unused, AllInPlace, SlotSize, BytesAt, Payloads, Written, Separate, InHand;
      ghost var slot, q, f := Slot(), queue.Contents(), freeList.Contents();
      WriteBytes(d, payload);
      var d' := Descr(d.offs, |payload|);
      if |payload| == 0 {
        PutIntoFree(d, d', q, f, slot, numberBuffers);
        var ok := freeList.Push(d');
        return Nothing;
      }
      if |payload| > bufferSize {
        return Overrun;
      }
      SameBuffer(d, d', q, f, slot, numberBuffers);
      outcome := Enqueue(d');
    }

    // A full queue does not take the buffer, which then is in neither of the two ring buffers
    method Enqueue(d: Descr) returns (outcome: Outcome)
      requires Parts() && InHand(d, queue.Contents(), freeList.Contents(), Slot(), numberBuffers)
      requires |queue.Contents()| + |freeList.Contents()| < numberBuffers && 0 < d.len <= bufferSize
      modifies `hasData, queue, queue.ring
      ensures Valid() && outcome == if |old(queue.Contents())| < queue.maxCapacity then Done else NoRoom
      ensures Model() == if outcome == NoRoom then old(Model()) else
                old(Model()).(stored := old(Model()).stored + [BytesAt(d, bufferSpace[..])], hasData := true)
    {
      hide InPlace, Distinct, Unused, AllInPlace, SlotSize, BytesAt, Payloads, Separate, InHand;
      ghost var q := queue.Contents();
      PutIntoQueue(d, q, freeList.Contents(), Slot(), numberBuffers);
      var ok := queue.Push(d);
      if !ok {
        return NoRoom;
      }
      hasData := true;
      outcome := Done;
      PayloadsMore(q, d, bufferSpace[..]);
    }

    // The next free buffer, and the oldest one of a full queue, leave room for the payload before the end of the memory
    ghost predicate FreeFits(payload: Payload)
      requires freeList.Valid()
      reads freeList, freeList.ring
    {
      freeList.Contents() != [] ==> freeList.Contents()[0].offs + |payload| <= bufferSpace.Length
    }

    ghost predicate OldestFits(payload: Payload)
      requires queue.Valid()
      reads queue, queue.ring
    {
      queue.Contents() != [] ==> queue.Contents()[0].offs + |payload| <= bufferSpace.Length
    }

    // A payload that stays within the safety margin fits any buffer
    lemma SmallFits(payload: Payload)
      requires Valid() && |payload| <= Slot()
      ensures FreeFits(payload) && OldestFits(payload)
    {
      if freeList.Contents() != [] {
        BufferFits(freeList.Contents()[0], Slot(), numberBuffers);
      }
      if queue.Contents() != [] {
        BufferFits(queue.Contents()[0], Slot(), numberBuffers);
      }
    }

    // A push once the queue may be written: a buffer is taken from the free list
    method PushWoken(payload: Payload) returns (outcome: Outcome)
      requires Valid() && FreeFits(payload)
      modifies `hasData, queue, queue.ring, freeList, freeList.ring, bufferSpace
      ensures Valid() && outcome == PushFree(Shape(), old(Model()), payload).1
      ensures |payload| <= Slot() ==> Model() == PushFree(Shape(), old(Model()), payload).0
      ensures |payload| > Slot() && outcome == Overrun ==>
                && queue.Contents() == old(queue.Contents()) && freeList.Contents() == old(freeList.Contents())[1..]
                && hasData == old(hasData)
                && bufferSpace[..] == Written(old(bufferSpace[..]), old(freeList.Contents())[0].offs, payload)
      ensures |payload| > Slot() && outcome != Overrun ==> Model() == old(Model())
    {
      hide InPlace, Distinct, Unused, BytesAt, SlotSize, Payloads, Written;
      ghost var q, f := queue.Contents(), freeList.Contents();
      var r := freeList.Pop();
      if r.None? {
        return NoBuffer;
      }
      TakeFromFree(q, f, Slot(), numberBuffers);
      outcome := Fill(r.value, payload);
    }

    // The first locked section of the waiting push; what an overrun does is said at the section after the wait
    method PushWait(payload: Payload, locked: bool) returns (outcome: Outcome)
      requires Valid() && FreeFits(payload)
      modifies `hasData, queue, queue.ring, freeList, freeList.ring, bufferSpace
      ensures Valid()
      ensures outcome == if locked then FiniteQueueSpec.PushWait(Shape(), old(Model()), payload).1 else TimedOut
      ensures !locked ==> Model() == old(Model())
      ensures locked && (|payload| <= Slot() || outcome != Overrun) ==>
                Model() == FiniteQueueSpec.PushWait(Shape(), old(Model()), payload).0
      ensures |payload| > Slot() && outcome == Overrun ==>
                && queue.Contents() == old(queue.Contents()) && freeList.Contents() == old(freeList.Contents())[1..]
                && hasData == old(hasData)
                && bufferSpace[..] == Written(old(bufferSpace[..]), old(freeList.Contents())[0].offs, payload)
    {
      hide Separate, Payloads, SlotSize;
      if !locked {
        return TimedOut;
      }
      if hasData {
        return Waiting;
      }
      outcome := PushWoken(payload);
    }

    // A push whose handler raises an exception before it has said how much it wrote
    method PushWokenRaising() returns (outcome: Outcome)
      requires Valid()
      modifies freeList
      ensures Valid() && (Model(), outcome) == PushRaising(old(Model()))
    {
      hide InPlace, Distinct, Unused, SlotSize, Payloads;
      ghost var f := freeList.Contents();
      var r := freeList.Pop();
      if r.None? {
        return NoBuffer;
      }
      TakeFromFree(queue.Contents(), f, Slot(), numberBuffers);
      outcome := HandlerRaised;
    }

    method PushWaitRaising(locked: bool) returns (outcome: Outcome)
      requires Valid()
      modifies freeList
      ensures Valid()
      ensures (Model(), outcome) == if !locked then (old(Model()), TimedOut)
                                    else if old(hasData) then (old(Model()), Waiting) else PushRaising(old(Model()))
    {
      hide Parts, PushRaising;
      if !locked {
        return TimedOut;
      }
      if hasData {
        return Waiting;
      }
      outcome := PushWokenRaising();
    }

    method PushNoWait(payload: Payload, locked: bool) returns (outcome: Outcome)
      requires Valid() && FreeFits(payload)
      modifies `hasData, queue, queue.ring, freeList, freeList.ring, bufferSpace
      ensures Valid()
      ensures outcome == if locked then FiniteQueueSpec.PushNoWait(Shape(), old(Model()), payload).1 else TimedOut
      ensures !locked ==> Model() == old(Model())
      ensures locked && (|payload| <= Slot() || outcome != Overrun) ==>
                Model() == FiniteQueueSpec.PushNoWait(Shape(), old(Model()), payload).0
      ensures |payload| > Slot() && outcome == Overrun ==>
                && queue.Contents() == old(queue.Contents()) && freeList.Contents() == old(freeList.Contents())[1..]
                && hasData == old(hasData)
                && bufferSpace[..] == Written(old(bufferSpace[..]), old(freeList.Contents())[0].offs, payload)
    {
      hide Separate, SlotSize;
      if !locked {
        return TimedOut;
      }
      var full := queue.IsFull();
      if full {
        return QueueFull;
      }
      outcome := PushWoken(payload);
    }

    // A full queue gives up its oldest buffer
    method PushOverOldest(payload: Payload) returns (outcome: Outcome)
      requires Valid() && OldestFits(payload) && |queue.Contents()| == queue.maxCapacity
      modifies `hasData, queue, queue.ring, freeList, freeList.ring, bufferSpace
      ensures Valid() && outcome == PushForce(Shape(), old(Model()), payload).1
      ensures |payload| <= Slot() ==> Model() == PushForce(Shape(), old(Model()), payload).0
      ensures |payload| > Slot() && outcome == Overrun ==>
                && queue.Contents() == old(queue.Contents())[1..] && freeList.Contents() == old(freeList.Contents())
                && hasData == old(hasData)
                && bufferSpace[..] == Written(old(bufferSpace[..]), old(queue.Contents())[0].offs, payload)
      ensures |payload| > Slot() && outcome != Overrun ==> Model() == old(Model())
    {
      hide InPlace, Distinct, Unused, SlotSize, Written, BytesAt;
      ghost var q, f := queue.Contents(), freeList.Contents();
      var r := queue.Pop();
      if r.None? {
        return NoBuffer;
      }
      TakeFromQueue(q, f, Slot(), numberBuffers);
      PayloadsRest(q, bufferSpace[..]);
      outcome := Fill(r.value, payload);
    }

    method PushWaitForce(payload: Payload, locked: bool) returns (outcome: Outcome)
      requires Valid() && FreeFits(payload) && OldestFits(payload)
      modifies `hasData, queue, queue.ring, freeList, freeList.ring, bufferSpace
      ensures Valid()
      ensures outcome == if locked then PushForce(Shape(), old(Model()), payload).1 else TimedOut
      ensures !locked ==> Model() == old(Model())
      ensures locked && (|payload| <= Slot() || outcome != Overrun) ==>
                Model() == PushForce(Shape(), old(Model()), payload).0
      ensures |payload| > Slot() && outcome == Overrun ==>
                var full := old(|queue.Contents()| == queue.maxCapacity);
                && queue.Contents() == (if full then old(queue.Contents())[1..] else old(queue.Contents()))
                && freeList.Contents() == (if full then old(freeList.Contents()) else old(freeList.Contents())[1..])
                && hasData == old(hasData)
                && bufferSpace[..] == Written(old(bufferSpace[..]),
                     if full then old(queue.Contents())[0].offs else old(freeList.Contents())[0].offs, payload)
    {
      hide Separate, SlotSize;
      if !locked {
        return TimedOut;
      }
      var full := queue.IsFull();
      if full {
        outcome := PushOverOldest(payload);
      } else {
        outcome := PushWoken(payload);
      }
    }

    // ---------- Retrieving ----------

    method ReadBytes(d: Descr) returns (payload: Payload)
      requires InPlace(d, Slot(), numberBuffers) && d.len <= bufferSize
      requires bufferSpace.Length == numberBuffers * SlotSize(bufferSize)
      ensures payload == BytesAt(d, bufferSpace[..])
    {
      BufferFits(d, Slot(), numberBuffers);
      payload := bufferSpace[d.offs..d.offs + d.len];
    }

    // The oldest payload goes to the handler and its buffer into the free list; nothing else is told yet
    method TakeOldest() returns (payload: Payload)
      requires Valid() && Model().stored != []
      modifies queue, freeList, freeList.ring
      ensures Valid() && payload == old(Model()).stored[0]
      ensures Model() == old(Model()).(stored := old(Model()).stored[1..], free := old(Model()).free + 1)
    {
      hide InPlace, Distinct, Unused, AllInPlace, SlotSize, Payloads, BytesAt, Separate;
      ghost var q, f := queue.Contents(), freeList.Contents();
      var r := queue.Pop();
      TakeFromQueue(q, f, Slot(), numberBuffers);
      PayloadsRest(q, bufferSpace[..]);
      payload := ReadBytes(r.value);
      PayloadsFirst(q, bufferSpace[..]);
      var d := r.value.(len := 0);
      PutIntoFree(r.value, d, q[1..], f, Slot(), numberBuffers);
      var ok := freeList.Push(d);
    }

    // A pop without waiting whose handler raises once the descriptor has left the queue
    method PopNoWaitRaising(locked: bool) returns (answer: Answer)
      requires Valid()
      modifies queue
      ensures Valid()
      ensures (Model(), answer) ==
              if locked then TakeRaising(old(Model()), First) else (old(Model()), Answer(TimedOut, [], false))
    {
      hide InPlace, Distinct, Unused, AllInPlace, SlotSize, Payloads, BytesAt;
      if !locked {
        return Answer(TimedOut, [], false);
      }
      if !hasData {
        return Answer(Nothing, [], false);
      }
      ghost var q := queue.Contents();
      var r := queue.Pop();
      if r.None? {
        return Answer(NoBuffer, [], false);
      }
      TakeFromQueue(q, freeList.Contents(), Slot(), numberBuffers);
      PayloadsRest(q, bufferSpace[..]);
      PayloadsFirst(q, bufferSpace[..]);
      var payload := ReadBytes(r.value);
      answer := Answer(HandlerRaised, [payload], false);
      assert old(Model()).stored[..1] == [payload];
    }

    method PopWoken() returns (answer: Answer)
      requires Valid()
      modifies `hasData, queue, freeList, freeList.ring
      ensures Valid() && (Model(), answer) == Retrieved(old(Model()), First)
    {
      hide Separate;
      var empty := queue.IsEmpty();
      if empty {
        return Answer(NoBuffer, [], false);
      }
      var payload := TakeOldest();
      empty := queue.IsEmpty();
      if empty {
        hasData := false;
      }
      answer := Answer(Done, [payload], !empty);
      assert old(Model()).stored[..1] == [payload];
    }

    method PopWait(locked: bool) returns (answer: Answer)
      requires Valid()
      modifies `hasData, queue, freeList, freeList.ring
      ensures Valid()
      ensures (Model(), answer) ==
              if locked then TakeWait(old(Model()), First) else (old(Model()), Answer(TimedOut, [], false))
    {
      hide Parts, Retrieved;
      if !locked {
        return Answer(TimedOut, [], false);
      }
      if !hasData {
        return Answer(Waiting, [], false);
      }
      answer := PopWoken();
    }

    method PopNoWait(locked: bool) returns (answer: Answer)
      requires Valid()
      modifies `hasData, queue, freeList, freeList.ring
      ensures Valid()
      ensures (Model(), answer) ==
              if locked then TakeNoWait(old(Model()), First) else (old(Model()), Answer(TimedOut, [], false))
    {
      hide Parts, Retrieved;
      if !locked {
        return Answer(TimedOut, [], false);
      }
      if !hasData {
        return Answer(Nothing, [], false);
      }
      answer := PopWoken();
    }

    method Empty() returns (empty: bool)
      requires Valid()
      ensures empty <==> Model().stored == []
    {
      hide Separate;
      empty := queue.IsEmpty();
    }

    // The oldest payloads go to the handler one after the other until none is left
    method TakeAll() returns (payloads: seq<Payload>)
      requires Valid()
      modifies queue, freeList, freeList.ring
      ensures Valid() && payloads == old(Model()).stored
      ensures Model() == old(Model()).(stored := [], free := old(Model()).free + |payloads|)
    {
      hide Parts, Model;
      payloads := [];
      ghost var was := Model();
      var empty := Empty();
      while !empty
        invariant Valid() && (empty <==> Model().stored == [])
        invariant was.stored == payloads + Model().stored
        invariant Model() == was.(stored := Model().stored, free := was.free + |payloads|)
        decreases |Model().stored|
      {
        var payload := TakeOldest();
        payloads := payloads + [payload];
        empty := Empty();
      }
    }

    method ClearFlag()
      requires Valid()
      modifies `hasData
      ensures Valid() && Model() == old(Model()).(hasData := false)
    {
      hide Separate, Payloads;
      hasData := false;
    }

    method PopAllWoken() returns (answer: Answer)
      requires Valid()
      modifies `hasData, queue, freeList, freeList.ring
      ensures Valid() && (Model(), answer) == Retrieved(old(Model()), All)
    {
      hide Parts, Model;
      var payloads := TakeAll();
      ClearFlag();
      answer := Answer(Done, payloads, false);
    }

    method PopAllWait(locked: bool) returns (answer: Answer)
      requires Valid()
      modifies `hasData, queue, freeList, freeList.ring
      ensures Valid()
      ensures (Model(), answer) ==
              if locked then TakeWait(old(Model()), All) else (old(Model()), Answer(TimedOut, [], false))
    {
      hide Parts, Retrieved;
      if !locked {
        return Answer(TimedOut, [], false);
      }
      if !hasData {
        return Answer(Waiting, [], false);
      }
      answer := PopAllWoken();
    }

    method PopAllNoWait(locked: bool) returns (answer: Answer)
      requires Valid()
      modifies `hasData, queue, freeList, freeList.ring
      ensures Valid()
      ensures (Model(), answer) ==
              if locked then TakeNoWait(old(Model()), All) else (old(Model()), Answer(TimedOut, [], false))
    {
      hide Parts, Retrieved;
      if !locked {
        return Answer(TimedOut, [], false);
      }
      if !hasData {
        return Answer(Nothing, [], false);
      }
      answer := PopAllWoken();
    }

    method PeekWoken() returns (answer: Answer)
      requires Valid()
      ensures (Model(), answer) == Retrieved(Model(), Look)
    {
      hide Distinct, Unused, InPlace;
      var r := queue.Peek();
      if r.None? {
        return Answer(NoBuffer, [], false);
      }
      var payload := ReadBytes(r.value);
      answer := Answer(Done, [payload], false);
      assert Model().stored[..1] == [Model().stored[0]];
    }

    method PeekWait(locked: bool) returns (answer: Answer)
      requires Valid()
      ensures (Model(), answer) == if locked then TakeWait(Model(), Look) else (Model(), Answer(TimedOut, [], false))
    {
      hide Parts, Retrieved;
      if !locked {
        return Answer(TimedOut, [], false);
      }
      if !hasData {
        return Answer(Waiting, [], false);
      }
      answer := PeekWoken();
    }

    method PeekNoWait(locked: bool) returns (answer: Answer)
      requires Valid()
      ensures (Model(), answer) == if locked then TakeNoWait(Model(), Look) else (Model(), Answer(TimedOut, [], false))
    {
      hide Parts, Retrieved;
      if !locked {
        return Answer(TimedOut, [], false);
      }
      if !hasData {
        return Answer(Nothing, [], false);
      }
      answer := PeekWoken();
    }
  }

  lemma BufferFits(d: Descr, slot: nat, n: nat)
    requires InPlace(d, slot, n)
    ensures d.offs + slot <= n * slot
  {
    var k: nat :| k < n && d.offs == OffsetOf(k, slot);
    SlotFits(k, slot, n);
  }

  lemma SameBuffer(d: Descr, d': Descr, q: seq<Descr>, f: seq<Descr>, slot: nat, n: nat)
    requires InHand(d, q, f, slot, n) && d'.offs == d.offs
    ensures InHand(d', q, f, slot, n)
  {
    var k: nat :| k < n && d.offs == OffsetOf(k, slot);
    assert d'.offs == OffsetOf(k, slot);
  }

  lemma PayloadsMore(ds: seq<Descr>, d: Descr, space: seq<Byte>)
    ensures Payloads(ds + [d], space) == Payloads(ds, space) + [BytesAt(d, space)]
  {
  }

  lemma PayloadsRest(ds: seq<Descr>, space: seq<Byte>)
    requires ds != []
    ensures Payloads(ds[1..], space) == Payloads(ds, space)[1..]
  {
  }

  lemma PayloadsFirst(ds: seq<Descr>, space: seq<Byte>)
    requires ds != []
    ensures Payloads(ds, space)[0] == BytesAt(ds[0], space)
  {
  }
}
