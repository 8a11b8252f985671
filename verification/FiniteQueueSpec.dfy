/**
 What each locked section of the shared-memory finite queue does to the payloads that are queued, to the number
 of free buffers and to the flag that says whether there is data. Exceptions are outcomes like the others: an
 operation that ends in one leaves the state it had reached.
 */
module FiniteQueueSpec {
  import opened Bytes

  type Payload = seq<Byte>

  // Number of buffers, number of payloads the queue accepts, and size of a buffer
  datatype Shape = Shape(buffers: nat, cap: nat, size: nat)

  datatype Snapshot = Snapshot(stored: seq<Payload>, free: nat, hasData: bool)

  datatype Outcome =
    | Done            // payload stored or retrieved
    | Nothing         // the handler has written nothing, or there was nothing to retrieve
    | QueueFull       // reported by the push that does not wait
    | Waiting         // the caller now waits for the condition variable
    | TimedOut
    | NoBuffer        // exceptions: a ring buffer was found empty,
    | NoRoom          // or full,
    | Overrun         // or the handler has written more than the buffer size,
    | HandlerRaised   // or it has raised one itself
  {
    predicate Exception() {
      NoBuffer? || NoRoom? || Overrun? || HandlerRaised?
    }
  }

  datatype Answer = Answer(outcome: Outcome, payloads: seq<Payload>, further: bool)

  // ---------- Pushing ----------

  // A buffer is in hand, taken from the free list or from the queue
  function Filled(c: Shape, s: Snapshot, p: Payload): (Snapshot, Outcome) {
    if p == [] then (s.(free := s.free + 1), Nothing)
    else if |p| > c.size then (s, Overrun)
    else if |s.stored| == c.cap then (s, NoRoom)
    else (s.(stored := s.stored + [p], hasData := true), Done)
  }

  function PushFree(c: Shape, s: Snapshot, p: Payload): (Snapshot, Outcome) {
    if s.free == 0 then (s, NoBuffer) else Filled(c, s.(free := s.free - 1), p)
  }

  // The caller waits whenever there is data, not only when the queue is full
  function PushWait(c: Shape, s: Snapshot, p: Payload): (Snapshot, Outcome) {
    if s.hasData then (s, Waiting) else PushFree(c, s, p)
  }

  function PushNoWait(c: Shape, s: Snapshot, p: Payload): (Snapshot, Outcome) {
    if |s.stored| == c.cap then (s, QueueFull) else PushFree(c, s, p)
  }

  // A full queue gives up its oldest payload
  function PushForce(c: Shape, s: Snapshot, p: Payload): (Snapshot, Outcome) {
    if |s.stored| == c.cap then
      if s.stored == [] then (s, NoBuffer) else Filled(c, s.(stored := s.stored[1..]), p)
    else PushFree(c, s, p)
  }

  // A push whose handler raises an exception: a buffer taken from the free list is in neither ring buffer from then on
  function PushRaising(s: Snapshot): (Snapshot, Outcome) {
    if s.free == 0 then (s, NoBuffer) else (s.(free := s.free - 1), HandlerRaised)
  }

  // ---------- Retrieving ----------

  datatype Wanted = First | All | Look

  // What a consumer that does not wait, or has been woken, does
  function Retrieved(s: Snapshot, w: Wanted): (Snapshot, Answer) {
    if w.All? then
      (s.(stored := [], free := s.free + |s.stored|, hasData := false), Answer(Done, s.stored, false))
    else if s.stored == [] then (s, Answer(NoBuffer, [], false))
    else if w.Look? then (s, Answer(Done, s.stored[..1], false))
    else
      var more := |s.stored| > 1;
      (s.(stored := s.stored[1..], free := s.free + 1, hasData := s.hasData && more), Answer(Done, s.stored[..1], more))
  }

  function TakeNoWait(s: Snapshot, w: Wanted): (Snapshot, Answer) {
    if !s.hasData then (s, Answer(Nothing, [], false)) else Retrieved(s, w)
  }

  function TakeWait(s: Snapshot, w: Wanted): (Snapshot, Answer) {
    if !s.hasData then (s, Answer(Waiting, [], false)) else Retrieved(s, w)
  }

  // A retrieval that does not wait and whose handler raises an exception: a popped descriptor is in neither ring buffer
  // from then on, and the flag is not looked at any more
  function TakeRaising(s: Snapshot, w: Wanted): (Snapshot, Answer)
    requires !w.All?
  {
    if !s.hasData then (s, Answer(Nothing, [], false))
    else if s.stored == [] then (s, Answer(NoBuffer, [], false))
    else if w.Look? then (s, Answer(HandlerRaised, s.stored[..1], false))
    else (s.(stored := s.stored[1..]), Answer(HandlerRaised, s.stored[..1], false))
  }

  // All buffers become free again; the flag stays as it is
  function Reset(c: Shape, s: Snapshot): Snapshot {
    s.(stored := [], free := c.buffers)
  }

  // ---------- The flag and the buffers ----------

  ghost predicate FlagOk(s: Snapshot) {
    s.hasData <==> s.stored != []
  }

  // No buffer is lost
  ghost predicate AllThere(c: Shape, s: Snapshot) {
    |s.stored| + s.free == c.buffers
  }

  ghost predicate Within(c: Shape, s: Snapshot) {
    1 <= c.cap <= c.buffers && |s.stored| <= c.cap && |s.stored| + s.free <= c.buffers
  }

  function Newest(ps: seq<Payload>, n: nat): seq<Payload> {
    if |ps| <= n then ps else ps[|ps| - n..]
  }

  // What each push answers and leaves behind, for a payload that fits, while the flag is right and no buffer is lost:
  // without waiting it is stored exactly if the queue is not full, with waiting exactly if the queue is empty, and after
  // the wait, or with force, in any case
  lemma PushesExactly(c: Shape, s: Snapshot, p: Payload)
    requires Within(c, s) && AllThere(c, s) && FlagOk(s) && 0 < |p| <= c.size
    ensures var (s', outcome) := PushNoWait(c, s, p);
            && (outcome == Done <==> |s.stored| < c.cap) && (outcome == QueueFull <==> |s.stored| == c.cap)
            && s' == if |s.stored| < c.cap then Snapshot(s.stored + [p], s.free - 1, true) else s
    ensures var (s', outcome) := PushWait(c, s, p);
            && (outcome == Done <==> s.stored == []) && (outcome == Waiting <==> s.stored != [])
            && s' == if s.stored == [] then Snapshot([p], s.free - 1, true) else s
    ensures |s.stored| < c.cap ==> PushFree(c, s, p) == (Snapshot(s.stored + [p], s.free - 1, true), Done)
    ensures |s.stored| < c.cap ==> PushForce(c, s, p) == (Snapshot(s.stored + [p], s.free - 1, true), Done)
    ensures |s.stored| == c.cap ==> PushForce(c, s, p) == (Snapshot(s.stored[1..] + [p], s.free, true), Done)
  {
    assert s.stored == [] ==> s.stored + [p] == [p];
  }

  // Pushing nothing changes nothing, except that with force it costs a full queue its oldest payload. Of a payload that is
  // too long only the buffer it was written into is lost, and with force the oldest payload of a full queue.
  lemma PushesOfNothingOrTooMuch(c: Shape, s: Snapshot, p: Payload)
    requires Within(c, s) && AllThere(c, s) && FlagOk(s) && (p == [] || |p| > c.size)
    ensures var answer, lost := if p == [] then Nothing else Overrun, if p == [] then 0 else 1;
            && (|s.stored| < c.cap ==>
                  && PushNoWait(c, s, p) == (s.(free := s.free - lost), answer)
                  && PushForce(c, s, p) == (s.(free := s.free - lost), answer)
                  && PushFree(c, s, p) == (s.(free := s.free - lost), answer))
            && (s.stored == [] ==> PushWait(c, s, p) == (s.(free := s.free - lost), answer))
            && (s.stored != [] ==> PushWait(c, s, p) == (s, Waiting))
            && (|s.stored| == c.cap ==>
                  && PushNoWait(c, s, p) == (s, QueueFull)
                  && PushForce(c, s, p) == (s.(stored := s.stored[1..], free := s.free + 1 - lost), answer))
  {
  }

  // A push that finds no free buffer, or, after the wait, a full queue, raises an exception; the latter loses a buffer
  lemma PushesWithoutRoom(c: Shape, s: Snapshot, p: Payload)
    requires Within(c, s) && 0 < |p| <= c.size
    ensures s.free == 0 ==> PushFree(c, s, p) == (s, NoBuffer)
    ensures s.free > 0 && |s.stored| == c.cap ==> PushFree(c, s, p) == (s.(free := s.free - 1), NoRoom)
  {
  }

  // A push whose handler raises stores nothing and loses a buffer; the flag stays right
  lemma RaisingPushLoses(c: Shape, s: Snapshot)
    requires Within(c, s) && AllThere(c, s) && |s.stored| < c.cap
    ensures var (s', outcome) := PushRaising(s);
            && outcome == HandlerRaised && s'.stored == s.stored && s'.hasData == s.hasData
            && |s'.stored| + s'.free == c.buffers - 1
  {
  }

  // What each retrieval hands over and leaves behind while the flag is right
  lemma TakesExactly(s: Snapshot, w: Wanted)
    requires FlagOk(s)
    ensures s.stored == [] ==>
              && TakeNoWait(s, w) == (s, Answer(Nothing, [], false)) && TakeWait(s, w) == (s, Answer(Waiting, [], false))
    ensures s.stored != [] ==>
              && TakeNoWait(s, w) == TakeWait(s, w) == Retrieved(s, w)
              && Retrieved(s, w) ==
                 match w
                 case First =>
                   var rest := s.stored[1..];
                   (Snapshot(rest, s.free + 1, rest != []), Answer(Done, [s.stored[0]], rest != []))
                 case Look => (s, Answer(Done, [s.stored[0]], false))
                 case All => (Snapshot([], s.free + |s.stored|, false), Answer(Done, s.stored, false))
  {
    if s.stored != [] {
      assert s.stored[..1] == [s.stored[0]];
    }
  }

  // The forced push keeps the newest payloads the queue has room for
  lemma ForceKeepsNewest(c: Shape, s: Snapshot, p: Payload)
    requires Within(c, s) && AllThere(c, s) && 0 < |p| <= c.size
    ensures PushForce(c, s, p).1 == Done
    ensures PushForce(c, s, p).0.stored == Newest(s.stored + [p], c.cap)
  {
    if |s.stored| == c.cap {
      assert s.stored[1..] + [p] == (s.stored + [p])[1..];
    }
  }

  // Of the pushes, the flag goes wrong exactly in the forced push of nothing, or of too much, into a full queue
  // of capacity one; the reset puts it wrong exactly when there was something to discard
  lemma PushKeepsFlagExactly(c: Shape, s: Snapshot, p: Payload)
    requires Within(c, s) && FlagOk(s)
    ensures FlagOk(PushWait(c, s, p).0) && FlagOk(PushFree(c, s, p).0) && FlagOk(PushNoWait(c, s, p).0)
    ensures FlagOk(PushForce(c, s, p).0) <==> !(c.cap == 1 && |s.stored| == 1 && (p == [] || |p| > c.size))
    ensures FlagOk(Reset(c, s)) <==> s.stored == []
  {
  }

  lemma TakeKeepsFlag(s: Snapshot, w: Wanted)
    requires FlagOk(s)
    ensures FlagOk(Retrieved(s, w).0) && FlagOk(TakeNoWait(s, w).0) && FlagOk(TakeWait(s, w).0)
  {
  }

  // A pop whose handler raises loses its payload and its buffer, and leaves the flag wrong exactly if the payload was the
  // last one
  lemma RaisingPopLoses(c: Shape, s: Snapshot)
    requires Within(c, s) && AllThere(c, s) && FlagOk(s) && s.hasData
    ensures var (s', answer) := TakeRaising(s, First);
            && answer.outcome == HandlerRaised && answer.payloads + s'.stored == s.stored
            && !AllThere(c, s') && Within(c, s')
            && (FlagOk(s') <==> |s.stored| > 1)
  {
  }

  // A buffer is lost exactly by an exception after it was taken: the handler has written too much, or the queue
  // has no room, which happens to none of the pushes while the flag is right. The reset gets lost buffers back.
  lemma BuffersLostExactly(c: Shape, s: Snapshot, p: Payload)
    requires Within(c, s) && AllThere(c, s)
    ensures AllThere(c, PushWait(c, s, p).0) <==> !PushWait(c, s, p).1.Overrun? && !PushWait(c, s, p).1.NoRoom?
    ensures AllThere(c, PushNoWait(c, s, p).0) <==> !PushNoWait(c, s, p).1.Overrun?
    ensures AllThere(c, PushForce(c, s, p).0) <==> |p| <= c.size
    ensures FlagOk(s) && !s.hasData ==> (AllThere(c, PushWait(c, s, p).0) <==> |p| <= c.size)
    ensures AllThere(c, Reset(c, s))
  {
  }
}
