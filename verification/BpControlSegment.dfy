/**
 The control segment shared by the beaconing protocol and one of its clients: transmit-payload requests go into a
 queue or a one-place buffer, according to the client's queueing mode.
 */
module BpControlSegment {
  import opened FiniteQueueRuns
  import opened FiniteQueueSpec
  import Shm = ShmFiniteQueue

  datatype Mode = Once | Repeat | DropTail | DropHead

  datatype Status =
    | Accepted
    | SharedMemoryError
    | EmptyPayload
    | PayloadTooLarge
    | Pending           // the request waits for the consumer
    | Raised            // an exception of the queue

  // Parameters of a client; requestSize is the size of the request structure that precedes the payload
  datatype Client = Client(mode: Mode, maxEntries: nat, maxPayloadSize: nat, requestSize: nat)

  function StatusOf(outcome: Outcome): Status {
    match outcome
    case Done => Accepted
    case Nothing => Accepted
    case Waiting => Pending
    case TimedOut => SharedMemoryError
    case _ => Raised
  }

  predicate Legal(k: Client, p: Payload) {
    0 < |p| <= k.maxPayloadSize + k.requestSize
  }

  // The first locked sections of a transmit request for the two queueing styles
  function TransmitBuffered(c: Shape, buffer: Snapshot, p: Payload): (Snapshot, Outcome) {
    PushWait(c, FiniteQueueSpec.Reset(c, buffer), p)
  }

  function TransmitQueued(c: Shape, k: Client, queue: Snapshot, p: Payload): (Snapshot, Outcome) {
    if k.mode.DropHead? then PushForce(c, queue, p)
    else if |queue.stored| >= k.maxEntries then (queue, Done)
    else PushWait(c, queue, p)
  }

  // The same with the answer, and when the mutex is not acquired in time: the reset of the buffer and the look at the
  // number of stored entries have locks of their own without a time-out
  function BufferStep(c: Shape, buffer: Snapshot, p: Payload, locked: bool): (Snapshot, Status) {
    if locked then
      var r := TransmitBuffered(c, buffer, p);
      (r.0, StatusOf(r.1))
    else (FiniteQueueSpec.Reset(c, buffer), SharedMemoryError)
  }

  function QueueStep(c: Shape, k: Client, queue: Snapshot, p: Payload, locked: bool): (Snapshot, Status) {
    if locked then
      var r := TransmitQueued(c, k, queue, p);
      (r.0, StatusOf(r.1))
    else (queue, if !k.mode.DropHead? && |queue.stored| >= k.maxEntries then Accepted else SharedMemoryError)
  }

  predicate Buffered(k: Client) {
    k.mode.Once? || k.mode.Repeat?
  }

  class BPShmControlSegment {
    const queue: Shm.ShmFiniteQueue
    const buffer: Shm.ShmFiniteQueue
    const client: Client

    ghost const Repr: set<object>

    ghost predicate Valid()
      reads Repr
    {
      && Repr == queue.Repr() + buffer.Repr() && queue.Repr() !! buffer.Repr()
      && queue.Valid() && buffer.Valid()
      && client.maxPayloadSize + client.requestSize <= queue.bufferSize == buffer.bufferSize
      && queue.queue.maxCapacity == (if client.maxEntries == 0 then 1 else client.maxEntries)
      && buffer.queue.maxCapacity == 1
    }

    constructor (client: Client, numberBuffers: nat, bufferSize: nat)
      requires 1 <= numberBuffers && client.maxEntries <= numberBuffers
      requires client.maxPayloadSize + client.requestSize <= bufferSize
      ensures Valid() && this.client == client
      ensures queue.Model() == Snapshot([], numberBuffers, false) == buffer.Model()
    {
      this.client := client;
      var q := new Shm.ShmFiniteQueue(numberBuffers, bufferSize, if client.maxEntries == 0 then 1 else client.maxEntries);
      var b := new Shm.ShmFiniteQueue(numberBuffers, bufferSize, 1);
      queue, buffer := q, b;
      Repr := q.Repr() + b.Repr();
    }

    // The modes with a one-place buffer: it is reset, then written
    method TransmitToBuffer(payload: Payload, locked: bool) returns (status: Status)
      requires Valid() && Legal(client, payload)
      modifies buffer.Repr()
      ensures Valid() && (buffer.Model(), status) == BufferStep(buffer.Shape(), old(buffer.Model()), payload, locked)
    {
      buffer.Reset();
      buffer.SmallFits(payload);
      var outcome := buffer.PushWait(payload, locked);
      status := StatusOf(outcome);
    }

    method TransmitToQueue(payload: Payload, locked: bool) returns (status: Status)
      requires Valid() && Legal(client, payload)
      modifies queue.Repr()
      ensures Valid() && (queue.Model(), status) == QueueStep(queue.Shape(), client, old(queue.Model()), payload, locked)
    {
      queue.SmallFits(payload);
      var outcome;
      if client.mode.DropHead? {
        outcome := queue.PushWaitForce(payload, locked);
      } else {
        var n := queue.StoredElements();
        if n >= client.maxEntries {
          return Accepted;
        }
        outcome := queue.PushWait(payload, locked);
      }
      status := StatusOf(outcome);
    }

    // Up to the end of the first locked section that may wait; locked says whether its mutex is acquired in time
    method TransmitPayload(payload: Payload, locked: bool) returns (status: Status)
      requires Valid()
      modifies queue.Repr(), buffer.Repr()
      ensures Valid()
      ensures payload == [] ==> status == EmptyPayload
      ensures Legal(client, payload) <==> 0 < |payload| <= client.maxPayloadSize + client.requestSize
      ensures |payload| > client.maxPayloadSize + client.requestSize ==> status == PayloadTooLarge
      ensures !Legal(client, payload) ==> queue.Model() == old(queue.Model()) && buffer.Model() == old(buffer.Model())
      ensures Legal(client, payload) && Buffered(client) ==>
                && queue.Model() == old(queue.Model())
                && (buffer.Model(), status) == BufferStep(buffer.Shape(), old(buffer.Model()), payload, locked)
      ensures Legal(client, payload) && !Buffered(client) ==>
                && buffer.Model() == old(buffer.Model())
                && (queue.Model(), status) == QueueStep(queue.Shape(), client, old(queue.Model()), payload, locked)
    {
      hide BufferStep, QueueStep, Shm.ShmFiniteQueue.Valid;
      if |payload| == 0 {
        return EmptyPayload;
      }
      if |payload| > client.maxPayloadSize + client.requestSize {
        return PayloadTooLarge;
      }
      if client.mode.Once? || client.mode.Repeat? {
        status := TransmitToBuffer(payload, locked);
      } else {
        status := TransmitToQueue(payload, locked);
      }
    }

    // The queue or buffer that the mode of the client uses
    ghost function Store(): Snapshot
      requires Valid()
      reads Repr
    {
      if Buffered(client) then buffer.Model() else queue.Model()
    }

    // What the handler of the next retrieval will be handed
    method LookForBeacon(locked: bool) returns (answer: Answer)
      requires Valid()
      ensures !locked ==> answer == Answer(TimedOut, [], false)
      ensures locked ==>
                !answer.outcome.TimedOut? &&
                var taken := TakeNoWait(Store(), (if client.mode.Repeat? then Look else First)).1;
                && answer.outcome == taken.outcome && answer.payloads == taken.payloads
                && (answer.outcome.Done? ==> |answer.payloads| == 1)
    {
      if client.mode.Once? || client.mode.Repeat? {
        answer := buffer.PeekNoWait(locked);
      } else {
        answer := queue.PeekNoWait(locked);
      }
    }

    // What is retrieved for the next beacon
    method NextForBeacon(locked: bool) returns (answer: Answer)
      requires Valid()
      modifies Repr
      ensures Valid()
      ensures (Store(), answer) ==
              if locked then TakeNoWait(old(Store()), (if client.mode.Repeat? then Look else First)) else (old(Store()), Answer(TimedOut, [], false))
      ensures locked && (client.mode.DropTail? || client.mode.DropHead?) ==>
                buffer.Model() == old(buffer.Model()) && (queue.Model(), answer) == TakeNoWait(old(queue.Model()), First)
      ensures locked && (client.mode.Once? || client.mode.Repeat?) ==>
                && queue.Model() == old(queue.Model())
                && (buffer.Model(), answer) == TakeNoWait(old(buffer.Model()), (if client.mode.Repeat? then Look else First))
      ensures !locked ==> queue.Model() == old(queue.Model()) && buffer.Model() == old(buffer.Model())
                          && answer == Answer(TimedOut, [], false)
    {
      match client.mode {
        case Once =>
          answer := buffer.PopNoWait(locked);
        case Repeat =>
          answer := buffer.PeekNoWait(locked);
        case _ =>
          answer := queue.PopNoWait(locked);
      }
    }

    // The same when the handler, which writes the payload into the beacon, raises an exception
    method NextForBeaconRaising(locked: bool) returns (answer: Answer)
      requires Valid()
      modifies Repr
      ensures Valid()
      ensures (Store(), answer) ==
              if locked then TakeRaising(old(Store()), (if client.mode.Repeat? then Look else First)) else (old(Store()), Answer(TimedOut, [], false))
      ensures locked && !Buffered(client) ==>
                buffer.Model() == old(buffer.Model()) && (queue.Model(), answer) == TakeRaising(old(queue.Model()), First)
      ensures locked && Buffered(client) ==>
                && queue.Model() == old(queue.Model())
                && (buffer.Model(), answer) == TakeRaising(old(buffer.Model()), (if client.mode.Repeat? then Look else First))
      ensures !locked ==> queue.Model() == old(queue.Model()) && buffer.Model() == old(buffer.Model())
                          && answer == Answer(TimedOut, [], false)
    {
      match client.mode {
        case Once =>
          answer := buffer.PopNoWaitRaising(locked);
        case Repeat =>
          answer := buffer.PeekNoWait(locked);
          if answer.outcome.Done? {
            answer := answer.(outcome := HandlerRaised);
          }
        case _ =>
          answer := queue.PopNoWaitRaising(locked);
      }
    }
  }

  // ---------- The one-place buffer ----------

  // A transmit request in the modes with a one-place buffer replaces the payload exactly when there is none to
  // replace; otherwise the old payload is lost, the new one is not stored, and the buffer is stuck
  lemma BufferedStoresExactly(c: Shape, s: System, k: Client, p: Payload)
    requires Within(c, s.q) && AllThere(c, s.q) && FlagOk(s.q) && s.producer.Free?
    requires Legal(k, p) && k.maxPayloadSize + k.requestSize <= c.size
    ensures var r := TransmitBuffered(c, s.q, p); var s' := Step(c, Step(c, s, ResetQueue), PushWaiting(p));
            && s'.q == r.0
            && (r.1 == Done <==> s.q.stored == [])
            && (r.1 == Done ==> s'.q.stored == [p] && FlagOk(s'.q))
            && (r.1 != Done ==> r.1 == Waiting && Stuck(s'))
  {
  }

  // A repeating client has one payload accepted in its lifetime; a second request leaves it with none
  lemma RepeatedOnlyOnce(c: Shape, events: seq<Event>)
    requires forall i :: 0 <= i < |events| ==> Overwriting(events[i]) && (events[i].TakeAtOnce? ==> events[i].w.Look?)
    ensures |Run(c, events).accepted| <= 1
    ensures Run(c, events).accepted != [] && Run(c, events).q.stored == [] ==> Stuck(Run(c, events))
  {
    LookedAtOnlyOnce(c, events);
  }

  // The answers of the modes with a one-place buffer: accepted exactly if the buffer was empty and the mutex acquired in
  // time; what was there is gone in any case
  lemma BufferAnswers(c: Shape, buffer: Snapshot, k: Client, p: Payload, locked: bool)
    requires Within(c, buffer) && AllThere(c, buffer) && FlagOk(buffer)
    requires 0 < |p| <= k.maxPayloadSize + k.requestSize <= c.size
    ensures var empty := buffer.stored == [];
            BufferStep(c, buffer, p, locked) ==
              if !locked then (Snapshot([], c.buffers, !empty), SharedMemoryError)
              else if empty then (Snapshot([p], c.buffers - 1, true), Accepted)
              else (Snapshot([], c.buffers, true), Pending)
  {
    assert [] + [p] == [p];
  }

  // The answers of the modes with a queue. Dropping the head, a request is stored whenever the mutex is acquired in time.
  // Dropping the tail, it is stored if the queue is empty and may hold something, dropped, although accepted, if as many
  // are stored as the queue may hold, and waits otherwise.
  lemma QueueAnswers(c: Shape, queue: Snapshot, k: Client, p: Payload, locked: bool)
    requires Within(c, queue) && AllThere(c, queue) && FlagOk(queue)
    requires 0 < |p| <= k.maxPayloadSize + k.requestSize <= c.size
    ensures var n := |queue.stored|;
            if k.mode.DropHead? then
              QueueStep(c, k, queue, p, locked) ==
                if !locked then (queue, SharedMemoryError)
                else (Snapshot(Newest(queue.stored + [p], c.cap), c.buffers - if n < c.cap then n + 1 else c.cap, true), Accepted)
            else
              QueueStep(c, k, queue, p, locked) ==
                if n >= k.maxEntries then (queue, Accepted)
                else if !locked then (queue, SharedMemoryError)
                else if n == 0 then (Snapshot([p], c.buffers - 1, true), Accepted)
                else (queue, Pending)
  {
    hide PushWait, PushForce;
    PushesExactly(c, queue, p);
    ForceKeepsNewest(c, queue, p);
  }

  // ---------- Dropping the tail ----------

  // With room for two or more entries a client that drops the tail never reaches the branch that drops: a request
  // that finds a payload waiting to be sent waits itself
  lemma DropTailWaitsInstead(c: Shape, events: seq<Event>, k: Client, p: Payload)
    requires 1 <= c.cap <= c.buffers && k.mode.DropTail? && c.cap == k.maxEntries
    requires forall i :: 0 <= i < |events| ==>
               !events[i].PushAtOnce? && !events[i].PushForced? && !events[i].ResetQueue?
    ensures var q := Run(c, events).q;
            && (|q.stored| >= k.maxEntries <==> k.maxEntries == 1 && q.stored != [])
            && (q.stored != [] && k.maxEntries >= 2 ==> TransmitQueued(c, k, q, p) == (q, Waiting))
  {
    hide Run;
    WaitingPushHoldsOne(c, events);
  }

  // ---------- Dropping the head ----------

  // A client that drops the head always has its request accepted, and keeps its newest payloads
  lemma DropHeadKeepsNewest(c: Shape, k: Client, q: Snapshot, p: Payload)
    requires Within(c, q) && AllThere(c, q) && k.mode.DropHead?
    requires Legal(k, p) && k.maxPayloadSize + k.requestSize <= c.size
    ensures StatusOf(TransmitQueued(c, k, q, p).1) == Accepted
    ensures TransmitQueued(c, k, q, p).0.stored == Newest(q.stored + [p], c.cap)
  {
    ForceKeepsNewest(c, q, p);
  }
}
