/**
 A beacon made from the clients' queues: which payloads it takes, and what becomes of the queues, also when the making of
 the beacon ends early.
 */
module BpBeaconing {
  import opened BpTransmissible
  import opened BpGathering
  import BpReceiving
  import opened Bytes
  import opened FiniteQueueSpec

  // A client: its protocol, whether its payload stays in the one-place buffer, the state of its queue or buffer, and
  // whether the lock on it is acquired in time
  datatype Source = Source(protocolId: Uint16, repeats: bool, store: Snapshot, locked: bool)

  // A stored request: the length it gives, and the payload behind the request structure
  type Split = Payload -> (Uint16, seq<Byte>)

  function Wants(c: Source): (w: Wanted)
    ensures !w.All?
  {
    if c.repeats then Look else First
  }

  // What the retrieval for the beacon hands to its handler
  function OfferOf(c: Source, split: Split): Offer {
    if !c.locked then LockTimedOut
    else
      var answer := TakeNoWait(c.store, Wants(c)).1;
      match answer.outcome
      case Done => var (length, bytes) := split(answer.payloads[0]); Request(length, bytes)
      case Nothing => NoPayload
      case _ => Unreadable
  }

  function OffersOf(clients: seq<Source>, split: Split): (r: seq<ClientOffer>)
    ensures |r| == |clients|
  {
    seq(|clients|, i requires 0 <= i < |clients| => ClientOffer(clients[i].protocolId, OfferOf(clients[i], split)))
  }

  // Serializing this request raises an exception inside the retrieval
  predicate Raises(o: Offer, room: nat) {
    o.Request? && o.length == |o.bytes| && (|o.bytes| == 0 || PAYLOAD_HEADER_SIZE + |o.bytes| > room)
  }

  // The store of a client whose turn has come
  function StoreAfter(c: Source, split: Split, room: nat): Snapshot {
    if !c.locked then c.store
    else if Raises(OfferOf(c, split), room) then TakeRaising(c.store, Wants(c)).0
    else TakeNoWait(c.store, Wants(c)).0
  }

  // What the beacon has used of the room when the turn of the next client comes
  function RoomAfter(o: Offer, room: nat): nat
    requires o.Request? ==> PAYLOAD_HEADER_SIZE + |o.bytes| <= room
  {
    if o.Request? then room - PAYLOAD_HEADER_SIZE - |o.bytes| else room
  }

  predicate GoesOn(o: Offer, room: nat) {
    o.NoPayload? || (o.Request? && o.length == |o.bytes| && !Raises(o, room))
  }

  // The turn of one client
  datatype Turn = Skips | Adds(pld: Pld) | Breaks(g: Gathered)

  function TurnOf(protocolId: Uint16, o: Offer, room: nat): Turn {
    match o
    case NoPayload => Skips
    case LockTimedOut => Breaks(Exits)
    case Unreadable => Breaks(Fails)
    case Request(length, bytes) =>
      if length != |bytes| then Breaks(Exits) else if Raises(o, room) then Breaks(Fails) else Adds(Pld(protocolId, bytes))
  }

  // The turn of a client in terms of what its store hands over
  lemma TurnIs(c: Source, split: Split, room: nat)
    ensures !c.locked ==>
              TurnOf(c.protocolId, OfferOf(c, split), room) == Breaks(Exits) && StoreAfter(c, split, room) == c.store
    ensures var (after, answer) := TakeNoWait(c.store, Wants(c));
            c.locked && !answer.outcome.Done? ==>
              && TurnOf(c.protocolId, OfferOf(c, split), room) == (if answer.outcome.Nothing? then Skips else Breaks(Fails))
              && StoreAfter(c, split, room) == after
    ensures var (after, answer) := TakeNoWait(c.store, Wants(c));
            c.locked && answer.outcome.Done? ==>
              var (length, bytes) := split(answer.payloads[0]);
              var fits := bytes != [] && PAYLOAD_HEADER_SIZE + |bytes| <= room;
              && TurnOf(c.protocolId, OfferOf(c, split), room)
                 == (if length != |bytes| then Breaks(Exits) else if fits then Adds(Pld(c.protocolId, bytes)) else Breaks(Fails))
              && StoreAfter(c, split, room)
                 == if length == |bytes| && !fits then TakeRaising(c.store, Wants(c)).0 else after
  {
    hide TakeRaising;
  }

  function BytesOf(turn: Turn): seq<Byte> {
    if turn.Adds? then PayloadBytes(turn.pld) else []
  }

  // The loop over the clients: what goes into the beacon, and all the stores afterwards
  function Beaconing(clients: seq<Source>, split: Split, room: nat): (Gathered, seq<Snapshot>) {
    if clients == [] then (Payloads([]), [])
    else
      var o := OfferOf(clients[0], split);
      var first := StoreAfter(clients[0], split, room);
      if GoesOn(o, room) then
        var (g, stores) := Beaconing(clients[1..], split, RoomAfter(o, room));
        (if o.Request? then AddFirst(Pld(clients[0].protocolId, o.bytes), g) else g, [first] + stores)
      else
        (if o.LockTimedOut? || (o.Request? && o.length != |o.bytes|) then Exits else Fails, [first] + Stores(clients[1..]))
  }

  function Stores(clients: seq<Source>): (r: seq<Snapshot>)
    ensures |r| == |clients|
  {
    seq(|clients|, i requires 0 <= i < |clients| => clients[i].store)
  }

  lemma BeaconingByTurns(clients: seq<Source>, split: Split, room: nat)
    requires clients != []
    ensures var turn := TurnOf(clients[0].protocolId, OfferOf(clients[0], split), room);
            var first := StoreAfter(clients[0], split, room);
            if turn.Breaks? then
              !turn.g.Payloads? && Beaconing(clients, split, room) == (turn.g, [first] + Stores(clients[1..]))
            else
              && |BytesOf(turn)| <= room
              && var (g, stores) := Beaconing(clients[1..], split, room - |BytesOf(turn)|);
                 Beaconing(clients, split, room)
                 == (if turn.Adds? then AddFirst(turn.pld, g) else g, [first] + stores)
  {
    hide OfferOf, StoreAfter;
  }

  // After the turns of some clients, which have left these payloads and stores
  ghost function Turned(ps: seq<Pld>, stores: seq<Snapshot>, rest: (Gathered, seq<Snapshot>)): (Gathered, seq<Snapshot>) {
    (AddAll(ps, rest.0), stores + rest.1)
  }

  lemma NothingTurned(rest: (Gathered, seq<Snapshot>))
    ensures Turned([], [], rest) == rest
  {
    AddAllNone(rest.0);
    assert [] + rest.1 == rest.1;
  }

  lemma AllTurned(ps: seq<Pld>, stores: seq<Snapshot>, split: Split, room: nat)
    ensures Turned(ps, stores, Beaconing([], split, room)) == (Payloads(ps), stores)
  {
    assert ps + [] == ps && stores + [] == stores;
  }

  lemma BrokenOff(ps: seq<Pld>, stores: seq<Snapshot>, g: Gathered, rest: seq<Snapshot>)
    requires !g.Payloads?
    ensures Turned(ps, stores, (g, rest)) == (g, stores + rest)
  {
  }

  lemma TurnedOneMore(ps: seq<Pld>, stores: seq<Snapshot>, first: Snapshot, g: Gathered, rest: seq<Snapshot>)
    ensures Turned(ps, stores, (g, [first] + rest)) == Turned(ps, stores + [first], (g, rest))
    ensures forall p: Pld :: Turned(ps, stores, (AddFirst(p, g), [first] + rest)) == Turned(ps + [p], stores + [first], (g, rest))
  {
    assert stores + ([first] + rest) == (stores + [first]) + rest;
    forall p: Pld ensures AddAll(ps, AddFirst(p, g)) == AddAll(ps + [p], g) {
      AddAllOne(ps, p, g);
    }
  }

  // What is gathered is what the transmitter gathers from the clients' offers
  lemma {:induction false} GathersOffers(clients: seq<Source>, split: Split, room: nat)
    ensures Beaconing(clients, split, room).0 == Gather(OffersOf(clients, split), room)
  {
    var offers := OffersOf(clients, split);
    if clients != [] {
      hide OfferOf, StoreAfter;
      assert offers[1..] == OffersOf(clients[1..], split);
      var o := OfferOf(clients[0], split);
      if GoesOn(o, room) {
        GathersOffers(clients[1..], split, RoomAfter(o, room));
      }
    }
  }

  // The room left when the turn of client j comes, all before it having gone on
  ghost predicate ReachedWith(clients: seq<Source>, split: Split, room: nat, j: nat, left: nat)
    requires j <= |clients|
  {
    if j == 0 then left == room
    else
      var o := OfferOf(clients[0], split);
      GoesOn(o, room) && ReachedWith(clients[1..], split, RoomAfter(o, room), j - 1, left)
  }

  // The clients before some client j have had their turn and gone on, those after it are left alone, and the making of
  // the beacon ends at j itself unless there is no such client
  lemma {:induction false} QueuesAfterwards(clients: seq<Source>, split: Split, room: nat) returns (j: nat, left: nat)
    ensures j <= |clients| && ReachedWith(clients, split, room, j, left)
    ensures var (g, stores) := Beaconing(clients, split, room);
            && |stores| == |clients|
            && (forall i :: 0 <= i < j ==> stores[i] == TakeNoWait(clients[i].store, Wants(clients[i])).0)
            && (forall i :: j < i < |clients| ==> stores[i] == clients[i].store)
            && (j < |clients| ==>
                  !GoesOn(OfferOf(clients[j], split), left) && stores[j] == StoreAfter(clients[j], split, left))
            && (g.Payloads? <==> j == |clients|)
  {
    j, left := 0, room;
    if clients != [] {
      var o := OfferOf(clients[0], split);
      if GoesOn(o, room) {
        var k;
        k, left := QueuesAfterwards(clients[1..], split, RoomAfter(o, room));
        j := k + 1;
        hide OfferOf;
        assert forall i :: 1 <= i < |clients| ==> clients[i] == clients[1..][i - 1];
      }
    }
  }

  // When the payload of a client does not fit or is empty, the client loses it, and the buffer it was in; its flag is
  // wrong afterwards exactly if it was the last one stored. Only a client in repeat mode keeps what it has.
  lemma RaisingClientLoses(c: Shape, client: Source, split: Split, left: nat)
    requires Within(c, client.store) && AllThere(c, client.store) && FlagOk(client.store)
    requires Raises(OfferOf(client, split), left)
    ensures var store := StoreAfter(client, split, left);
            if client.repeats then store == client.store
            else
              && store.stored == client.store.stored[1..] && !AllThere(c, store)
              && (FlagOk(store) <==> |client.store.stored| > 1)
  {
    if !client.repeats {
      RaisingPopLoses(c, client.store);
    }
  }

  // ---------- When every client is in order ----------

  // The lock is acquired in time, the flag is right, and the oldest payload, if any, is well-formed and not empty
  ghost predicate InOrder(c: Source, split: Split) {
    && c.locked && FlagOk(c.store)
    && (c.store.stored != [] ==> var (length, bytes) := split(c.store.stored[0]); 0 < |bytes| == length)
  }

  // What the clients with something stored have for the beacon
  function Contributions(clients: seq<Source>, split: Split): seq<Pld> {
    if clients == [] then []
    else
      (if clients[0].store.stored == [] then []
       else [Pld(clients[0].protocolId, split(clients[0].store.stored[0]).1)])
      + Contributions(clients[1..], split)
  }

  // A client that repeats keeps its payload, the others give it and its buffer away
  function Emptied(c: Source): Snapshot {
    if c.repeats || c.store.stored == [] then c.store
    else Snapshot(c.store.stored[1..], c.store.free + 1, |c.store.stored| > 1)
  }

  lemma ClientInOrder(c: Source, split: Split, room: nat)
    requires InOrder(c, split)
    ensures var stored := c.store.stored;
            if stored == [] then
              OfferOf(c, split) == NoPayload && StoreAfter(c, split, room) == Emptied(c)
            else
              var (length, bytes) := split(stored[0]);
              && OfferOf(c, split) == Request(length, bytes)
              && (PAYLOAD_HEADER_SIZE + |bytes| <= room ==> StoreAfter(c, split, room) == Emptied(c))
  {
    hide TakeNoWait, TakeRaising;
    TakesExactly(c.store, Wants(c));
  }

  // When every client is in order and all contributions fit together, the beacon carries exactly the oldest payload of
  // each client that has one, in the clients' order, and each such client, unless it repeats, has one less
  lemma {:induction false} EveryClientContributes(clients: seq<Source>, split: Split, room: nat)
    requires forall i :: 0 <= i < |clients| ==> InOrder(clients[i], split)
    requires |Body(Contributions(clients, split))| <= room
    ensures var (g, stores) := Beaconing(clients, split, room);
            && g == Payloads(Contributions(clients, split))
            && |stores| == |clients| && forall i :: 0 <= i < |clients| ==> stores[i] == Emptied(clients[i])
  {
    hide InOrder, OfferOf, StoreAfter, Body, Emptied;
    if clients != [] {
      var c, rest := clients[0], clients[1..];
      var left := if c.store.stored == [] then room else room - PAYLOAD_HEADER_SIZE - |split(c.store.stored[0]).1|;
      ContributionLen(clients, split);
      ClientInOrder(c, split, room);
      LengthInOrder(c, split);
      EveryClientContributes(rest, split, left);
      assert forall i :: 1 <= i < |clients| ==> clients[i] == rest[i - 1];
    }
  }

  lemma LengthInOrder(c: Source, split: Split)
    requires InOrder(c, split)
    ensures c.store.stored != [] ==> var (length, bytes) := split(c.store.stored[0]); 0 < |bytes| == length
  {
  }

  lemma ContributionLen(clients: seq<Source>, split: Split)
    requires clients != []
    ensures var rest, stored := Contributions(clients[1..], split), clients[0].store.stored;
            && Contributions(clients, split)
               == (if stored == [] then [] else [Pld(clients[0].protocolId, split(stored[0]).1)]) + rest
            && |Body(Contributions(clients, split))|
               == |Body(rest)| + if stored == [] then 0 else PAYLOAD_HEADER_SIZE + |split(stored[0]).1|
  {
    var stored := clients[0].store.stored;
    if stored != [] {
      BpReceiving.BodyFirst(Pld(clients[0].protocolId, split(stored[0]).1), Contributions(clients[1..], split));
    } else {
      assert [] + Contributions(clients[1..], split) == Contributions(clients[1..], split);
    }
  }
}
