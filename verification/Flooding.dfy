/**
 The flooding module: handlers that update its fields in place, each proved against the functions of
 FloodingNode.
 */
module Flooding {
  import opened Wrappers
  import opened FloodingNode

  class FloodingModule<P> {
    const ownIdentifier: nat
    const numRepetitions: nat
    var lastSeen: map<nat, SeqNo>
    var packetQueue: seq<Flood<P>>
    var currentPacket: Option<Flood<P>>
    var repetitionsToGo: nat
    var timerScheduled: bool
    var sequenceNumber: SeqNo
    // what has left through the two gates so far
    var toHigher: seq<Flood<P>>
    var toLbp: seq<Flood<P>>
    // what has been put into the queue, and what has been finished with
    ghost var queued: seq<Flood<P>>
    ghost var done: seq<Flood<P>>

    ghost function State(): State<P>
      reads this
    {
      FloodingNode.State(ownIdentifier, numRepetitions, lastSeen, packetQueue, currentPacket, repetitionsToGo,
                         timerScheduled, sequenceNumber, toHigher, toLbp, queued, done)
    }

    ghost predicate Valid()
      reads this
    {
      NodeOk(State())
    }

    constructor (ownIdentifier: nat, numRepetitions: nat)
      requires numRepetitions > 0
      ensures Valid() && State() == Init(ownIdentifier, numRepetitions)
    {
      this.ownIdentifier, this.numRepetitions := ownIdentifier, numRepetitions;
      lastSeen, packetQueue, currentPacket, repetitionsToGo := map[], [], None, 0;
      timerScheduled, sequenceNumber := false, 0;
      toHigher, toLbp, queued, done := [], [], [], [];
    }

    // The packet with a new header; the sequence number is a 32-bit counter
    method ComposeHeader(payload: P) returns (p: Flood<P>)
      modifies `sequenceNumber
      ensures p == Flood(ownIdentifier, old(sequenceNumber), TTL_INIT, payload)
      ensures sequenceNumber == (old(sequenceNumber) + 1) % SEQNO_MODULUS
    {
      p := Flood(ownIdentifier, sequenceNumber, TTL_INIT, payload);
      sequenceNumber := (sequenceNumber + 1) % SEQNO_MODULUS;
    }

    // Takes up the next packet unless one is in hand; the timer must not be running already
    method WorkOnPacketQueue()
      requires currentPacket.None? ==> packetQueue != [] && !timerScheduled
      modifies `currentPacket, `packetQueue, `repetitionsToGo, `timerScheduled
      ensures State() == WorkOnQueue(old(State()))
    {
      if currentPacket.Some? {
        return;
      }
      currentPacket := Some(packetQueue[0]);
      packetQueue := packetQueue[1..];
      repetitionsToGo := numRepetitions;
      timerScheduled := true;
    }

    // A packet from the higher layers starts a flood
    method HandleOtherMessage(payload: P)
      requires Valid()
      modifies this
      ensures Valid() && State() == Originate(old(State()), payload)
    {
      hide UpOk, Paced;
      OriginateOk(State(), payload);
      var p := ComposeHeader(payload);
      packetQueue := packetQueue + [p];
      queued := queued + [p];
      WorkOnPacketQueue();
    }

    // A packet received from a neighbour
    method HandleReceivedBroadcast(p: Flood<P>)
      requires Valid()
      modifies this
      ensures Valid() && State() == Hear(old(State()), p)
    {
      hide UpOk, Paced;
      HearOk(State(), p);
      var found := p.source in lastSeen;
      if p.source == ownIdentifier {
        return;
      }
      if found && lastSeen[p.source] >= p.seqno {
        return;
      }
      lastSeen := lastSeen[p.source := p.seqno];
      toHigher := toHigher + [p];
      if p.ttl <= 0 {
        return;
      }
      var copy := p.(ttl := p.ttl - 1);
      packetQueue := packetQueue + [copy];
      queued := queued + [copy];
      WorkOnPacketQueue();
    }

    // The timer has fired: there is a packet in hand, as the program insists
    method HandleSelfMessage()
      requires Valid() && timerScheduled
      modifies this
      ensures Valid()
      ensures old(currentPacket).Some? && State() == Fire(old(State()))
    {
      hide UpOk, Paced;
      timerScheduled := false;
      assert currentPacket.Some?;
      FireOk(old(State()));
      if repetitionsToGo > 0 {
        repetitionsToGo := repetitionsToGo - 1;
        toLbp := toLbp + [currentPacket.value];
        timerScheduled := true;
        return;
      }
      done := done + [currentPacket.value];
      currentPacket := None;
      if packetQueue != [] {
        WorkOnPacketQueue();
      }
    }
  }
}
