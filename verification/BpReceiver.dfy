/**
 The receiver of the beaconing protocol, working on a disassembly area and on the clients' queues of indications.
 */
module BpReceiver {
  import opened Area
  import opened BpIndicating
  import opened BpReceiving
  import opened BpTransmissible
  import opened Bytes
  import opened FiniteQueueSpec
  import opened NodeIdentifier
  import Shm = ShmFiniteQueue

  lemma NeverWaits()
    ensures forall c: Shape, s: Snapshot, p: Payload :: !PushFree(c, s, p).1.Waiting?
    ensures forall s: Snapshot :: !PushRaising(s).1.Waiting?
  {
  }

  // A client: its queue of indications in shared memory, and what it has taken from there
  class Client {
    const indications: Shm.ShmFiniteQueue
    var taken: seq<Payload>
    ghost const Repr: set<object>

    ghost predicate Valid()
      reads Repr
    {
      Repr == {this} + indications.Repr() && this !in indications.Repr() && indications.Valid()
    }

    ghost function State(): Listener
      requires Valid()
      reads Repr
    {
      Listener(indications.Shape(), indications.Model(), taken)
    }

    constructor (indications: Shm.ShmFiniteQueue)
      requires indications.Valid()
      ensures Valid() && this.indications == indications && taken == [] && Repr == {this} + indications.Repr()
    {
      this.indications, taken := indications, [];
      Repr := {this, indications, indications.queue, indications.queue.ring, indications.freeList,
               indications.freeList.ring, indications.bufferSpace};
    }

    // The client retrieves something a number of times
    method TakeOut(times: nat)
      requires Valid()
      modifies Repr
      ensures Valid() && State() == Takes(old(State()), times)
    {
      hide Shm.ShmFiniteQueue.Parts;
      var n := times;
      while n > 0
        invariant Valid() && Takes(State(), n) == Takes(old(State()), times)
      {
        var answer := indications.PopNoWait(true);
        taken := taken + answer.payloads;
        n := n - 1;
      }
    }

    // Waits, for a short time, until the client has taken everything, and pushes a payload
    method Indicate(lead: Lead, bytes: seq<Byte>, t: Timing) returns (outcome: Outcome)
      requires Valid() && |bytes| + |lead(0)| <= indications.bufferSize
      modifies Repr
      ensures Valid() && (State(), outcome) == BpIndicating.Indicate(old(State()), lead, bytes, t)
    {
      hide Shm.ShmFiniteQueue.Parts, Takes, PushFree, PushRaising;
      TakeOut(t.before);
      var payload := Indication(lead, bytes);
      indications.SmallFits(payload);
      if |bytes| == 0 {
        outcome := indications.PushWaitRaising(t.locked);
      } else {
        outcome := indications.PushWait(payload, t.locked);
      }
      NeverWaits();
      if outcome.Waiting? {
        TakeOut(t.during);
        indications.SmallFits(payload);
        if indications.hasData {
          outcome := TimedOut;
        } else if |bytes| == 0 {
          outcome := indications.PushWokenRaising();
        } else {
          outcome := indications.PushWoken(payload);
        }
      }
    }
  }

  class Receiver {
    const ownNodeIdentifier: NodeId
    const networkIdentifier: Uint16
    const lead: Lead
    const clients: map<Uint16, Client>
    // the objects the clients are made of
    ghost const foot: set<object>
    var exitFlag: bool
    // what has been found so far, with whether it was handed over
    var found: seq<Item>

    ghost predicate Valid()
      reads foot
    {
      && this !in foot
      && (forall p :: p in clients ==> clients[p].Repr <= foot && clients[p].Valid())
      && (forall p, q :: p in clients && q in clients && p != q ==> clients[p].Repr !! clients[q].Repr)
    }

    ghost function Listeners(): map<Uint16, Listener>
      requires Valid()
      reads foot
    {
      map p | p in clients :: clients[p].State()
    }

    constructor (ownNodeIdentifier: NodeId, networkIdentifier: Uint16, lead: Lead, clients: map<Uint16, Client>,
                 ghost foot: set<object>)
      requires forall p :: p in clients ==> clients[p].Repr <= foot && clients[p].Valid()
      requires forall p, q :: p in clients && q in clients && p != q ==> clients[p].Repr !! clients[q].Repr
      ensures Valid() && !exitFlag && found == []
      ensures this.ownNodeIdentifier == ownNodeIdentifier && this.networkIdentifier == networkIdentifier
      ensures this.lead == lead && this.clients == clients && this.foot == foot
    {
      this.ownNodeIdentifier, this.networkIdentifier, this.lead := ownNodeIdentifier, networkIdentifier, lead;
      this.clients, this.foot := clients, foot;
      exitFlag, found := false, [];
    }

    // The header fields, in their order; there are enough bytes for them
    method DeserializeHeader(area: ByteVectorDisassemblyArea) returns (h: Header)
      requires area.Valid() && |area.Rest()| >= HEADER_SIZE
      modifies area
      ensures area.Valid() && h == ReadHeader(old(area.Rest()))
      ensures area.Rest() == old(area.Rest())[HEADER_SIZE..] && area.bytesUsed == old(area.bytesUsed) + HEADER_SIZE
    {
      hide ReadU16, ReadU32, ByteVectorDisassemblyArea.Rest;
      ghost var s := area.Rest();
      var version := area.DeserializeByte();
      var magicNo := area.DeserializeUint16();
      var senderId := area.DeserializeByteBlock(IDENTIFIER_SIZE);
      var networkId := area.DeserializeUint16();
      var length := area.DeserializeUint16();
      var numPayloads := area.DeserializeByte();
      var seqno := area.DeserializeUint32();
      assert s[1..][2..] == s[3..] && s[3..][..IDENTIFIER_SIZE] == s[3..9] && s[3..][IDENTIFIER_SIZE..] == s[9..];
      assert s[9..][2..] == s[11..] && s[11..][2..] == s[13..] && s[13..][1..] == s[14..] && s[14..][4..] == s[18..];
      h := Header(version.value, magicNo.value, senderId.value, networkId.value, length.value, numPayloads.value, seqno.value);
    }

    method SkipPayload(area: ByteVectorDisassemblyArea, protocolId: Uint16, length: Uint16) returns (ok: bool)
      requires area.Valid() && length <= |area.Rest()|
      modifies area, `found
      ensures area.Valid() && ok && area.Rest() == old(area.Rest())[length..]
      ensures found == old(found) + [Item(Pld(protocolId, old(area.Rest())[..length]), false)]
    {
      assert area.vector[area.bytesUsed..area.bytesUsed + length] == area.Rest()[..length];
      found := found + [Item(Pld(protocolId, area.vector[area.bytesUsed..area.bytesUsed + length]), false)];
      ok := area.Incr(length);
    }

    // A push to one client leaves the others alone
    method IndicateTo(p: Uint16, bytes: seq<Byte>, t: Timing) returns (outcome: Outcome)
      requires Valid() && p in clients && |bytes| + |lead(0)| <= clients[p].indications.bufferSize
      modifies foot
      ensures Valid()
      ensures var (l, o) := Indicate(old(Listeners())[p], lead, bytes, t);
              Listeners() == old(Listeners())[p := l] && outcome == o
    {
      hide Indicate, Client.Valid, Client.State;
      outcome := clients[p].Indicate(lead, bytes, t);
    }

    lemma ClientOf(p: Uint16)
      requires Valid()
      ensures this !in foot && (p in Listeners() <==> p in clients)
      ensures p in clients ==> Listeners()[p].shape.size == clients[p].indications.bufferSize
    {
    }

    lemma NextBytes(area: ByteVectorDisassemblyArea, length: nat)
      requires area.Valid() && length <= |area.Rest()|
      ensures area.bytesUsed + length <= |area.vector|
      ensures area.vector[area.bytesUsed..area.bytesUsed + length] == area.Rest()[..length]
    {
    }

    // Pushes the next payload to a client it fits, or skips it when time is up; false stands for an exception
    method HandOver(area: ByteVectorDisassemblyArea, p: Uint16, length: Uint16, t: Timing) returns (ok: bool)
      requires Valid() && area.Valid() && area !in foot && length <= |area.Rest()|
      requires p in clients && length + |lead(0)| <= clients[p].indications.bufferSize
      modifies area, `found, foot
      ensures Valid() && area.Valid()
      ensures var bytes := old(area.Rest())[..length];
              var (l, outcome) := Indicate(old(Listeners())[p], lead, bytes, t);
              && Listeners() == old(Listeners())[p := l] && (ok <==> !FateOf(outcome).Breaks?)
              && (ok ==> area.Rest() == old(area.Rest())[length..])
              && found == old(found) + if ok then [Item(Pld(p, bytes), outcome.Done?)] else []
    {
      hide Valid, Listeners, Indicate, ByteVectorDisassemblyArea.Rest;
      NextBytes(area, length);
      ClientOf(p);
      // what the handler of the push is going to read from the area
      var bytes := area.vector[area.bytesUsed..area.bytesUsed + length];
      IndicateExactly(Listeners()[p], lead, bytes, t);
      var outcome := IndicateTo(p, bytes, t);
      if outcome.TimedOut? {
        ok := SkipPayload(area, p, length);
        return;
      }
      if !outcome.Done? {
        return false;
      }
      var block := area.DeserializeByteBlock(length);
      found := found + [Item(Pld(p, block.value), true)];
      ok := true;
    }

    // Hands the next payload to its client, or skips it; false stands for an exception
    method DeliverPayload(area: ByteVectorDisassemblyArea, protocolId: Uint16, length: Uint16, t: Timing)
      returns (ok: bool)
      requires Valid() && area.Valid() && area !in foot && length <= |area.Rest()|
      modifies area, `found, foot
      ensures Valid() && area.Valid()
      ensures var bytes := old(area.Rest())[..length];
              var (ls, outcome) := Served(old(Listeners()), lead, protocolId, bytes, t);
              && Listeners() == ls && (ok <==> !FateOf(outcome).Breaks?)
              && (ok ==> area.Rest() == old(area.Rest())[length..])
              && found == old(found) + if ok then [Item(Pld(protocolId, bytes), outcome.Done?)] else []
    {
      hide Valid, Listeners, Indicate, ByteVectorDisassemblyArea.Rest;
      ClientOf(protocolId);
      if protocolId !in clients {
        ok := SkipPayload(area, protocolId, length);
        return;
      }
      if length + |lead(0)| > clients[protocolId].indications.bufferSize {
        ok := SkipPayload(area, protocolId, length);
        return;
      }
      ok := HandOver(area, protocolId, length, t);
    }

    method ProcessReceivedPayload(area: ByteVectorDisassemblyArea, timing: nat -> Timing) returns (ghost end: End)
      requires Valid() && area.Valid() && area !in foot && area.bytesUsed == 0 && area.bytesAvailable == |area.vector|
      modifies area, `found, `exitFlag, foot
      ensures Valid()
      ensures var (r, ls) := ReadBeacon(old(Listeners()), lead, timing, ownNodeIdentifier, networkIdentifier, area.vector);
              && found == old(found) + r.items && end == r.end && Listeners() == ls
              && exitFlag == (old(exitFlag) || r.end == LengthTooLarge)
    {
      hide ReadHeader, ReadU16, WellFormed, Client.Valid, Client.State, Served;
      assert area.Rest() == area.vector;
      if area.bytesAvailable <= HEADER_SIZE {
        return TooShort;
      }
      var h := DeserializeHeader(area);
      if !WellFormed(h, ownNodeIdentifier, networkIdentifier) {
        return NotForUs;
      }
      if h.length > area.bytesAvailable {
        exitFlag := true;
        return LengthTooLarge;
      }
      if h.length < area.bytesAvailable {
        var ok := area.Resize(HEADER_SIZE + h.length);
      }
      assert area.Rest() == area.vector[HEADER_SIZE..HEADER_SIZE + h.length];
      NotTooLarge(Listeners(), lead, timing, area.Rest(), h.numPayloads, 0);
      end := ProcessPayloads(area, h.numPayloads, timing);
    }

    method ProcessPayloads(area: ByteVectorDisassemblyArea, numberPayloads: Byte, timing: nat -> Timing)
      returns (ghost end: End)
      requires Valid() && area.Valid() && area !in foot
      modifies area, `found, foot
      ensures Valid()
      ensures var (r, ls) := ReadInto(old(Listeners()), lead, timing, old(area.Rest()), numberPayloads, 0);
              found == old(found) + r.items && end == r.end && Listeners() == ls
    {
      hide ReadU16, Served, ByteVectorDisassemblyArea.Rest, ReadInto, After, Client.Valid, Client.State;
      ghost var all := ReadInto(Listeners(), lead, timing, area.Rest(), numberPayloads, 0);
      ghost var items: seq<Item> := [];
      var i := 0;
      AfterNone(all);
      while i < numberPayloads
        invariant i <= numberPayloads && area.Valid() && Valid()
        invariant found == old(found) + items
        invariant all == After(items, ReadInto(Listeners(), lead, timing, area.Rest(), numberPayloads, i))
      {
        ghost var s, r := area.Rest(), ReadInto(Listeners(), lead, timing, area.Rest(), numberPayloads, i);
        ReadStep(Listeners(), lead, timing, s, numberPayloads, i);
        AfterItems(items, r);
        if area.bytesAvailable < PAYLOAD_HEADER_SIZE {
          return CutInHeader;
        }
        var protocolId := area.DeserializeUint16();
        var length := area.DeserializeUint16();
        if area.bytesAvailable < length.value {
          return CutInPayload;
        }
        ghost var rest := area.Rest();
        assert s[2..][2..] == s[PAYLOAD_HEADER_SIZE..];
        ghost var outcome := Served(Listeners(), lead, protocolId.value, rest[..length.value], timing(i)).1;
        var ok := DeliverPayload(area, protocolId.value, length.value, timing(i));
        if !ok {
          return Raised;
        }
        ghost var item := Item(Pld(protocolId.value, rest[..length.value]), outcome.Done?);
        AfterOne(items, item, ReadInto(Listeners(), lead, timing, area.Rest(), numberPayloads, i + 1));
        items := items + [item];
        i := i + 1;
      }
      AfterItems(items, ReadInto(Listeners(), lead, timing, area.Rest(), numberPayloads, i));
      ReadNone(Listeners(), lead, timing, area.Rest(), numberPayloads);
      end := Complete;
    }
  }

  ghost function After(items: seq<Item>, r: (Reading, map<Uint16, Listener>)): (Reading, map<Uint16, Listener>) {
    (r.0.(items := items + r.0.items), r.1)
  }

  lemma AfterNone(r: (Reading, map<Uint16, Listener>))
    ensures After([], r) == r
  {
    assert [] + r.0.items == r.0.items;
  }

  lemma AfterItems(items: seq<Item>, r: (Reading, map<Uint16, Listener>))
    ensures After(items, r).0.items == items + r.0.items && After(items, r).0.end == r.0.end && After(items, r).1 == r.1
    ensures r.0.items == [] ==> After(items, r).0.items == items
  {
  }

  lemma AfterOne(items: seq<Item>, item: Item, r: (Reading, map<Uint16, Listener>))
    ensures After(items, (Prepend(item, r.0), r.1)) == After(items + [item], r)
  {
    assert items + ([item] + r.0.items) == (items + [item]) + r.0.items;
  }

  lemma ReadNone(ls: map<Uint16, Listener>, lead: Lead, timing: nat -> Timing, s: seq<Byte>, n: nat)
    ensures ReadInto(ls, lead, timing, s, n, n) == (Reading([], Complete), ls)
  {
  }

  lemma {:induction false} NotTooLarge(ls: map<Uint16, Listener>, lead: Lead, timing: nat -> Timing, s: seq<Byte>, n: nat, i: nat)
    ensures ReadInto(ls, lead, timing, s, n, i).0.end != LengthTooLarge
    decreases n - i
  {
    hide ReadU16, Served;
    if i < n && |s| >= PAYLOAD_HEADER_SIZE && ReadU16(s[2..]) <= |s| - PAYLOAD_HEADER_SIZE {
      var protocolId, length, rest := ReadU16(s), ReadU16(s[2..]), s[PAYLOAD_HEADER_SIZE..];
      NotTooLarge(Served(ls, lead, protocolId, rest[..length], timing(i)).0, lead, timing, rest[length..], n, i + 1);
    }
  }

  lemma ReadStep(ls: map<Uint16, Listener>, lead: Lead, timing: nat -> Timing, s: seq<Byte>, n: nat, i: nat)
    requires i < n
    ensures |s| < PAYLOAD_HEADER_SIZE ==> ReadInto(ls, lead, timing, s, n, i) == (Reading([], CutInHeader), ls)
    ensures |s| >= PAYLOAD_HEADER_SIZE ==>
              var protocolId, length, rest := ReadU16(s), ReadU16(s[2..]), s[PAYLOAD_HEADER_SIZE..];
              if |rest| < length then ReadInto(ls, lead, timing, s, n, i) == (Reading([], CutInPayload), ls)
              else
                var (ls', outcome) := Served(ls, lead, protocolId, rest[..length], timing(i));
                if FateOf(outcome).Breaks? then ReadInto(ls, lead, timing, s, n, i) == (Reading([], Raised), ls')
                else
                  var (r, ls'') := ReadInto(ls', lead, timing, rest[length..], n, i + 1);
                  ReadInto(ls, lead, timing, s, n, i)
                  == (Prepend(Item(Pld(protocolId, rest[..length]), outcome.Done?), r), ls'')
  {
    hide Served;
  }
}
