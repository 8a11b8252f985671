/**
 The transmitter of the beaconing protocol: payloads are written behind the place reserved for the header, and the header
 is written last, when the length and the number of payloads are known.
 */
module BpTransmitter {
  import opened Area
  import opened BpBeaconing
  import opened BpControlSegment
  import opened BpGathering
  import opened BpTransmissible
  import opened Bytes
  import opened FiniteQueueSpec
  import opened NodeIdentifier

  // ---------- The clients ----------

  datatype Connection = Connection(protocolId: Uint16, segment: BPShmControlSegment)

  ghost function SourceOf(c: Connection, locked: bool): Source
    requires c.segment.Valid()
    reads c.segment.Repr
  {
    Source(c.protocolId, c.segment.client.mode.Repeat?, c.segment.Store(), locked)
  }

  // The clients have control segments of their own, made of these objects
  ghost predicate Ready(clients: seq<Connection>, foot: set<object>)
    reads foot
  {
    && (forall i :: 0 <= i < |clients| ==> clients[i].segment.Repr <= foot && clients[i].segment.Valid())
    && (forall i, j :: 0 <= i < j < |clients| ==> clients[i].segment.Repr !! clients[j].segment.Repr)
  }

  ghost predicate Describe(clients: seq<Connection>, foot: set<object>, locked: seq<bool>, sources: seq<Source>)
    requires Ready(clients, foot)
    reads foot
  {
    && |locked| == |clients| == |sources|
    && forall i :: 0 <= i < |clients| ==> sources[i] == SourceOf(clients[i], locked[i])
  }

  ghost predicate Hold(clients: seq<Connection>, foot: set<object>, stores: seq<Snapshot>)
    requires Ready(clients, foot)
    reads foot
  {
    |stores| == |clients| && forall i :: 0 <= i < |clients| ==> clients[i].segment.Store() == stores[i]
  }

  // The clients before i have been served, the others not yet
  ghost predicate Served(clients: seq<Connection>, foot: set<object>, locked: seq<bool>, sources: seq<Source>,
                         stores: seq<Snapshot>, i: nat)
    requires Ready(clients, foot)
    reads foot
  {
    && |locked| == |clients| == |sources| && |stores| == i <= |clients|
    && (forall j :: 0 <= j < i ==> clients[j].segment.Store() == stores[j])
    && (forall j :: i <= j < |clients| ==> sources[j] == SourceOf(clients[j], locked[j]))
  }

  lemma DescribedServed(clients: seq<Connection>, foot: set<object>, locked: seq<bool>, sources: seq<Source>)
    requires Ready(clients, foot) && Describe(clients, foot, locked, sources)
    ensures Served(clients, foot, locked, sources, [], 0)
    ensures Hold(clients, foot, Stores(sources)) && |sources| == |clients| == |locked|
  {
  }

  lemma ServedHold(clients: seq<Connection>, foot: set<object>, locked: seq<bool>, sources: seq<Source>,
                   stores: seq<Snapshot>, i: nat)
    requires Ready(clients, foot) && Served(clients, foot, locked, sources, stores, i)
    ensures i <= |sources| == |clients| && Hold(clients, foot, stores + Stores(sources[i..]))
  {
  }

  // ---------- The transmitter ----------

  datatype Sent = BeaconSent(bytes: seq<Byte>) | NoBeacon | Exit | Failure

  class Transmitter {
    const ownNodeIdentifier: NodeId
    const networkIdentifier: Uint16
    const maxBeaconSize: nat
    var isActive: bool
    var exitFlag: bool
    var bpSequenceNumber: Uint32

    constructor (ownNodeIdentifier: NodeId, networkIdentifier: Uint16, maxBeaconSize: nat)
      ensures this.ownNodeIdentifier == ownNodeIdentifier && this.networkIdentifier == networkIdentifier
      ensures this.maxBeaconSize == maxBeaconSize && isActive && !exitFlag && bpSequenceNumber == 0
    {
      this.ownNodeIdentifier, this.networkIdentifier, this.maxBeaconSize := ownNodeIdentifier, networkIdentifier, maxBeaconSize;
      isActive, exitFlag, bpSequenceNumber := true, false, 0;
    }

    method SerializePayload(area: ByteVectorAssemblyArea, p: Pld) returns (ok: bool)
      requires area.Valid() && |p.bytes| < 0x1_0000
      modifies area, area.vector
      ensures area.Valid() && area.bytesUsed + area.bytesAvailable == old(area.bytesUsed + area.bytesAvailable)
      ensures ok <==> p.bytes != [] && PAYLOAD_HEADER_SIZE + |p.bytes| <= old(area.bytesAvailable)
      ensures ok ==> area.bytesUsed == old(area.bytesUsed) + PAYLOAD_HEADER_SIZE + |p.bytes|
      ensures ok ==> area.vector[..] == Overlay(old(area.vector[..]), old(area.bytesUsed), PayloadBytes(p))
    {
      hide Overlay, U16;
      ghost var v, at := area.vector[..], area.bytesUsed;
      ok := area.SerializeUint16(p.protocolId);
      if !ok {
        return;
      }
      ok := area.SerializeUint16(|p.bytes|);
      if !ok {
        return;
      }
      ok := area.SerializeByteBlock(p.bytes);
      if ok {
        OverlayTwice(v, at, U16(p.protocolId), U16(|p.bytes|));
        OverlayTwice(v, at, U16(p.protocolId) + U16(|p.bytes|), p.bytes);
      }
    }

    // The turn of one client: what it has is looked at and written, and then, or when that has raised an exception, the
    // retrieval ends
    method Serve(area: ByteVectorAssemblyArea, c: Connection, split: Split, locked: bool) returns (turn: Turn)
      requires area.Valid() && c.segment.Valid() && area !in c.segment.Repr && area.vector !in c.segment.Repr
      modifies area, area.vector, c.segment.Repr
      ensures area.Valid() && c.segment.Valid()
      ensures c.segment.Store() == StoreAfter(old(SourceOf(c, locked)), split, old(area.bytesAvailable))
      ensures turn == TurnOf(c.protocolId, OfferOf(old(SourceOf(c, locked)), split), old(area.bytesAvailable))
      ensures turn.Skips? || turn.Adds? ==>
                && area.bytesUsed == old(area.bytesUsed) + |BytesOf(turn)|
                && area.bytesAvailable == old(area.bytesAvailable) - |BytesOf(turn)|
                && area.vector[..] == Overlay(old(area.vector[..]), old(area.bytesUsed), BytesOf(turn))
    {
      hide Overlay, PayloadBytes, TakeNoWait, TakeRaising, TurnOf, OfferOf, StoreAfter, BPShmControlSegment.Store,
           BPShmControlSegment.Valid;
      TurnIs(SourceOf(c, locked), split, area.bytesAvailable);
      OverlayNothing(area.vector[..], area.bytesUsed);
      var seen := c.segment.LookForBeacon(locked);
      if seen.outcome.Done? {
        var (length, bytes) := split(seen.payloads[0]);
        if length == |bytes| {
          var p := Pld(c.protocolId, bytes);
          var ok := SerializePayload(area, p);
          if ok {
            var answer := c.segment.NextForBeacon(locked);
            return Adds(p);
          } else {
            var answer := c.segment.NextForBeaconRaising(locked);
            return Breaks(Fails);
          }
        }
      }
      var answer := c.segment.NextForBeacon(locked);
      match answer.outcome {
        case Nothing => turn := Skips;
        case TimedOut => turn := Breaks(Exits);
        case Done => turn := Breaks(Exits);
        case _ => turn := Breaks(Fails);
      }
    }

    // The turn of client i of several
    method ServeNext(area: ByteVectorAssemblyArea, clients: seq<Connection>, split: Split, locked: seq<bool>,
                     ghost foot: set<object>, ghost sources: seq<Source>, ghost stores: seq<Snapshot>, i: nat)
      returns (turn: Turn, ghost first: Snapshot)
      requires area.Valid() && Ready(clients, foot) && Served(clients, foot, locked, sources, stores, i) && i < |clients|
      requires area !in foot && area.vector !in foot
      modifies area, area.vector, foot
      ensures area.Valid() && Ready(clients, foot) && Served(clients, foot, locked, sources, stores + [first], i + 1)
      ensures first == StoreAfter(sources[i], split, old(area.bytesAvailable))
      ensures turn == TurnOf(sources[i].protocolId, OfferOf(sources[i], split), old(area.bytesAvailable))
      ensures turn.Skips? || turn.Adds? ==>
                && area.bytesUsed == old(area.bytesUsed) + |BytesOf(turn)|
                && area.bytesAvailable == old(area.bytesAvailable) - |BytesOf(turn)|
                && area.vector[..] == Overlay(old(area.vector[..]), old(area.bytesUsed), BytesOf(turn))
    {
      hide Overlay, PayloadBytes, StoreAfter, OfferOf, TurnOf, BytesOf,
           BPShmControlSegment.Store, BPShmControlSegment.Valid;
      turn := Serve(area, clients[i], split, locked[i]);
      first := clients[i].segment.Store();
    }

    // Writes what the clients have, one after the other
    method AddPayloads(area: ByteVectorAssemblyArea, clients: seq<Connection>, split: Split, locked: seq<bool>,
                       ghost foot: set<object>, ghost sources: seq<Source>)
      returns (n: nat, ok: bool, ghost g: Gathered)
      requires area.Valid() && Ready(clients, foot) && Describe(clients, foot, locked, sources)
      requires area !in foot && area.vector !in foot && this !in foot
      modifies area, area.vector, `exitFlag, foot
      ensures area.Valid() && Ready(clients, foot)
      ensures g == Beaconing(sources, split, old(area.bytesAvailable)).0
      ensures Hold(clients, foot, Beaconing(sources, split, old(area.bytesAvailable)).1)
      ensures exitFlag == (old(exitFlag) || g.Exits?) && (ok <==> g.Payloads?)
      ensures ok ==>
                && n == |g.plds| && area.bytesUsed == old(area.bytesUsed) + |Body(g.plds)|
                && |Body(g.plds)| <= old(area.bytesAvailable)
                && area.vector[..] == Overlay(old(area.vector[..]), old(area.bytesUsed), Body(g.plds))
    {
      hide Overlay, PayloadBytes, Body, Beaconing, Turned, StoreAfter, OfferOf, TurnOf, Served, Ready, Describe, Hold;
      ghost var v, at, room := area.vector[..], area.bytesUsed, area.bytesAvailable;
      ghost var ps: seq<Pld>, stores: seq<Snapshot> := [], [];
      n := 0;
      var i := 0;
      assert sources[0..] == sources;
      DescribedServed(clients, foot, locked, sources);
      NothingTurned(Beaconing(sources, split, room));
      BodyNone();
      OverlayNothing(v, at);
      while i < |clients|
        invariant i <= |clients| && area.Valid() && n == |ps| && exitFlag == old(exitFlag)
        invariant Ready(clients, foot) && Served(clients, foot, locked, sources, stores, i)
        invariant area.bytesUsed == at + |Body(ps)| && area.bytesAvailable == room - |Body(ps)|
        invariant area.vector[..] == Overlay(v, at, Body(ps))
        invariant Beaconing(sources, split, room) == Turned(ps, stores, Beaconing(sources[i..], split, area.bytesAvailable))
      {
        ghost var left := area.bytesAvailable;
        BeaconingByTurns(sources[i..], split, left);
        assert sources[i..][1..] == sources[i + 1..];
        ghost var first;
        var turn;
        turn, first := ServeNext(area, clients, split, locked, foot, sources, stores, i);
        ghost var rest := Beaconing(sources[i + 1..], split, area.bytesAvailable);
        match turn {
          case Skips =>
            TurnedOneMore(ps, stores, first, rest.0, rest.1);
            OverlayNothing(Overlay(v, at, Body(ps)), at + |Body(ps)|);
          case Adds(p) =>
            TurnedOneMore(ps, stores, first, rest.0, rest.1);
            OverlayTwice(v, at, Body(ps), PayloadBytes(p));
            BodySnoc(ps, p);
            ps := ps + [p];
            n := n + 1;
          case Breaks(r) =>
            if r.Exits? {
              exitFlag := true;
            }
            BrokenOff(ps, stores, r, [first] + Stores(sources[i + 1..]));
            ServedHold(clients, foot, locked, sources, stores + [first], i + 1);
            assert stores + ([first] + Stores(sources[i + 1..])) == (stores + [first]) + Stores(sources[i + 1..]);
            return n, false, r;
        }
        stores := stores + [first];
        i := i + 1;
      }
      ok := true;
      g := Payloads(ps);
      AllTurned(ps, stores, split, area.bytesAvailable);
      ServedHold(clients, foot, locked, sources, stores, i);
      assert sources[i..] == [] && stores + [] == stores;
    }

    method SerializeHeader(area: ByteVectorAssemblyArea, h: Header)
      requires area.Valid() && area.bytesAvailable >= HEADER_SIZE
      modifies area, area.vector
      ensures area.Valid()
      ensures area.vector[..] == Overlay(old(area.vector[..]), old(area.bytesUsed), HeaderBytes(h))
    {
      hide Overlay, U16, U32;
      ghost var v, at := area.vector[..], area.bytesUsed;
      var ok := area.SerializeByte(h.version);
      ok := area.SerializeUint16(h.magicNo);
      OverlayTwice(v, at, [h.version], U16(h.magicNo));
      ok := area.SerializeByteBlock(h.senderId);
      OverlayTwice(v, at, [h.version] + U16(h.magicNo), h.senderId);
      ok := area.SerializeUint16(h.networkId);
      OverlayTwice(v, at, [h.version] + U16(h.magicNo) + h.senderId, U16(h.networkId));
      ok := area.SerializeUint16(h.length);
      ghost var s := [h.version] + U16(h.magicNo) + h.senderId + U16(h.networkId);
      OverlayTwice(v, at, s, U16(h.length));
      ok := area.SerializeByte(h.numPayloads);
      OverlayTwice(v, at, s + U16(h.length), [h.numPayloads]);
      ok := area.SerializeUint32(h.seqno);
      OverlayTwice(v, at, s + U16(h.length) + [h.numPayloads], U32(h.seqno));
    }

    // The header goes into the place reserved for it
    method PutHeaderInFront(vector: array<Byte>, used: nat, n: nat, ghost v: seq<Byte>, ghost ps: seq<Pld>)
      returns (bytes: seq<Byte>)
      requires HEADER_SIZE + |Body(ps)| == used <= vector.Length && n == |ps|
      requires |v| == vector.Length && vector[..] == Overlay(v, HEADER_SIZE, Body(ps))
      modifies vector, `bpSequenceNumber
      ensures bytes == Beacon(ownNodeIdentifier, networkIdentifier, old(bpSequenceNumber), ps)
      ensures bpSequenceNumber == (old(bpSequenceNumber) + 1) % 0x1_0000_0000
    {
      hide Body, HeaderBytes, Overlay;
      var h := Header(HEADER_VERSION, MAGIC_NO, ownNodeIdentifier, networkIdentifier,
                      (used - HEADER_SIZE) % 0x1_0000, n % 0x100, bpSequenceNumber);
      bpSequenceNumber := (bpSequenceNumber + 1) % 0x1_0000_0000;
      var tmpArea := new ByteVectorAssemblyArea(HEADER_SIZE, vector);
      SerializeHeader(tmpArea, h);
      HeaderInFront(v, HeaderBytes(h), Body(ps));
      bytes := vector[..used];
    }

    // An area with the place for the header already used; no area of size zero can be made
    method ReserveHeader() returns (area: ByteVectorAssemblyArea, ok: bool)
      ensures ok <==> HEADER_SIZE <= maxBeaconSize
      ensures fresh(area) && fresh(area.vector) && area.Valid()
      ensures ok ==> area.bytesUsed == HEADER_SIZE && area.bytesAvailable == maxBeaconSize - HEADER_SIZE
    {
      var vector := new Byte[if maxBeaconSize == 0 then 1 else maxBeaconSize];
      area := new ByteVectorAssemblyArea(vector.Length, vector);
      if maxBeaconSize == 0 {
        return area, false;
      }
      ok := area.Incr(HEADER_SIZE);
    }

    // The beacon behind a reserved header
    method Assemble(area: ByteVectorAssemblyArea, clients: seq<Connection>, split: Split, locked: seq<bool>,
                    ghost foot: set<object>, ghost sources: seq<Source>) returns (sent: Sent)
      requires !exitFlag && Ready(clients, foot) && Describe(clients, foot, locked, sources) && this !in foot
      requires area.Valid() && area.bytesUsed == HEADER_SIZE
      requires area !in foot && area.vector !in foot
      modifies this, area, area.vector, foot
      ensures isActive == old(isActive) && exitFlag == sent.Exit?
      ensures Ready(clients, foot) && Hold(clients, foot, Beaconing(sources, split, old(area.bytesAvailable)).1)
      ensures match Beaconing(sources, split, old(area.bytesAvailable)).0
              case Exits => sent == Exit
              case Fails => sent == Failure
              case Payloads(ps) =>
                if ps == [] then sent == NoBeacon
                else sent == BeaconSent(Beacon(ownNodeIdentifier, networkIdentifier, old(bpSequenceNumber), ps))
      ensures bpSequenceNumber == (old(bpSequenceNumber) + if sent.BeaconSent? then 1 else 0) % 0x1_0000_0000
    {
      hide Body, Beacon, Overlay, Beaconing, Ready, Describe, Hold;
      ghost var v := area.vector[..];
      var n, fine, g := AddPayloads(area, clients, split, locked, foot, sources);
      if exitFlag {
        return Exit;
      }
      if !fine {
        return Failure;
      }
      if n == 0 {
        return NoBeacon;
      }
      var bytes := PutHeaderInFront(area.vector, area.bytesUsed, n, v, g.plds);
      sent := BeaconSent(bytes);
    }

    // One beacon, if any client has a payload; nothing is generated any more once the exit flag is set
    method GenerateBeacon(clients: seq<Connection>, split: Split, locked: seq<bool>, ghost foot: set<object>,
                          ghost sources: seq<Source>)
      returns (sent: Sent)
      requires !exitFlag && Ready(clients, foot) && Describe(clients, foot, locked, sources) && this !in foot
      modifies this, foot
      ensures Ready(clients, foot)
      ensures isActive == old(isActive) && exitFlag == sent.Exit?
      ensures !isActive ==> sent == NoBeacon && Hold(clients, foot, Stores(sources))
      ensures isActive && maxBeaconSize < HEADER_SIZE ==> sent == Failure && Hold(clients, foot, Stores(sources))
      ensures isActive && maxBeaconSize >= HEADER_SIZE ==>
                && Hold(clients, foot, Beaconing(sources, split, maxBeaconSize - HEADER_SIZE).1)
                && match Beaconing(sources, split, maxBeaconSize - HEADER_SIZE).0
                case Exits => sent == Exit
                case Fails => sent == Failure
                case Payloads(ps) =>
                  if ps == [] then sent == NoBeacon
                  else sent == BeaconSent(Beacon(ownNodeIdentifier, networkIdentifier, old(bpSequenceNumber), ps))
      ensures bpSequenceNumber == (old(bpSequenceNumber) + if sent.BeaconSent? then 1 else 0) % 0x1_0000_0000
    {
      hide Body, Beacon, Overlay, Beaconing, Ready, Describe, Hold;
      DescribedServed(clients, foot, locked, sources);
      if !isActive {
        return NoBeacon;
      }
      var area, ok := ReserveHeader();
      if !ok {
        return Failure;
      }
      sent := Assemble(area, clients, split, locked, foot, sources);
    }
  }

  // A header written over the place reserved for it stands before the payloads written behind it
  lemma HeaderInFront(v: seq<Byte>, h: seq<Byte>, body: seq<Byte>)
    requires |h| == HEADER_SIZE && HEADER_SIZE + |body| <= |v|
    ensures Overlay(Overlay(v, HEADER_SIZE, body), 0, h)[..HEADER_SIZE + |body|] == h + body
  {
  }
}
