/**
 What a beacon is gathered from: the clients' offers, one after the other, as long as nothing goes wrong.
 */
module BpGathering {
  import opened BpIndicating
  import opened BpReceiving
  import opened BpTransmissible
  import opened Bytes
  import opened NodeIdentifier

  // What a client has for the next beacon: a request says how long its payload is, and is followed by the payload
  datatype Offer =
    | NoPayload
    | LockTimedOut
    | Unreadable      // the client's queue raises an exception
    | Request(length: Uint16, bytes: seq<Byte>)

  datatype ClientOffer = ClientOffer(protocolId: Uint16, offer: Offer)

  datatype Gathered =
    | Payloads(plds: seq<Pld>)
    | Exits           // a lock timed out or a request is inconsistent: the exit flag is set
    | Fails           // an exception: of a queue, or for an empty payload, or one for which there is no room

  function AddFirst(p: Pld, g: Gathered): Gathered {
    if g.Payloads? then Payloads([p] + g.plds) else g
  }

  function Gather(offers: seq<ClientOffer>, room: nat): Gathered {
    if offers == [] then Payloads([])
    else
      match offers[0].offer
      case NoPayload => Gather(offers[1..], room)
      case LockTimedOut => Exits
      case Unreadable => Fails
      case Request(length, bytes) =>
        if length != |bytes| then Exits
        else if |bytes| == 0 || PAYLOAD_HEADER_SIZE + |bytes| > room then Fails
        else AddFirst(Pld(offers[0].protocolId, bytes), Gather(offers[1..], room - PAYLOAD_HEADER_SIZE - |bytes|))
  }

  // ---------- When everything goes into the beacon ----------

  function Requested(offers: seq<ClientOffer>): seq<Pld> {
    if offers == [] then []
    else (if offers[0].offer.Request? then [Pld(offers[0].protocolId, offers[0].offer.bytes)] else []) + Requested(offers[1..])
  }

  predicate Proper(offers: seq<ClientOffer>) {
    forall i :: 0 <= i < |offers| ==>
      && !offers[i].offer.LockTimedOut? && !offers[i].offer.Unreadable?
      && (offers[i].offer.Request? ==> 0 < |offers[i].offer.bytes| == offers[i].offer.length)
  }

  // Nothing tests beforehand whether the payloads fit: there is a beacon exactly when all requests are proper and
  // all of them together fit, and then it carries all of them, in the order of the clients
  lemma {:induction false} GathersAllOrNothing(offers: seq<ClientOffer>, room: nat)
    ensures Gather(offers, room).Payloads? <==> Proper(offers) && |Body(Requested(offers))| <= room
    ensures Gather(offers, room).Payloads? ==> Gather(offers, room).plds == Requested(offers)
  {
    if offers != [] {
      hide PayloadBytes, Body;
      var first, rest := offers[0], offers[1..];
      ProperParts(offers);
      match first.offer {
        case NoPayload =>
          GathersAllOrNothing(rest, room);
          assert Requested(offers) == Requested(rest);
        case LockTimedOut =>
        case Unreadable =>
        case Request(length, bytes) =>
          if PAYLOAD_HEADER_SIZE + |bytes| <= room {
            GathersAllOrNothing(rest, room - PAYLOAD_HEADER_SIZE - |bytes|);
          }
          GathersFirst(offers, room);
      }
    } else {
      assert Body([]) == [];
    }
  }

  lemma GathersFirst(offers: seq<ClientOffer>, room: nat)
    requires offers != [] && offers[0].offer.Request?
    requires var left := room - PAYLOAD_HEADER_SIZE - |offers[0].offer.bytes|;
             left >= 0 ==>
               && (Gather(offers[1..], left).Payloads? <==> Proper(offers[1..]) && |Body(Requested(offers[1..]))| <= left)
               && (Gather(offers[1..], left).Payloads? ==> Gather(offers[1..], left).plds == Requested(offers[1..]))
    ensures Gather(offers, room).Payloads? <==> Proper(offers) && |Body(Requested(offers))| <= room
    ensures Gather(offers, room).Payloads? ==> Gather(offers, room).plds == Requested(offers)
  {
    hide PayloadBytes, Body, Proper;
    var p := Pld(offers[0].protocolId, offers[0].offer.bytes);
    BodyFirst(p, Requested(offers[1..]));
    ProperParts(offers);
    ProperOne(offers[0]);
    assert Requested(offers) == [p] + Requested(offers[1..]);
  }

  lemma ProperOne(offer: ClientOffer)
    requires offer.offer.Request?
    ensures Proper([offer]) <==> 0 < |offer.offer.bytes| == offer.offer.length
  {
    assert [offer][0] == offer;
  }

  lemma ProperParts(offers: seq<ClientOffer>)
    requires offers != []
    ensures Proper(offers) <==> Proper([offers[0]]) && Proper(offers[1..])
  {
    assert offers == [offers[0]] + offers[1..];
  }

  lemma {:induction false} GatheredAreSendable(offers: seq<ClientOffer>, room: nat, i: nat)
    requires Gather(offers, room).Payloads? && i < |Gather(offers, room).plds|
    ensures 0 < |Gather(offers, room).plds[i].bytes| < 0x1_0000
  {
    var rest := offers[1..];
    match offers[0].offer {
      case NoPayload => GatheredAreSendable(rest, room, i);
      case Request(_, bytes) =>
        if i > 0 {
          GatheredAreSendable(rest, room - PAYLOAD_HEADER_SIZE - |bytes|, i - 1);
        }
    }
  }

  // When there is no beacon, it is because of some offer before which all were gathered: the exit flag is set for a lock
  // that timed out or a wrong length, and there is an exception for a queue that raises one or a payload that is empty or
  // does not fit behind those before it
  lemma {:induction false} BreaksBecause(offers: seq<ClientOffer>, room: nat) returns (j: nat)
    requires !Gather(offers, room).Payloads?
    ensures j < |offers| && Proper(offers[..j]) && |Body(Requested(offers[..j]))| <= room
    ensures var o, left := offers[j].offer, room - |Body(Requested(offers[..j]))|;
            && (Gather(offers, room).Exits? <==> o.LockTimedOut? || (o.Request? && o.length != |o.bytes|))
            && (Gather(offers, room).Fails? <==>
                  || o.Unreadable?
                  || (o.Request? && o.length == |o.bytes| && (o.bytes == [] || PAYLOAD_HEADER_SIZE + |o.bytes| > left)))
  {
    hide Proper, Body, PayloadBytes;
    j := 0;
    NothingRequested(offers);
    var rest := offers[1..];
    match offers[0].offer {
      case NoPayload =>
        j := BreaksBecause(rest, room);
        OneMoreRequested(offers, j);
        j := j + 1;
      case Request(length, bytes) =>
        if length == |bytes| && bytes != [] && PAYLOAD_HEADER_SIZE + |bytes| <= room {
          j := BreaksBecause(rest, room - PAYLOAD_HEADER_SIZE - |bytes|);
          OneMoreRequested(offers, j);
          j := j + 1;
        }
      case _ =>
    }
  }

  lemma NothingRequested(offers: seq<ClientOffer>)
    ensures Proper(offers[..0]) && |Body(Requested(offers[..0]))| == 0
  {
    assert offers[..0] == [];
  }

  lemma OneMoreRequested(offers: seq<ClientOffer>, j: nat)
    requires j < |offers|
    requires var o := offers[0].offer; o.NoPayload? || (o.Request? && 0 < |o.bytes| == o.length)
    ensures var o := offers[0].offer;
            && (Proper(offers[1..][..j]) ==> Proper(offers[..j + 1]))
            && |Body(Requested(offers[..j + 1]))|
               == |Body(Requested(offers[1..][..j]))| + if o.Request? then PAYLOAD_HEADER_SIZE + |o.bytes| else 0
  {
    hide Body, PayloadBytes;
    var first, rest := offers[0], offers[1..][..j];
    assert offers[..j + 1] == [first] + rest && ([first] + rest)[1..] == rest;
    if first.offer.Request? {
      BodyFirst(Pld(first.protocolId, first.offer.bytes), Requested(rest));
      assert Requested(offers[..j + 1]) == [Pld(first.protocolId, first.offer.bytes)] + Requested(rest);
    } else {
      assert Requested(offers[..j + 1]) == Requested(rest);
    }
  }

  // From the clients of one node to another node: what is gathered is read, whole and in order, whatever padding is added
  // on the way, if and only if no push to a client raises an exception
  lemma GatheredArrives(w: World, own: NodeId, sender: NodeId, network: Uint16, seqno: Uint32, offers: seq<ClientOffer>,
                        maxSize: nat, padding: seq<Byte>)
    requires own != sender && HEADER_SIZE <= maxSize
    requires Proper(offers) && |Body(Requested(offers))| <= maxSize - HEADER_SIZE
    requires 0 < |Requested(offers)| < 0x100 && |Body(Requested(offers))| < 0x1_0000
    ensures Gather(offers, maxSize - HEADER_SIZE) == Payloads(Requested(offers))
    ensures var r := Read(w, own, network, Beacon(sender, network, seqno, Requested(offers)) + padding);
            && (Smooth(w, Requested(offers), 0) <==> r.end == Complete && Plds(r.items) == Requested(offers))
            && Plds(r.items) <= Requested(offers)
  {
    hide Read, Body, Beacon, Smooth;
    var room, ps := maxSize - HEADER_SIZE, Requested(offers);
    GathersAllOrNothing(offers, room);
    forall i | 0 <= i < |ps| ensures 0 < |ps[i].bytes| < 0x1_0000 {
      GatheredAreSendable(offers, room, i);
    }
    BeaconRoundTrip(w, own, sender, network, seqno, ps, padding);
  }

  // And to the clients of that node: while none of their queues has lost a buffer, no push raises an exception, and each
  // client is given exactly what was handed to it, in order
  lemma GatheredReachesClients(ls: map<Uint16, Listener>, lead: Lead, timing: nat -> Timing, own: NodeId, sender: NodeId,
                               network: Uint16, seqno: Uint32, offers: seq<ClientOffer>, maxSize: nat, padding: seq<Byte>)
    requires AllSound(ls) && own != sender && HEADER_SIZE <= maxSize
    requires Proper(offers) && |Body(Requested(offers))| <= maxSize - HEADER_SIZE
    requires 0 < |Requested(offers)| < 0x100 && |Body(Requested(offers))| < 0x1_0000
    ensures Gather(offers, maxSize - HEADER_SIZE) == Payloads(Requested(offers))
    ensures var beacon := Beacon(sender, network, seqno, Requested(offers));
            var (r, ls') := ReadBeacon(ls, lead, timing, own, network, beacon + padding);
            && r.end == Complete && Plds(r.items) == Requested(offers) && AllSound(ls')
            && forall p :: p in ls ==> p in ls' && Account(ls'[p]) == Account(ls[p]) + GivenTo(r.items, p, lead)
  {
    hide ReadBeacon, Body, Beacon, AllSound, Account, GivenTo, OnePerProtocol;
    var room, ps := maxSize - HEADER_SIZE, Requested(offers);
    GathersAllOrNothing(offers, room);
    forall i | 0 <= i < |ps| ensures 0 < |ps[i].bytes| < 0x1_0000 {
      GatheredAreSendable(offers, room, i);
    }
    BeaconReachesClients(ls, lead, timing, own, sender, network, seqno, ps, padding);
  }

  // ---------- Gathering step by step ----------

  ghost function AddAll(ps: seq<Pld>, g: Gathered): Gathered {
    if g.Payloads? then Payloads(ps + g.plds) else g
  }

  lemma AddAllNone(g: Gathered)
    ensures AddAll([], g) == g
  {
  }

  lemma AddAllOne(ps: seq<Pld>, p: Pld, g: Gathered)
    ensures AddAll(ps, AddFirst(p, g)) == AddAll(ps + [p], g)
  {
    if g.Payloads? {
      assert ps + ([p] + g.plds) == (ps + [p]) + g.plds;
    }
  }

  lemma BodyNone()
    ensures Body([]) == []
  {
  }
}
