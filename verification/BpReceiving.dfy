/**
 What the receiver of the beaconing protocol makes of a sequence of bytes.
 */
module BpReceiving {
  import opened Bytes
  import opened BpTransmissible
  import opened NodeIdentifier

  // The payload that was found, and whether it was handed to its client; the others are skipped
  datatype Item = Item(pld: Pld, handed: bool)

  datatype End =
    | TooShort        // not even a header and a byte
    | NotForUs        // the header is not well-formed, or for another network, or our own
    | LengthTooLarge  // the exit flag is set
    | Complete
    | CutInHeader     // not enough bytes for a payload header
    | CutInPayload    // not enough bytes for a payload
    | Raised          // an exception: of a client's queue, or because the area refuses to read an empty payload

  datatype Reading = Reading(items: seq<Item>, end: End)

  // What becomes of a push to a client's queue
  datatype Fate = Goes | TimesOut | Breaks

  // Clients with the sizes of their indication buffers, the size of the structure that precedes an indicated payload,
  // and the fates of the pushes, counted by payload
  datatype World = World(clients: map<Uint16, nat>, indicationSize: nat, fate: nat -> Fate)

  predicate Reaches(w: World, protocolId: Uint16, length: nat) {
    protocolId in w.clients && length + w.indicationSize <= w.clients[protocolId]
  }

  predicate Handed(w: World, protocolId: Uint16, length: nat, i: nat) {
    Reaches(w, protocolId, length) && w.fate(i).Goes? && length > 0
  }

  predicate Raises(w: World, protocolId: Uint16, length: nat, i: nat) {
    Reaches(w, protocolId, length) && (w.fate(i).Breaks? || (w.fate(i).Goes? && length == 0))
  }

  function Prepend(item: Item, r: Reading): Reading {
    r.(items := [item] + r.items)
  }

  // The i-th and later payloads of n
  function ReadPayloads(w: World, s: seq<Byte>, n: nat, i: nat): Reading
    decreases n - i
  {
    if i >= n then Reading([], Complete)
    else if |s| < PAYLOAD_HEADER_SIZE then Reading([], CutInHeader)
    else
      var protocolId, length := ReadU16(s), ReadU16(s[2..]);
      var rest := s[PAYLOAD_HEADER_SIZE..];
      if |rest| < length then Reading([], CutInPayload)
      else
        if Raises(w, protocolId, length, i) then Reading([], Raised)
        else
          Prepend(Item(Pld(protocolId, rest[..length]), Handed(w, protocolId, length, i)),
                  ReadPayloads(w, rest[length..], n, i + 1))
  }

  function Read(w: World, own: NodeId, network: Uint16, s: seq<Byte>): Reading {
    if |s| <= HEADER_SIZE then Reading([], TooShort)
    else
      var h := ReadHeader(s);
      if !WellFormed(h, own, network) then Reading([], NotForUs)
      else if h.length > |s| - HEADER_SIZE then Reading([], LengthTooLarge)
      else ReadPayloads(w, s[HEADER_SIZE..HEADER_SIZE + h.length], h.numPayloads, 0)
  }

  lemma {:induction false} EndsWithinBody(w: World, s: seq<Byte>, n: nat, i: nat)
    ensures var e := ReadPayloads(w, s, n, i).end; e.Complete? || e.CutInHeader? || e.CutInPayload? || e.Raised?
    decreases n - i
  {
    hide ReadU16, Handed, Raises;
    if i < n && |s| >= PAYLOAD_HEADER_SIZE && ReadU16(s[2..]) <= |s| - PAYLOAD_HEADER_SIZE {
      EndsWithinBody(w, s[PAYLOAD_HEADER_SIZE..][ReadU16(s[2..])..], n, i + 1);
    }
  }

  function Plds(items: seq<Item>): (ps: seq<Pld>)
    ensures |ps| == |items|
  {
    seq(|items|, i requires 0 <= i < |items| => items[i].pld)
  }

  // ---------- Reading undoes writing ----------

  // The lengths of the payloads, none of them empty, and of all of them together fit their 16-bit fields
  predicate LengthsFit(ps: seq<Pld>) {
    |Body(ps)| < 0x1_0000 && forall i :: 0 <= i < |ps| ==> 0 < |ps[i].bytes| < 0x1_0000
  }

  predicate Sendable(ps: seq<Pld>) {
    0 < |ps| < 0x100 && LengthsFit(ps)
  }

  lemma PldParts(p: Pld, s: seq<Byte>, rest: seq<Byte>)
    requires |p.bytes| < 0x1_0000 && s == PayloadBytes(p) + rest
    ensures ReadU16(s) == p.protocolId && ReadU16(s[2..]) == |p.bytes|
    ensures s[PAYLOAD_HEADER_SIZE..][..|p.bytes|] == p.bytes && s[PAYLOAD_HEADER_SIZE..][|p.bytes|..] == rest
  {
    hide U16, ReadU16;
    assert s[..2] == U16(p.protocolId);
    assert s[2..][..2] == U16(|p.bytes|);
    U16RoundTrip(p.protocolId, s);
    U16RoundTrip(|p.bytes|, s[2..]);
    assert s[PAYLOAD_HEADER_SIZE..] == p.bytes + rest;
  }

  // No push of the payloads that are read raises an exception
  ghost predicate Smooth(w: World, ps: seq<Pld>, i: nat) {
    forall j :: 0 <= j < |ps| ==> !Raises(w, ps[j].protocolId, |ps[j].bytes|, i + j)
  }

  lemma SmoothParts(w: World, ps: seq<Pld>, i: nat)
    requires ps != []
    ensures Smooth(w, ps, i) <==>
            !Raises(w, ps[0].protocolId, |ps[0].bytes|, i) && Smooth(w, ps[1..], i + 1)
  {
    hide Raises;
    if Smooth(w, ps, i) {
      forall j | 0 <= j < |ps[1..]|
        ensures !Raises(w, ps[1..][j].protocolId, |ps[1..][j].bytes|, i + 1 + j)
      {
        assert ps[1..][j] == ps[j + 1] && i + 1 + j == i + (j + 1);
      }
    }
    if !Raises(w, ps[0].protocolId, |ps[0].bytes|, i) && Smooth(w, ps[1..], i + 1) {
      forall j | 0 <= j < |ps| ensures !Raises(w, ps[j].protocolId, |ps[j].bytes|, i + j) {
        if j > 0 {
          assert ps[j] == ps[1..][j - 1] && i + j == i + 1 + (j - 1);
        }
      }
    }
  }

  // As many payloads are read as are announced, which may be fewer than there are, unless a push raises an exception
  lemma {:induction false} BodyRoundTrip(w: World, ps: seq<Pld>, n: nat, i: nat)
    requires i <= n <= i + |ps| && forall j :: 0 <= j < |ps| ==> 0 < |ps[j].bytes| < 0x1_0000
    ensures var r := ReadPayloads(w, Body(ps), n, i);
            && (r.end == Complete || r.end == Raised)
            && (r.end == Complete <==> Smooth(w, ps[..n - i], i))
            && |r.items| <= n - i && Plds(r.items) == ps[..|r.items|] && (r.end == Complete <==> |r.items| == n - i)
            && (forall j :: 0 <= j < |r.items| ==>
                  (r.items[j].handed <==> Handed(w, ps[j].protocolId, |ps[j].bytes|, i + j)))
    decreases |ps|
  {
    hide PayloadBytes, ReadU16, Handed, Raises, ReadPayloads, Plds, Body, Smooth;
    if i < n {
      BodyRoundTrip(w, ps[1..], n, i + 1);
      ReadFirst(w, ps, n, i);
      var item, r1 := Item(ps[0], Handed(w, ps[0].protocolId, |ps[0].bytes|, i)), ReadPayloads(w, Body(ps[1..]), n, i + 1);
      PldsPrepend(item, r1.items);
      SmoothParts(w, ps[..n - i], i);
      assert ps[..n - i][1..] == ps[1..][..n - i - 1];
      assert ps[..|r1.items| + 1] == [ps[0]] + ps[1..][..|r1.items|];
      forall j | 0 <= j < |r1.items| + 1
        ensures ([item] + r1.items)[j].handed <==> Handed(w, ps[j].protocolId, |ps[j].bytes|, i + j)
      {
        if j > 0 {
          assert ps[j] == ps[1..][j - 1] && ([item] + r1.items)[j] == r1.items[j - 1];
        }
      }
    } else {
      NothingIsSmooth(w, i);
    }
    ReadsNothing(w, Body(ps), n, i);
  }

  lemma ReadsNothing(w: World, s: seq<Byte>, n: nat, i: nat)
    ensures i >= n ==> ReadPayloads(w, s, n, i) == Reading([], Complete)
    ensures Plds([]) == []
  {
  }

  lemma ReadFirst(w: World, ps: seq<Pld>, n: nat, i: nat)
    requires i < n && ps != [] && 0 < |ps[0].bytes| < 0x1_0000
    ensures ReadPayloads(w, Body(ps), n, i) ==
            if Raises(w, ps[0].protocolId, |ps[0].bytes|, i) then Reading([], Raised)
            else
              Prepend(Item(ps[0], Handed(w, ps[0].protocolId, |ps[0].bytes|, i)),
                      ReadPayloads(w, Body(ps[1..]), n, i + 1))
  {
    hide PayloadBytes, ReadU16, Handed, Raises;
    PldParts(ps[0], Body(ps), Body(ps[1..]));
  }

  lemma {:induction false} BodyIsLong(ps: seq<Pld>)
    ensures |Body(ps)| >= PAYLOAD_HEADER_SIZE * |ps|
  {
    if ps != [] {
      BodyIsLong(ps[1..]);
    }
  }

  // The count field has eight bits: of a beacon of any number of payloads, followed by any padding, another node of the
  // same network reads those up to the remainder by 256, in their order, up to the first push that raises an exception;
  // which of them are handed over depends on their own clients and on the pushes only
  lemma CountedRoundTrip(w: World, own: NodeId, sender: NodeId, network: Uint16, seqno: Uint32, ps: seq<Pld>,
                         padding: seq<Byte>)
    requires LengthsFit(ps) && own != sender
    ensures var r, n := Read(w, own, network, Beacon(sender, network, seqno, ps) + padding), |ps| % 0x100;
            && |r.items| <= n && Plds(r.items) == ps[..|r.items|] && (|r.items| == n <==> Smooth(w, ps[..n], 0))
            && (r.end == Raised <==> !Smooth(w, ps[..n], 0))
            && (r.end == Complete <==> n > 0 && Smooth(w, ps[..n], 0))
            && (r.end != Raised ==> (Plds(r.items) == ps <==> |ps| < 0x100))
            && (forall j :: 0 <= j < |r.items| ==>
                  (r.items[j].handed <==> Handed(w, ps[j].protocolId, |ps[j].bytes|, j)))
  {
    hide HeaderBytes, ReadHeader, Body, ReadPayloads, Handed, Plds, Smooth;
    var s := Beacon(sender, network, seqno, ps) + padding;
    var h := Header(HEADER_VERSION, MAGIC_NO, sender, network, |Body(ps)|, |ps| % 0x100, seqno);
    BodyIsLong(ps);
    assert s == HeaderBytes(h) + (Body(ps) + padding);
    assert s[..HEADER_SIZE] == HeaderBytes(h);
    HeaderRoundTrip(h, s);
    assert s[HEADER_SIZE..HEADER_SIZE + h.length] == Body(ps);
    BodyRoundTrip(w, ps, |ps| % 0x100, 0);
    assert |ps| < 0x100 ==> ps[..|ps| % 0x100] == ps;
    NothingIsSmooth(w, 0);
  }

  lemma NothingIsSmooth(w: World, i: nat)
    ensures Smooth(w, [], i) && Plds([]) == []
  {
  }

  // A beacon, followed by any padding, is read by another node of the same network as exactly the payloads it was made
  // of, in their order, if and only if no push raises an exception
  lemma BeaconRoundTrip(w: World, own: NodeId, sender: NodeId, network: Uint16, seqno: Uint32, ps: seq<Pld>,
                        padding: seq<Byte>)
    requires Sendable(ps) && own != sender
    ensures var r := Read(w, own, network, Beacon(sender, network, seqno, ps) + padding);
            && (Smooth(w, ps, 0) <==> r.end == Complete && Plds(r.items) == ps)
            && (!Smooth(w, ps, 0) ==> r.end == Raised && Plds(r.items) < ps)
            && forall j :: 0 <= j < |r.items| ==>
                 (r.items[j].handed <==> Handed(w, ps[j].protocolId, |ps[j].bytes|, j))
  {
    hide Read, Beacon, Handed, Smooth, LengthsFit, Plds;
    CountedRoundTrip(w, own, sender, network, seqno, ps, padding);
    assert ps[..|ps|] == ps;
  }

  // The count field has eight bits: a beacon of 256 payloads says it has none and is dropped by everyone
  lemma FullCountIsDropped(w: World, own: NodeId, sender: NodeId, network: Uint16, seqno: Uint32, ps: seq<Pld>)
    requires ps != [] && |ps| % 0x100 == 0
    ensures Read(w, own, network, Beacon(sender, network, seqno, ps)) == Reading([], NotForUs)
  {
    hide HeaderBytes, ReadHeader, Body, ReadPayloads, Handed;
    var s := Beacon(sender, network, seqno, ps);
    var h := Header(HEADER_VERSION, MAGIC_NO, sender, network, |Body(ps)| % 0x1_0000, 0, seqno);
    BodyIsLong(ps);
    assert s[..HEADER_SIZE] == HeaderBytes(h);
    HeaderRoundTrip(h, s);
  }

  // ---------- Headers ----------

  // What the header of a beacon says
  lemma BeaconHeader(sender: NodeId, network: Uint16, seqno: Uint32, ps: seq<Pld>, padding: seq<Byte>)
    requires |ps| < 0x100 && |Body(ps)| < 0x1_0000
    ensures var s := Beacon(sender, network, seqno, ps) + padding;
            |s| >= HEADER_SIZE && ReadHeader(s) == Header(HEADER_VERSION, MAGIC_NO, sender, network, |Body(ps)|, |ps|, seqno)
  {
    hide HeaderBytes, ReadHeader, Body;
    var s := Beacon(sender, network, seqno, ps) + padding;
    var h := Header(HEADER_VERSION, MAGIC_NO, sender, network, |Body(ps)|, |ps|, seqno);
    assert s[..HEADER_SIZE] == HeaderBytes(h);
    HeaderRoundTrip(h, s);
  }

  // What becomes of a header followed by something, field by field: another version, magic number or network, the
  // receiver's own identifier, or no payloads, make it nobody's business, and a length beyond the end is fatal
  lemma HeaderDecides(w: World, own: NodeId, network: Uint16, h: Header, rest: seq<Byte>)
    requires rest != []
    ensures var r := Read(w, own, network, HeaderBytes(h) + rest);
            if h.version != HEADER_VERSION || h.magicNo != MAGIC_NO || h.senderId == own || h.networkId != network
               || h.numPayloads == 0 || h.length == 0
            then r == Reading([], NotForUs)
            else if h.length > |rest| then r == Reading([], LengthTooLarge)
            else r == ReadPayloads(w, rest[..h.length], h.numPayloads, 0) && r.end != NotForUs && r.end != LengthTooLarge
  {
    hide HeaderBytes, ReadHeader, ReadPayloads;
    var s := HeaderBytes(h) + rest;
    assert s[..HEADER_SIZE] == HeaderBytes(h);
    HeaderRoundTrip(h, s);
    if h.length <= |rest| {
      assert s[HEADER_SIZE..HEADER_SIZE + h.length] == rest[..h.length];
      EndsWithinBody(w, rest[..h.length], h.numPayloads, 0);
    }
  }

  // ---------- Any bytes ----------

  // What is found never depends on who receives it, or on which pushes time out: a payload that is dropped does not
  // shift the ones after it. Only an exception ends one reading earlier.
  lemma {:induction false} DroppingNeverShifts(w: World, v: World, s: seq<Byte>, n: nat, i: nat)
    ensures var r, q := ReadPayloads(w, s, n, i), ReadPayloads(v, s, n, i);
            && (r.end != Raised && q.end != Raised ==> Plds(r.items) == Plds(q.items) && r.end == q.end)
            && (r.end == Raised && q.end != Raised ==> Plds(r.items) <= Plds(q.items))
    decreases n - i
  {
    hide ReadU16, Handed, Raises;
    if i < n && |s| >= PAYLOAD_HEADER_SIZE {
      var protocolId, length := ReadU16(s), ReadU16(s[2..]);
      var rest := s[PAYLOAD_HEADER_SIZE..];
      if length <= |rest| {
        DroppingNeverShifts(w, v, rest[length..], n, i + 1);
        var p := Pld(protocolId, rest[..length]);
        var r, q := ReadPayloads(w, rest[length..], n, i + 1), ReadPayloads(v, rest[length..], n, i + 1);
        PldsPrepend(Item(p, Handed(w, protocolId, length, i)), r.items);
        PldsPrepend(Item(p, Handed(v, protocolId, length, i)), q.items);
      }
    }
  }

  lemma PldsPrepend(item: Item, items: seq<Item>)
    ensures Plds([item] + items) == [item.pld] + Plds(items)
  {
  }

  lemma Rewritten(s: seq<Byte>, length: Uint16)
    requires |s| >= PAYLOAD_HEADER_SIZE && length == ReadU16(s[2..]) && length <= |s| - PAYLOAD_HEADER_SIZE
    ensures PayloadBytes(Pld(ReadU16(s), s[PAYLOAD_HEADER_SIZE..][..length])) + s[PAYLOAD_HEADER_SIZE..][length..] == s
  {
    hide U16, ReadU16;
    ReadU16Bytes(s);
    ReadU16Bytes(s[2..]);
    var rest := s[PAYLOAD_HEADER_SIZE..];
    assert s == s[..2] + s[2..][..2] + rest && rest == rest[..length] + rest[length..];
  }

  lemma PrefixAfter(a: seq<Byte>, b: seq<Byte>, c: seq<Byte>)
    requires b <= c
    ensures a + b <= a + c
  {
  }

  // Whatever the bytes, the payloads that are found are the ones whose bytes stand there: written again, they are a
  // prefix of what was read
  lemma {:induction false} FoundIsThere(w: World, s: seq<Byte>, n: nat, i: nat)
    ensures Body(Plds(ReadPayloads(w, s, n, i).items)) <= s
    decreases n - i
  {
    hide PayloadBytes, ReadU16, Handed, Raises, Plds;
    var r := ReadPayloads(w, s, n, i);
    if r.items != [] {
      var protocolId, length := ReadU16(s), ReadU16(s[2..]);
      var rest := s[PAYLOAD_HEADER_SIZE..];
      var p, r1 := Pld(protocolId, rest[..length]), ReadPayloads(w, rest[length..], n, i + 1);
      FoundIsThere(w, rest[length..], n, i + 1);
      PldsPrepend(Item(p, Handed(w, protocolId, length, i)), r1.items);
      BodyFirst(p, Plds(r1.items));
      Rewritten(s, length);
      PrefixAfter(PayloadBytes(p), Body(Plds(r1.items)), rest[length..]);
    } else {
      assert Plds([]) == [];
    }
  }

  lemma BodyFirst(p: Pld, ps: seq<Pld>)
    ensures Body([p] + ps) == PayloadBytes(p) + Body(ps)
  {
    assert ([p] + ps)[1..] == ps;
  }

  // At most as many payloads as the header says, and no more bytes than it says, are taken
  lemma {:induction false} NoMoreThanAnnounced(w: World, s: seq<Byte>, n: nat, i: nat)
    requires i <= n
    ensures |ReadPayloads(w, s, n, i).items| <= n - i
    ensures ReadPayloads(w, s, n, i).end == Complete <==> |ReadPayloads(w, s, n, i).items| == n - i
    decreases n - i
  {
    hide ReadU16, Handed, Raises;
    if i < n && |s| >= PAYLOAD_HEADER_SIZE && ReadU16(s[2..]) <= |s| - PAYLOAD_HEADER_SIZE {
      NoMoreThanAnnounced(w, s[PAYLOAD_HEADER_SIZE..][ReadU16(s[2..])..], n, i + 1);
    }
  }
}
