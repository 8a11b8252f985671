/**
 The beacon of the beaconing protocol as bytes: a fixed header, then payloads, each with its own small header. Numbers
 are in network byte order.
 */
module BpTransmissible {
  import opened Bytes
  import opened NodeIdentifier

  type Uint16 = n: int | 0 <= n < 0x1_0000
  type Uint32 = n: int | 0 <= n < 0x1_0000_0000

  const HEADER_VERSION: Byte := 1
  const MAGIC_NO: Uint16 := 0x497E
  const HEADER_SIZE := 18
  const PAYLOAD_HEADER_SIZE := 4

  datatype Header = Header(
    version: Byte, magicNo: Uint16, senderId: NodeId, networkId: Uint16, length: Uint16, numPayloads: Byte, seqno: Uint32)

  // A payload and the protocol it belongs to
  datatype Pld = Pld(protocolId: Uint16, bytes: seq<Byte>)

  predicate WellFormed(h: Header, own: NodeId, network: Uint16) {
    && h.version == HEADER_VERSION && h.magicNo == MAGIC_NO && h.senderId != own && h.networkId == network
    && h.numPayloads > 0 && h.length > 0
  }

  // ---------- Writing ----------

  function U16(n: Uint16): (s: seq<Byte>)
    ensures |s| == 2
  {
    [n / 0x100, n % 0x100]
  }

  function U32(n: Uint32): (s: seq<Byte>)
    ensures |s| == 4
  {
    U16(n / 0x1_0000) + U16(n % 0x1_0000)
  }

  // Most significant byte first
  lemma NetworkByteOrder(a: Byte, b: Byte, c: Byte, d: Byte)
    ensures U16(0x100 * a + b) == [a, b]
    ensures U32(0x100_0000 * a + 0x1_0000 * b + 0x100 * c + d) == [a, b, c, d]
  {
    var hi, lo := 0x100 * a + b, 0x100 * c + d;
    var n := 0x1_0000 * hi + lo;
    assert n / 0x1_0000 == hi && n % 0x1_0000 == lo;
  }

  function HeaderBytes(h: Header): (s: seq<Byte>)
    ensures |s| == HEADER_SIZE
  {
    [h.version] + U16(h.magicNo) + h.senderId + U16(h.networkId) + U16(h.length) + [h.numPayloads] + U32(h.seqno)
  }

  function PayloadBytes(p: Pld): (s: seq<Byte>)
    ensures |s| == PAYLOAD_HEADER_SIZE + |p.bytes|
  {
    U16(p.protocolId) + U16(|p.bytes| % 0x1_0000) + p.bytes
  }

  function Body(ps: seq<Pld>): seq<Byte> {
    if ps == [] then [] else PayloadBytes(ps[0]) + Body(ps[1..])
  }

  // Length and count are cut to the width of their fields
  function Beacon(sender: NodeId, network: Uint16, seqno: Uint32, ps: seq<Pld>): seq<Byte> {
    HeaderBytes(Header(HEADER_VERSION, MAGIC_NO, sender, network, |Body(ps)| % 0x1_0000, |ps| % 0x100, seqno)) + Body(ps)
  }

  // ---------- Reading ----------

  function ReadU16(s: seq<Byte>): Uint16
    requires |s| >= 2
  {
    s[0] as int * 0x100 + s[1] as int
  }

  function ReadU32(s: seq<Byte>): Uint32
    requires |s| >= 4
  {
    ReadU16(s) as int * 0x1_0000 + ReadU16(s[2..]) as int
  }

  function ReadHeader(s: seq<Byte>): Header
    requires |s| >= HEADER_SIZE
  {
    Header(s[0], ReadU16(s[1..]), s[3..9], ReadU16(s[9..]), ReadU16(s[11..]), s[13], ReadU32(s[14..]))
  }

  lemma U16RoundTrip(n: Uint16, s: seq<Byte>)
    requires |s| >= 2 && s[..2] == U16(n)
    ensures ReadU16(s) == n
  {
    assert s[0] == s[..2][0] && s[1] == s[..2][1];
  }

  lemma ReadU16Bytes(s: seq<Byte>)
    requires |s| >= 2
    ensures U16(ReadU16(s)) == s[..2]
  {
  }

  lemma U32RoundTrip(n: Uint32, s: seq<Byte>)
    requires |s| >= 4 && s[..4] == U32(n)
    ensures ReadU32(s) == n
  {
    assert s[..2] == s[..4][..2] == U16(n / 0x1_0000);
    assert s[2..][..2] == s[..4][2..] == U16(n % 0x1_0000);
    U16RoundTrip(n / 0x1_0000, s);
    U16RoundTrip(n % 0x1_0000, s[2..]);
  }

  lemma HeaderParts(h: Header, s: seq<Byte>)
    requires |s| >= HEADER_SIZE && s[..HEADER_SIZE] == HeaderBytes(h)
    ensures s[0] == h.version && s[1..][..2] == U16(h.magicNo) && s[3..9] == h.senderId
    ensures s[9..][..2] == U16(h.networkId) && s[11..][..2] == U16(h.length) && s[13] == h.numPayloads
    ensures s[14..][..4] == U32(h.seqno)
  {
    hide U16, U32;
    var t := s[..HEADER_SIZE];
    assert t[0] == s[0] && t[13] == s[13];
    PartOf(s, HEADER_SIZE, 1, 3);
    PartOf(s, HEADER_SIZE, 3, 9);
    PartOf(s, HEADER_SIZE, 9, 11);
    PartOf(s, HEADER_SIZE, 11, 13);
    PartOf(s, HEADER_SIZE, 14, 18);
  }

  lemma PartOf(s: seq<Byte>, n: nat, from: nat, to: nat)
    requires from <= to <= n <= |s|
    ensures s[from..][..to - from] == s[from..to] == s[..n][from..to]
  {
  }

  lemma HeaderRoundTrip(h: Header, s: seq<Byte>)
    requires |s| >= HEADER_SIZE && s[..HEADER_SIZE] == HeaderBytes(h)
    ensures ReadHeader(s) == h
  {
    hide U16, U32, ReadU16, ReadU32, HeaderBytes;
    HeaderParts(h, s);
    U16RoundTrip(h.magicNo, s[1..]);
    U16RoundTrip(h.networkId, s[9..]);
    U16RoundTrip(h.length, s[11..]);
    U32RoundTrip(h.seqno, s[14..]);
  }

  lemma Associates(a: seq<Byte>, b: seq<Byte>, c: seq<Byte>)
    ensures (a + b) + c == a + (b + c)
  {
  }

  lemma BodyFrom(ps: seq<Pld>)
    requires ps != []
    ensures Body(ps) == PayloadBytes(ps[0]) + Body(ps[1..])
  {
  }

  lemma {:induction false} BodyConcat(ps: seq<Pld>, qs: seq<Pld>)
    ensures Body(ps + qs) == Body(ps) + Body(qs)
  {
    hide PayloadBytes;
    if ps == [] {
      assert ps + qs == qs;
    } else {
      BodyConcat(ps[1..], qs);
      assert (ps + qs)[1..] == ps[1..] + qs;
      assert (ps + qs)[0] == ps[0];
      BodyFrom(ps + qs);
      BodyFrom(ps);
      hide Body;
      Associates(PayloadBytes(ps[0]), Body(ps[1..]), Body(qs));
    }
  }

  lemma BodySnoc(ps: seq<Pld>, p: Pld)
    ensures Body(ps + [p]) == Body(ps) + PayloadBytes(p)
  {
    BodyConcat(ps, [p]);
    assert Body([p]) == PayloadBytes(p) + Body([]);
  }
}
