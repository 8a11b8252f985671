/**
 What becomes of the clients' queues of indications while the payloads of a beacon are handed over: each push waits until
 the client has taken everything, for a short time only.
 */
module BpIndicating {
  import opened Bytes
  import opened BpReceiving
  import opened BpTransmissible
  import opened FiniteQueueSpec
  import opened NodeIdentifier

  // A client: its queue of indications, and what it has taken from there so far
  datatype Listener = Listener(shape: Shape, store: Snapshot, taken: seq<Payload>)

  // The circumstances of a push: how often the client retrieves something before it, whether the mutex is acquired in
  // time, and how often the client retrieves something while the push waits
  datatype Timing = Timing(before: nat, locked: bool, during: nat)

  ghost predicate OfOneSize(f: Uint16 -> seq<Byte>) {
    forall a: Uint16, b: Uint16 :: |f(a)| == |f(b)|
  }

  // The bytes of the structure that precedes an indicated payload and says its length
  type Lead = f: Uint16 -> seq<Byte> | OfOneSize(f) ghost witness _ => []

  function Indication(lead: Lead, bytes: seq<Byte>): (p: Payload)
    ensures |p| == |lead(0)| + |bytes| && p[|lead(0)|..] == bytes
    ensures |bytes| < 0x1_0000 ==> p[..|lead(0)|] == lead(|bytes|)
  {
    lead(|bytes| % 0x1_0000) + bytes
  }

  // ---------- One push ----------

  function Takes(l: Listener, n: nat): Listener
    decreases n
  {
    if n == 0 then l
    else
      var (store, answer) := TakeNoWait(l.store, First);
      Takes(l.(store := store, taken := l.taken + answer.payloads), n - 1)
  }

  // The handler reads the payload from the area, which raises an exception for an empty one
  function Push(l: Listener, lead: Lead, bytes: seq<Byte>): (Listener, Outcome)
  {
    var (store, outcome) :=
      if bytes == [] then PushRaising(l.store) else PushFree(l.shape, l.store, Indication(lead, bytes));
    (l.(store := store), outcome)
  }

  function Indicate(l: Listener, lead: Lead, bytes: seq<Byte>, t: Timing): (Listener, Outcome)
  {
    var l0 := Takes(l, t.before);
    if !t.locked then (l0, TimedOut)
    else if !l0.store.hasData then Push(l0, lead, bytes)
    else
      var l1 := Takes(l0, t.during);
      if l1.store.hasData then (l1, TimedOut) else Push(l1, lead, bytes)
  }

  function FateOf(outcome: Outcome): Fate {
    if outcome.Done? then Goes else if outcome.TimedOut? then TimesOut else Breaks
  }

  // ---------- The payloads of a beacon ----------

  predicate Hears(ls: map<Uint16, Listener>, lead: Lead, protocolId: Uint16, length: nat) {
    protocolId in ls && length + |lead(0)| <= ls[protocolId].shape.size
  }

  function ReadInto(ls: map<Uint16, Listener>, lead: Lead, timing: nat -> Timing, s: seq<Byte>, n: nat, i: nat)
    : (Reading, map<Uint16, Listener>)
    decreases n - i
  {
    if i >= n then (Reading([], Complete), ls)
    else if |s| < PAYLOAD_HEADER_SIZE then (Reading([], CutInHeader), ls)
    else
      var protocolId, length := ReadU16(s), ReadU16(s[2..]);
      var rest := s[PAYLOAD_HEADER_SIZE..];
      if |rest| < length then (Reading([], CutInPayload), ls)
      else
        var (ls', outcome) := Served(ls, lead, protocolId, rest[..length], timing(i));
        if FateOf(outcome).Breaks? then (Reading([], Raised), ls')
        else
          var (r, ls'') := ReadInto(ls', lead, timing, rest[length..], n, i + 1);
          (Prepend(Item(Pld(protocolId, rest[..length]), outcome.Done?), r), ls'')
  }

  // The turn of one payload; skipping it is like a time-out
  function Served(ls: map<Uint16, Listener>, lead: Lead, protocolId: Uint16, bytes: seq<Byte>, t: Timing)
    : (map<Uint16, Listener>, Outcome)
  {
    if Hears(ls, lead, protocolId, |bytes|) then
      var (l, outcome) := Indicate(ls[protocolId], lead, bytes, t);
      (ls[protocolId := l], outcome)
    else
      (ls, TimedOut)
  }

  function ReadBeacon(ls: map<Uint16, Listener>, lead: Lead, timing: nat -> Timing, own: NodeId, network: Uint16,
                      s: seq<Byte>): (Reading, map<Uint16, Listener>)
  {
    if |s| <= HEADER_SIZE then (Reading([], TooShort), ls)
    else
      var h := ReadHeader(s);
      if !WellFormed(h, own, network) then (Reading([], NotForUs), ls)
      else if h.length > |s| - HEADER_SIZE then (Reading([], LengthTooLarge), ls)
      else ReadInto(ls, lead, timing, s[HEADER_SIZE..HEADER_SIZE + h.length], h.numPayloads, 0)
  }

  // ---------- What is read ----------

  function Sizes(ls: map<Uint16, Listener>): map<Uint16, nat> {
    map p | p in ls :: ls[p].shape.size
  }

  lemma {:induction false} TakesKeeps(l: Listener, n: nat)
    ensures var m := Takes(l, n);
            && m.shape == l.shape && m.taken + m.store.stored == l.taken + l.store.stored
            && (Sound(l) ==> Sound(m))
            && (Sound(l) ==> m.store.stored == if n <= |l.store.stored| then l.store.stored[n..] else [])
    decreases n
  {
    if n > 0 {
      var (store, answer) := TakeNoWait(l.store, First);
      var next := l.(store := store, taken := l.taken + answer.payloads);
      TakesKeeps(next, n - 1);
      TakesOne(l);
      assert Takes(l, n) == Takes(next, n - 1);
      if Sound(l) && l.store.stored != [] && n <= |l.store.stored| {
        assert l.store.stored[1..][n - 1..] == l.store.stored[n..];
      }
    }
  }

  lemma TakesOne(l: Listener)
    ensures var (store, answer) := TakeNoWait(l.store, First);
            var next := l.(store := store, taken := l.taken + answer.payloads);
            && next.taken + next.store.stored == l.taken + l.store.stored
            && (Sound(l) ==> Sound(next))
            && (Sound(l) && l.store.stored != [] ==> next.store.stored == l.store.stored[1..])
            && (Sound(l) && l.store.stored == [] ==> next == l)
  {
    if l.store.hasData && l.store.stored != [] {
      assert l.store.stored == l.store.stored[..1] + l.store.stored[1..];
      assert (l.taken + l.store.stored[..1]) + l.store.stored[1..] == l.taken + l.store.stored;
    } else {
      assert l.taken + [] == l.taken;
    }
  }

  // No buffer is lost, and the flag says whether there is data
  ghost predicate Sound(l: Listener) {
    Within(l.shape, l.store) && AllThere(l.shape, l.store) && FlagOk(l.store)
  }

  ghost predicate AllSound(ls: map<Uint16, Listener>) {
    forall p :: p in ls ==> Sound(ls[p])
  }

  // All a client has been given: what it has taken and what is stored for it
  function Account(l: Listener): seq<Payload> {
    l.taken + l.store.stored
  }

  lemma PushKeeps(l: Listener, lead: Lead, bytes: seq<Byte>)
    ensures var (m, outcome) := Push(l, lead, bytes);
            && m.shape == l.shape && m.taken == l.taken && !outcome.TimedOut?
            && m.store.stored == l.store.stored + (if outcome.Done? then [Indication(lead, bytes)] else [])
            && (outcome.Done? ==> bytes != [])
            && (Sound(l) && l.store.stored == [] && bytes != [] && |bytes| + |lead(0)| <= l.shape.size ==>
                  outcome.Done? && Sound(m))
  {
  }

  // What one push gives a client, and when it does so: exactly when the mutex is acquired in time and the client has taken
  // everything that was stored before the time is up
  lemma IndicateExactly(l: Listener, lead: Lead, bytes: seq<Byte>, t: Timing)
    ensures var (m, outcome) := Indicate(l, lead, bytes, t);
            && m.shape == l.shape
            && Account(m) == Account(l) + (if outcome.Done? then [Indication(lead, bytes)] else [])
            && (outcome.Done? ==> bytes != [])
            && (Sound(l) && bytes != [] && |bytes| + |lead(0)| <= l.shape.size ==>
                  && Sound(m) && (outcome.Done? || outcome.TimedOut?)
                  && (outcome.Done? <==> t.locked && |l.store.stored| <= t.before + t.during))
            && (outcome.TimedOut? && Sound(l) ==> Sound(m))
  {
    hide Takes, Push, Sound, Account, Indication;
    TakesAccount(l, t.before);
    var l0 := Takes(l, t.before);
    TakesAccount(l0, t.during);
    var l1 := Takes(l0, t.during);
    PushAccount(l0, lead, bytes);
    PushAccount(l1, lead, bytes);
    SoundFlag(l0);
    SoundFlag(l1);
    assert Account(l) + [] == Account(l);
  }

  lemma TakesAccount(l: Listener, n: nat)
    ensures var m := Takes(l, n);
            && m.shape == l.shape && Account(m) == Account(l)
            && (Sound(l) ==> Sound(m) && (m.store.stored == [] <==> |l.store.stored| <= n))
            && (Sound(l) ==> |m.store.stored| == if n <= |l.store.stored| then |l.store.stored| - n else 0)
  {
    hide Takes, Sound;
    TakesKeeps(l, n);
  }

  lemma PushAccount(l: Listener, lead: Lead, bytes: seq<Byte>)
    ensures var (m, outcome) := Push(l, lead, bytes);
            && m.shape == l.shape && !outcome.TimedOut? && (outcome.Done? ==> bytes != [])
            && Account(m) == Account(l) + (if outcome.Done? then [Indication(lead, bytes)] else [])
            && (Sound(l) && l.store.stored == [] && bytes != [] && |bytes| + |lead(0)| <= l.shape.size ==>
                  outcome.Done? && Sound(m))
  {
    hide Push, Sound, Indication;
    PushKeeps(l, lead, bytes);
    var (m, outcome) := Push(l, lead, bytes);
    AccountAppend(l, l, if outcome.Done? then [Indication(lead, bytes)] else []);
  }

  lemma SoundFlag(l: Listener)
    ensures Sound(l) ==> (l.store.hasData <==> l.store.stored != [])
  {
  }

  lemma AccountAppend(l: Listener, m: Listener, ps: seq<Payload>)
    ensures Account(m) + ps == m.taken + (m.store.stored + ps)
  {
  }

  // Only the fates of later pushes matter for later payloads
  lemma {:induction false} FatesFrom(w: World, v: World, s: seq<Byte>, n: nat, i: nat)
    requires w.clients == v.clients && w.indicationSize == v.indicationSize
    requires forall j: nat :: j >= i ==> w.fate(j) == v.fate(j)
    ensures ReadPayloads(w, s, n, i) == ReadPayloads(v, s, n, i)
    decreases n - i
  {
    hide ReadU16;
    if i < n && |s| >= PAYLOAD_HEADER_SIZE && ReadU16(s[2..]) <= |s| - PAYLOAD_HEADER_SIZE {
      FatesFrom(w, v, s[PAYLOAD_HEADER_SIZE..][ReadU16(s[2..])..], n, i + 1);
    }
  }

  lemma ServedKeepsSizes(ls: map<Uint16, Listener>, lead: Lead, protocolId: Uint16, bytes: seq<Byte>, t: Timing)
    ensures var (ls', outcome) := Served(ls, lead, protocolId, bytes, t);
            && ls'.Keys == ls.Keys && Sizes(ls') == Sizes(ls) && (outcome.Done? ==> bytes != [])
  {
    hide Indicate;
    if Hears(ls, lead, protocolId, |bytes|) {
      IndicateExactly(ls[protocolId], lead, bytes, t);
    }
  }

  // With the clients' queues, a sequence of bytes is read as the receiver reads it for some fates of its pushes
  lemma {:induction false} ReadsForSomeFates(ls: map<Uint16, Listener>, lead: Lead, timing: nat -> Timing, s: seq<Byte>,
                                             n: nat, i: nat) returns (w: World)
    ensures w.clients == Sizes(ls) && w.indicationSize == |lead(0)|
    ensures ReadInto(ls, lead, timing, s, n, i).0 == ReadPayloads(w, s, n, i)
    decreases n - i
  {
    hide ReadU16, Served, Sizes;
    w := World(Sizes(ls), |lead(0)|, (_: nat) => TimesOut);
    if i < n && |s| >= PAYLOAD_HEADER_SIZE && ReadU16(s[2..]) <= |s| - PAYLOAD_HEADER_SIZE {
      var protocolId, length, rest := ReadU16(s), ReadU16(s[2..]), s[PAYLOAD_HEADER_SIZE..];
      var (ls', outcome) := Served(ls, lead, protocolId, rest[..length], timing(i));
      var v := ReadsForSomeFates(ls', lead, timing, rest[length..], n, i + 1);
      w := World(Sizes(ls), |lead(0)|, (j: nat) => if j == i then FateOf(outcome) else v.fate(j));
      ServedKeepsSizes(ls, lead, protocolId, rest[..length], timing(i));
      FatesFrom(w, v, rest[length..], n, i + 1);
      ServedAsFated(ls, lead, protocolId, rest[..length], timing(i), w, i);
    }
  }

  lemma ServedAsFated(ls: map<Uint16, Listener>, lead: Lead, protocolId: Uint16, bytes: seq<Byte>, t: Timing, w: World, i: nat)
    requires w.clients == Sizes(ls) && w.indicationSize == |lead(0)|
    requires w.fate(i) == FateOf(Served(ls, lead, protocolId, bytes, t).1)
    ensures var outcome := Served(ls, lead, protocolId, bytes, t).1;
            && (FateOf(outcome).Breaks? <==> Raises(w, protocolId, |bytes|, i))
            && (outcome.Done? <==> Handed(w, protocolId, |bytes|, i))
  {
    hide Indicate;
    ServedKeepsSizes(ls, lead, protocolId, bytes, t);
  }

  lemma ReadsAsFated(ls: map<Uint16, Listener>, lead: Lead, timing: nat -> Timing, own: NodeId, network: Uint16,
                     s: seq<Byte>) returns (w: World)
    ensures w.clients == Sizes(ls) && w.indicationSize == |lead(0)|
    ensures ReadBeacon(ls, lead, timing, own, network, s).0 == Read(w, own, network, s)
  {
    hide ReadHeader, WellFormed, ReadInto, ReadPayloads, Sizes;
    w := World(Sizes(ls), |lead(0)|, (_: nat) => TimesOut);
    if |s| > HEADER_SIZE && WellFormed(ReadHeader(s), own, network) && ReadHeader(s).length <= |s| - HEADER_SIZE {
      var h := ReadHeader(s);
      w := ReadsForSomeFates(ls, lead, timing, s[HEADER_SIZE..HEADER_SIZE + h.length], h.numPayloads, 0);
    }
  }

  // A beacon that is nobody's business leaves every client as it was
  lemma ForeignLeavesClients(ls: map<Uint16, Listener>, lead: Lead, timing: nat -> Timing, own: NodeId, network: Uint16,
                             h: Header, rest: seq<Byte>)
    requires rest != []
    requires h.version != HEADER_VERSION || h.magicNo != MAGIC_NO || h.senderId == own || h.networkId != network
             || h.numPayloads == 0 || h.length == 0 || h.length > |rest|
    ensures var (r, ls') := ReadBeacon(ls, lead, timing, own, network, HeaderBytes(h) + rest);
            ls' == ls && r.items == [] && (r.end == NotForUs || r.end == LengthTooLarge)
  {
    hide HeaderBytes, ReadHeader, ReadInto;
    var s := HeaderBytes(h) + rest;
    assert s[..HEADER_SIZE] == HeaderBytes(h);
    HeaderRoundTrip(h, s);
  }

  // ---------- What the clients get ----------

  // The indications of the payloads that were handed to a client
  function GivenTo(items: seq<Item>, p: Uint16, lead: Lead): seq<Payload> {
    if items == [] then []
    else
      (if items[0].handed && items[0].pld.protocolId == p then [Indication(lead, items[0].pld.bytes)] else [])
      + GivenTo(items[1..], p, lead)
  }

  lemma GivenFirst(item: Item, items: seq<Item>, p: Uint16, lead: Lead, before: seq<Payload>)
    ensures before + GivenTo([item] + items, p, lead)
         == before + (if item.handed && item.pld.protocolId == p then [Indication(lead, item.pld.bytes)] else [])
            + GivenTo(items, p, lead)
  {
    assert ([item] + items)[1..] == items;
  }

  lemma ServedGives(ls: map<Uint16, Listener>, lead: Lead, protocolId: Uint16, bytes: seq<Byte>, t: Timing, p: Uint16)
    requires p in ls
    ensures var (ls', outcome) := Served(ls, lead, protocolId, bytes, t);
            && p in ls'
            && Account(ls'[p])
               == Account(ls[p]) + (if outcome.Done? && protocolId == p then [Indication(lead, bytes)] else [])
  {
    hide Indicate, Account;
    if Hears(ls, lead, protocolId, |bytes|) {
      IndicateExactly(ls[protocolId], lead, bytes, t);
    }
    assert Account(ls[p]) + [] == Account(ls[p]);
  }

  // Whatever the bytes and the circumstances, a client is given exactly the payloads reported as handed to it, once each
  // and in their order: it has taken them, or they are stored for it behind what was stored before
  lemma {:induction false} GivenExactly(ls: map<Uint16, Listener>, lead: Lead, timing: nat -> Timing, s: seq<Byte>, n: nat,
                                        i: nat, p: Uint16)
    requires p in ls
    ensures var (r, ls') := ReadInto(ls, lead, timing, s, n, i);
            p in ls' && Account(ls'[p]) == Account(ls[p]) + GivenTo(r.items, p, lead)
    decreases n - i
  {
    hide ReadU16, Served, Account, GivenTo;
    GivenNothing(ls[p], p, lead);
    if i < n && |s| >= PAYLOAD_HEADER_SIZE && ReadU16(s[2..]) <= |s| - PAYLOAD_HEADER_SIZE {
      var protocolId, length, rest := ReadU16(s), ReadU16(s[2..]), s[PAYLOAD_HEADER_SIZE..];
      var bytes := rest[..length];
      var (ls', outcome) := Served(ls, lead, protocolId, bytes, timing(i));
      ServedGives(ls, lead, protocolId, bytes, timing(i), p);
      if !FateOf(outcome).Breaks? {
        GivenExactly(ls', lead, timing, rest[length..], n, i + 1, p);
        GivenFirst(Item(Pld(protocolId, bytes), outcome.Done?), ReadInto(ls', lead, timing, rest[length..], n, i + 1).0.items,
                   p, lead, Account(ls[p]));
      } else {
        assert !outcome.Done?;
      }
    }
  }

  lemma GivenNothing(l: Listener, p: Uint16, lead: Lead)
    ensures Account(l) + GivenTo([], p, lead) == Account(l) && Account(l) + [] == Account(l)
  {
  }

  // ---------- From beacon to clients ----------

  lemma ServedSoundly(ls: map<Uint16, Listener>, lead: Lead, protocolId: Uint16, bytes: seq<Byte>, t: Timing)
    requires AllSound(ls) && bytes != []
    ensures var (ls', outcome) := Served(ls, lead, protocolId, bytes, t);
            AllSound(ls') && !FateOf(outcome).Breaks?
  {
    hide Indicate, Sound;
    if Hears(ls, lead, protocolId, |bytes|) {
      IndicateExactly(ls[protocolId], lead, bytes, t);
    }
  }

  lemma ReadIntoFirst(ls: map<Uint16, Listener>, lead: Lead, timing: nat -> Timing, ps: seq<Pld>, n: nat, i: nat)
    requires i < n && ps != [] && 0 < |ps[0].bytes| < 0x1_0000
    ensures var (ls', outcome) := Served(ls, lead, ps[0].protocolId, ps[0].bytes, timing(i));
            !FateOf(outcome).Breaks? ==>
              var (r, ls'') := ReadInto(ls', lead, timing, Body(ps[1..]), n, i + 1);
              ReadInto(ls, lead, timing, Body(ps), n, i) == (Prepend(Item(ps[0], outcome.Done?), r), ls'')
  {
    hide PayloadBytes, ReadU16, Served;
    PldParts(ps[0], Body(ps), Body(ps[1..]));
  }

  // While no buffer is lost and the flags are right, nonempty payloads never make a push raise an exception
  lemma {:induction false} BodyReadInto(ls: map<Uint16, Listener>, lead: Lead, timing: nat -> Timing, ps: seq<Pld>, n: nat,
                                        i: nat)
    requires AllSound(ls) && i <= n <= i + |ps| && forall j :: 0 <= j < |ps| ==> 0 < |ps[j].bytes| < 0x1_0000
    ensures var (r, ls') := ReadInto(ls, lead, timing, Body(ps), n, i);
            r.end == Complete && Plds(r.items) == ps[..n - i] && AllSound(ls')
    decreases |ps|
  {
    hide AllSound, Served, Body, Plds;
    if i < n {
      ServedSoundly(ls, lead, ps[0].protocolId, ps[0].bytes, timing(i));
      ReadIntoFirst(ls, lead, timing, ps, n, i);
      var (ls', outcome) := Served(ls, lead, ps[0].protocolId, ps[0].bytes, timing(i));
      BodyReadInto(ls', lead, timing, ps[1..], n, i + 1);
      PldsPrepend(Item(ps[0], outcome.Done?), ReadInto(ls', lead, timing, Body(ps[1..]), n, i + 1).0.items);
      assert ps[..n - i] == [ps[0]] + ps[1..][..n - i - 1];
    } else {
      assert Plds([]) == [] && ps[..0] == [];
    }
  }

  ghost predicate OnePerProtocol(ps: seq<Pld>) {
    forall i, j :: 0 <= i < j < |ps| ==> ps[i].protocolId != ps[j].protocolId
  }

  // The client listens, its mutex is acquired in time, and it has taken all that is stored before the time is up
  predicate InTime(ls: map<Uint16, Listener>, lead: Lead, p: Pld, t: Timing) {
    && p.protocolId in ls && |lead(0)| + |p.bytes| <= ls[p.protocolId].shape.size
    && t.locked && |ls[p.protocolId].store.stored| <= t.before + t.during
  }

  lemma ServedInTime(ls: map<Uint16, Listener>, lead: Lead, p: Pld, t: Timing)
    requires AllSound(ls) && p.bytes != []
    ensures var (ls', outcome) := Served(ls, lead, p.protocolId, p.bytes, t);
            && (outcome.Done? <==> InTime(ls, lead, p, t))
            && forall q: Pld, u: Timing {:trigger InTime(ls', lead, q, u)} ::
                 q.protocolId != p.protocolId ==> (InTime(ls', lead, q, u) <==> InTime(ls, lead, q, u))
  {
    hide Indicate, Sound;
    if Hears(ls, lead, p.protocolId, |p.bytes|) {
      IndicateExactly(ls[p.protocolId], lead, p.bytes, t);
    }
  }

  // With at most one payload for each client, as beacons of this program have, a payload is handed over if and only if its
  // client is in time
  lemma {:induction false} HandedInTime(ls: map<Uint16, Listener>, lead: Lead, timing: nat -> Timing, ps: seq<Pld>, n: nat,
                                        i: nat)
    requires AllSound(ls) && OnePerProtocol(ps)
    requires i <= n <= i + |ps| && forall j :: 0 <= j < |ps| ==> 0 < |ps[j].bytes| < 0x1_0000
    ensures var items := ReadInto(ls, lead, timing, Body(ps), n, i).0.items;
            |items| == n - i && forall j :: 0 <= j < n - i ==> (items[j].handed <==> InTime(ls, lead, ps[j], timing(i + j)))
    decreases |ps|
  {
    hide AllSound, Served, Body, InTime;
    if i < n {
      ServedSoundly(ls, lead, ps[0].protocolId, ps[0].bytes, timing(i));
      ServedInTime(ls, lead, ps[0], timing(i));
      ReadIntoFirst(ls, lead, timing, ps, n, i);
      var (ls', outcome) := Served(ls, lead, ps[0].protocolId, ps[0].bytes, timing(i));
      HandedInTime(ls', lead, timing, ps[1..], n, i + 1);
      var items, rest := ReadInto(ls, lead, timing, Body(ps), n, i).0.items,
                         ReadInto(ls', lead, timing, Body(ps[1..]), n, i + 1).0.items;
      assert items == [Item(ps[0], outcome.Done?)] + rest;
      forall j | 0 <= j < n - i ensures items[j].handed <==> InTime(ls, lead, ps[j], timing(i + j)) {
        if j > 0 {
          assert items[j] == rest[j - 1] && ps[j] == ps[1..][j - 1] && i + 1 + (j - 1) == i + j;
          assert InTime(ls', lead, ps[j], timing(i + j)) <==> InTime(ls, lead, ps[j], timing(i + j));
        }
      }
    }
  }

  // From a beacon to the clients of another node of the network: everything is read, no exception is raised, no buffer is
  // lost, and each client is given exactly what was handed to it, in order, which is what it was in time for
  lemma BeaconReachesClients(ls: map<Uint16, Listener>, lead: Lead, timing: nat -> Timing, own: NodeId, sender: NodeId,
                             network: Uint16, seqno: Uint32, ps: seq<Pld>, padding: seq<Byte>)
    requires AllSound(ls) && Sendable(ps) && own != sender
    ensures var (r, ls') := ReadBeacon(ls, lead, timing, own, network, Beacon(sender, network, seqno, ps) + padding);
            && r.end == Complete && Plds(r.items) == ps && AllSound(ls')
            && (forall p :: p in ls ==> p in ls' && Account(ls'[p]) == Account(ls[p]) + GivenTo(r.items, p, lead))
            && (OnePerProtocol(ps) ==>
                  forall j :: 0 <= j < |ps| ==> (r.items[j].handed <==> InTime(ls, lead, ps[j], timing(j))))
  {
    hide InTime, OnePerProtocol, AllSound, HeaderBytes, ReadHeader, Body, ReadInto, Plds, Account, GivenTo;
    var s := Beacon(sender, network, seqno, ps) + padding;
    var h := Header(HEADER_VERSION, MAGIC_NO, sender, network, |Body(ps)|, |ps|, seqno);
    BodyIsLong(ps);
    assert s == HeaderBytes(h) + (Body(ps) + padding);
    assert s[..HEADER_SIZE] == HeaderBytes(h);
    HeaderRoundTrip(h, s);
    assert s[HEADER_SIZE..HEADER_SIZE + h.length] == Body(ps);
    BodyReadInto(ls, lead, timing, ps, |ps|, 0);
    assert ps[..|ps|] == ps;
    if OnePerProtocol(ps) {
      HandedInTime(ls, lead, timing, ps, |ps|, 0);
    }
    forall p | p in ls
      ensures var (r, ls') := ReadInto(ls, lead, timing, Body(ps), |ps|, 0);
              p in ls' && Account(ls'[p]) == Account(ls[p]) + GivenTo(r.items, p, lead)
    {
      GivenExactly(ls, lead, timing, Body(ps), |ps|, 0, p);
    }
  }
}
