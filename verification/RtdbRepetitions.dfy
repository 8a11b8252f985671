/**
 How often a record is sent. Each record that enters the create or the update queue of a node is carried by exactly as
 many of the node's beacons as its variable has repetitions, unless a newer one takes its place before.
 */
module RtdbRepetitions {
  import opened RtdbTypes
  import opened RtdbSerial
  import opened RtdbNode
  import opened RtdbNetwork
  import Packet = RtdbPacket
  import Packing = RtdbPacking

  // The two queues of records
  datatype Kind = Creates | Updates

  function QueueOf<D>(n: Node<D>, kind: Kind): seq<Queued<D>> {
    if kind.Creates? then n.createQ else n.updateQ
  }

  function CarriedIn<D>(l: Packet.Lists<D>, kind: Kind): seq<IE<D>> {
    if kind.Creates? then l.creates else l.updates
  }

  function OwedBy<D>(n: Node<D>, kind: Kind, id: nat): nat {
    Packing.Owed(QueueOf(n, kind), id)
  }

  // The queue has a record of the variable that just entered it: all its repetitions are still to come
  ghost predicate OwesAll<D>(n: Node<D>, kind: Kind, id: nat) {
    id in n.db && OwedBy(n, kind, id) == Packing.Due(n.db[id].repCnt)
  }

  // ---------- Queues ----------

  lemma {:induction false} OwedAfterRemoval<D>(q: seq<Queued<D>>, x: nat, id: nat)
    ensures Packing.Owed(RemoveId(q, x), id) == if x == id then 0 else Packing.Owed(q, id)
  {
    if q != [] {
      OwedAfterRemoval(q[1..], x, id);
      var first := if q[0].ie.Id() != x then [q[0]] else [];
      Packing.OwedConcat(first, RemoveId(q[1..], x), id);
      Packing.SingleNamed([], first, id);
    }
  }

  lemma OwedAfterPush<D>(q: seq<Queued<D>>, x: Queued<D>, id: nat)
    ensures Packing.Owed(q + [x], id) == Packing.Owed(q, id) + if x.ie.Id() == id then Packing.Due(x.rep) else 0
  {
    Packing.OwedConcat(q, [x], id);
    Packing.SingleNamed([], [x], id);
  }

  // The record of x at the end of the queue takes the place of an older one
  lemma OwedAfterReplacement<D>(q: seq<Queued<D>>, x: Queued<D>, id: nat)
    ensures Packing.Owed(RemoveId(q, x.ie.Id()) + [x], id)
         == if x.ie.Id() == id then Packing.Due(x.rep) else Packing.Owed(q, id)
  {
    OwedAfterRemoval(q, x.ie.Id(), id);
    OwedAfterPush(RemoveId(q, x.ie.Id()), x, id);
  }

  lemma UnknownIsNotOwed<D>(n: Node<D>, id: nat)
    requires NodeOk(n) && id !in n.db
    ensures OwedBy(n, Creates, id) == 0 == OwedBy(n, Updates, id)
  {
    hide SummariesOk, RequestsOk;
    Packing.OwedNothing(n.createQ, id);
    Packing.OwedNothing(n.updateQ, id);
  }

  // ---------- What puts a record into a queue ----------

  // Processing the element puts a record of the variable into the queue
  predicate Requeues<D>(n: Node<D>, ie: IE<D>, kind: Kind, id: nat) {
    match kind
    case Creates =>
      (ie.Create? && ie.spec.id == id && id !in n.db) || (ie.ReqCreate? && ie.reqCreateId == id && id in n.db)
    case Updates =>
      && ie.Id() == id && id in n.db
      && ((ie.Update? && n.db[id].producer != n.self && SeqNoMoreRecent(n.db[id].seqNo, ie.upd.seqNo))
          || (ie.Summary? && n.db[id].producer != n.self && ie.sumSeqNo != n.db[id].seqNo
              && !SeqNoMoreRecent(n.db[id].seqNo, ie.sumSeqNo))
          || ie.ReqUpdate?)
  }

  // What an operation does to what a queue owes a variable
  ghost predicate Settles<D>(n: Node<D>, m: Node<D>, requeued: bool, kind: Kind, id: nat) {
    && (id in n.db ==> id in m.db && m.db[id].repCnt == n.db[id].repCnt)
    && (if requeued then OwesAll(m, kind, id) else OwedBy(m, kind, id) == OwedBy(n, kind, id))
  }

  lemma CreateSettles<D>(n: Node<D>, ie: IE<D>, kind: Kind, id: nat)
    requires NodeOk(n) && ie.Create?
    ensures Settles(n, Receive(n, ie), Requeues(n, ie, kind, id), kind, id)
  {
    hide NodeOk, RemoveId, Packing.Owed;
    if ie.spec.id !in n.db {
      UnknownIsNotOwed(n, ie.spec.id);
      OwedAfterPush(n.createQ, Receive(n, ie).createQ[|n.createQ|], id);
    }
  }

  lemma ReissueSettles<D>(n: Node<D>, x: nat, kind: Kind, id: nat)
    requires x in n.db
    ensures Settles(n, Reissue(n, x), kind.Updates? && x == id, kind, id)
  {
    hide RemoveId, Packing.Owed;
    var v := n.db[x];
    OwedAfterReplacement(n.updateQ, Queued(Update(UpdateOf(v).(id := x)), v.repCnt), id);
  }

  lemma UpdateSettles<D>(n: Node<D>, ie: IE<D>, kind: Kind, id: nat)
    requires NodeOk(n) && ie.Update?
    ensures Settles(n, Receive(n, ie), Requeues(n, ie, kind, id), kind, id)
  {
    hide RemoveId, Packing.Owed, CreatesOk, UpdatesOk, SummariesOk, RequestsOk, SeqNoMoreRecent;
    if ie.upd.id in n.db {
      OwedAfterReplacement(n.updateQ, Queued(ie, n.db[ie.upd.id].repCnt), id);
    }
  }

  lemma SummarySettles<D>(n: Node<D>, ie: IE<D>, kind: Kind, id: nat)
    requires NodeOk(n) && ie.Summary?
    ensures Settles(n, Receive(n, ie), Requeues(n, ie, kind, id), kind, id)
  {
    hide Reissue, Packing.Owed, CreatesOk, UpdatesOk, SummariesOk, RequestsOk, SeqNoMoreRecent;
    if ie.sumId in n.db {
      ReissueSettles(n, ie.sumId, kind, id);
    }
  }

  lemma RequestSettles<D>(n: Node<D>, ie: IE<D>, kind: Kind, id: nat)
    requires NodeOk(n) && (ie.ReqCreate? || ie.ReqUpdate?)
    ensures Settles(n, Receive(n, ie), Requeues(n, ie, kind, id), kind, id)
  {
    hide Reissue, RemoveId, Packing.Owed, CreatesOk, UpdatesOk, SummariesOk, RequestsOk;
    if ie.Id() in n.db {
      var v := n.db[ie.Id()];
      ReissueSettles(n, ie.Id(), kind, id);
      OwedAfterReplacement(n.createQ, Queued(Create(SpecOf(v).(id := ie.Id()), UpdateOf(v).(id := ie.Id())), v.repCnt), id);
    }
  }

  lemma ElementSettles<D>(n: Node<D>, ie: IE<D>, kind: Kind, id: nat)
    requires NodeOk(n)
    ensures Settles(n, Receive(n, ie), Requeues(n, ie, kind, id), kind, id)
  {
    hide NodeOk, Receive, Requeues, Settles;
    match ie
    case Create(_, _) => CreateSettles(n, ie, kind, id);
    case Update(_) => UpdateSettles(n, ie, kind, id);
    case Summary(_, _) => SummarySettles(n, ie, kind, id);
    case ReqCreate(_) => RequestSettles(n, ie, kind, id);
    case ReqUpdate(_, _) => RequestSettles(n, ie, kind, id);
  }

  lemma SettlesOn<D>(a: Node<D>, b: Node<D>, c: Node<D>, first: bool, second: bool, kind: Kind, id: nat)
    requires Settles(a, b, first, kind, id) && Settles(b, c, second, kind, id)
    ensures Settles(a, c, first || second, kind, id)
  {
    hide OwedBy;
  }

  predicate RequeuesIn<D>(n: Node<D>, list: seq<IE<D>>, kind: Kind, id: nat) {
    list != []
    && (RequeuesIn(n, list[..|list| - 1], kind, id)
        || Requeues(ReceiveAll(n, list[..|list| - 1]), list[|list| - 1], kind, id))
  }

  lemma {:induction false} ListSettles<D>(n: Node<D>, list: seq<IE<D>>, kind: Kind, id: nat)
    requires NodeOk(n)
    ensures Settles(n, ReceiveAll(n, list), RequeuesIn(n, list, kind, id), kind, id)
  {
    if list != [] {
      hide NodeOk, Receive, Requeues, Settles;
      var rest, last := list[..|list| - 1], list[|list| - 1];
      var m := ReceiveAll(n, rest);
      ListSettles(n, rest, kind, id);
      ReceiveAllOk(n, rest);
      ElementSettles(m, last, kind, id);
      SettlesOn(n, m, Receive(m, last), RequeuesIn(n, rest, kind, id), Requeues(m, last, kind, id), kind, id);
    }
  }

  // Some element of the beacon, when its turn comes, puts a record of the variable into the queue
  predicate RequeuesByBeacon<D>(n: Node<D>, l: Packet.Lists<D>, kind: Kind, id: nat) {
    var n1 := ReceiveAll(n, l.creates);
    var n2 := ReceiveAll(n1, l.updates);
    var n3 := ReceiveAll(n2, l.summaries);
    var n4 := ReceiveAll(n3, l.createReqs);
    RequeuesIn(n, l.creates, kind, id) || RequeuesIn(n1, l.updates, kind, id) || RequeuesIn(n2, l.summaries, kind, id)
    || RequeuesIn(n3, l.createReqs, kind, id) || RequeuesIn(n4, l.updateReqs, kind, id)
  }

  lemma BeaconSettles<D>(n: Node<D>, l: Packet.Lists<D>, kind: Kind, id: nat)
    requires NodeOk(n)
    ensures Settles(n, Process(n, l), RequeuesByBeacon(n, l, kind, id), kind, id)
  {
    hide NodeOk, ReceiveAll, RequeuesIn, Settles;
    var n1 := ReceiveAll(n, l.creates);
    ReceiveAllOk(n, l.creates);
    ListSettles(n, l.creates, kind, id);
    var n2 := ReceiveAll(n1, l.updates);
    ReceiveAllOk(n1, l.updates);
    ListSettles(n1, l.updates, kind, id);
    var n3 := ReceiveAll(n2, l.summaries);
    ReceiveAllOk(n2, l.summaries);
    ListSettles(n2, l.summaries, kind, id);
    var n4 := ReceiveAll(n3, l.createReqs);
    ReceiveAllOk(n3, l.createReqs);
    ListSettles(n3, l.createReqs, kind, id);
    ListSettles(n4, l.updateReqs, kind, id);
    var r1, r2 := RequeuesIn(n, l.creates, kind, id), RequeuesIn(n1, l.updates, kind, id);
    var r3, r4 := RequeuesIn(n2, l.summaries, kind, id), RequeuesIn(n3, l.createReqs, kind, id);
    SettlesOn(n, n1, n2, r1, r2, kind, id);
    SettlesOn(n, n2, n3, r1 || r2, r3, kind, id);
    SettlesOn(n, n3, n4, r1 || r2 || r3, r4, kind, id);
    SettlesOn(n, n4, ReceiveAll(n4, l.updateReqs), r1 || r2 || r3 || r4, RequeuesIn(n4, l.updateReqs, kind, id), kind, id);
  }

  // ---------- Beacons ----------

  // Whether the beacon that a node builds carries a record of the variable
  function CarriedOnce<D>(n: Node<D>, initLen: int, kind: Kind, id: nat): nat {
    if Packing.Named(CarriedIn(Build(n, initLen).1, kind), id) > 0 then 1 else 0
  }

  // Building a beacon pays one of the beacons owed if it carries the record, and nothing otherwise
  lemma BuildPays<D>(n: Node<D>, initLen: int, kind: Kind, id: nat)
    requires NodeOk(n)
    ensures var m := Build(n, initLen).0;
            m.db == n.db && OwedBy(n, kind, id) == CarriedOnce(n, initLen, kind, id) + OwedBy(m, kind, id)
  {
    hide NodeOk, Build, TotalLen, Packing.Outcome, Packing.Owed, Packing.Named, Packing.Dead;
    BeaconNamesOnce(n, initLen, id);
    NothingDead(n, kind, id);
    var size := RecordSections(n, initLen);
    if kind.Creates? {
      Packing.FillConserves(CREATE_VARIABLES, n.db, n.createQ, initLen, n.cfg.maxPacketSize, false, id);
    } else {
      Packing.FillConserves(UPDATES, n.db, n.updateQ, size, n.cfg.maxPacketSize, false, id);
    }
  }

  lemma NothingDead<D>(n: Node<D>, kind: Kind, id: nat)
    requires NodeOk(n)
    ensures forall i :: 0 <= i < |n.createQ| ==> !Packing.Dead(CREATE_VARIABLES, n.db, n.createQ[i].ie)
    ensures forall i :: 0 <= i < |n.updateQ| ==> !Packing.Dead(UPDATES, n.db, n.updateQ[i].ie)
  {
    hide SummariesOk, RequestsOk;
  }

  // ---------- Steps of the network ----------

  // The event puts a record of the variable into a queue of node k: a request of its own application, or a beacon
  predicate RequeuedBy(net: Network, e: Event, k: nat, kind: Kind, id: nat)
    requires k in net.nodes
  {
    match e
    case CreateRequest(m, x, descr, len, bytes, repCnt) =>
      m == k && x == id && kind.Creates? && ApiCreate(net.nodes[k], x, descr, len, Stamped(bytes, 0), repCnt).1 == RC_OK
    case UpdateRequest(m, x, len, bytes) =>
      m == k && x == id && kind.Updates? && ApiUpdate(net.nodes[k], x, len, Stamped(bytes, 0)).1 == RC_OK
    case SendBeacon(_, _) => false
    case Deliver(b, to) =>
      && to == k && b < |net.sent| && Packet.Parse(net.sent[b]).Ok?
      && RequeuesByBeacon(net.nodes[k], Packet.Parse(net.sent[b]).value, kind, id)
  }

  // One for a beacon of node k that carries a record of the variable
  function CarriedBy(net: Network, e: Event, k: nat, kind: Kind, id: nat): nat
    requires k in net.nodes
  {
    if e.SendBeacon? && e.node == k then CarriedOnce(net.nodes[k], e.initLen, kind, id) else 0
  }

  // One step of the accounts: a record that enters the queue is owed all its beacons, any other step changes what is
  // owed by what it pays
  ghost predicate Accounted(net: Network, net': Network, e: Event, k: nat, kind: Kind, id: nat)
    requires k in net.nodes
  {
    && k in net'.nodes
    && (id in net.nodes[k].db ==> id in net'.nodes[k].db && net'.nodes[k].db[id].repCnt == net.nodes[k].db[id].repCnt)
    && (if RequeuedBy(net, e, k, kind, id) then OwesAll(net'.nodes[k], kind, id)
        else OwedBy(net.nodes[k], kind, id) == CarriedBy(net, e, k, kind, id) + OwedBy(net'.nodes[k], kind, id))
  }

  lemma CreateRequestAccounted(net: Network, e: Event, k: nat, kind: Kind, id: nat)
    requires NetOk(net) && k in net.nodes && e.CreateRequest?
    ensures Accounted(net, Step(net, e), e, k, kind, id)
  {
    hide GenuineNode, GenuineBeacon, ProducerOk, CreatesOk, UpdatesOk, SummariesOk, RequestsOk, Packing.Owed;
    var n := net.nodes[k];
    if e.node == k && e.id !in n.db {
      UnknownIsNotOwed(n, e.id);
      var m := ApiCreate(n, e.id, e.descr, e.len, Stamped(e.bytes, 0), e.repCnt).0;
      if |m.createQ| == |n.createQ| + 1 {
        OwedAfterPush(n.createQ, m.createQ[|n.createQ|], id);
      }
    }
  }

  lemma ApiUpdateSettles(n: Node<Stamped>, x: nat, len: nat, data: Stamped, kind: Kind, id: nat)
    requires forall y :: y in n.db ==> n.db[y].id == y
    ensures var (m, rc) := ApiUpdate(n, x, len, data); Settles(n, m, rc == RC_OK && kind.Updates? && x == id, kind, id)
  {
    hide Packing.Owed, RemoveId;
    var (m, rc) := ApiUpdate(n, x, len, data);
    if rc == RC_OK {
      OwedAfterReplacement(n.updateQ, Queued(Update(UpdateOf(m.db[x])), m.db[x].repCnt), id);
    }
  }

  lemma UpdateRequestAccounted(net: Network, e: Event, k: nat, kind: Kind, id: nat)
    requires NetOk(net) && k in net.nodes && e.UpdateRequest?
    ensures Accounted(net, Step(net, e), e, k, kind, id)
  {
    hide GenuineNode, GenuineBeacon, ProducerOk, CreatesOk, UpdatesOk, SummariesOk, RequestsOk, OwedBy, ApiUpdate;
    var n := net.nodes[k];
    UnknownToAll(net, k, e.id);
    AnswerIgnoresData(n, e.id, e.len, Stamped(e.bytes, 0));
    if e.node == k && e.id in net.hist {
      var data := Stamped(e.bytes, |net.hist[e.id].values|);
      AnswerIgnoresData(n, e.id, e.len, data);
      ApiUpdateSettles(n, e.id, e.len, data, kind, id);
      ApiRefusalChangesNothing(n, e.id, e.len, data);
    }
  }

  predicate Answered(n: Node<Stamped>, id: nat, len: nat) {
    id in n.db && n.db[id].producer == n.self && !n.db[id].toBeDeleted && len <= n.cfg.maxVariableLen
  }

  lemma AnswerIgnoresData(n: Node<Stamped>, id: nat, len: nat, data: Stamped)
    ensures ApiUpdate(n, id, len, data).1 == RC_OK <==> Answered(n, id, len)
  {
  }

  lemma ApiRefusalChangesNothing(n: Node<Stamped>, id: nat, len: nat, data: Stamped)
    ensures var (m, rc) := ApiUpdate(n, id, len, data); rc != RC_OK ==> m == n
  {
  }

  lemma UnknownToAll(net: Network, k: nat, id: nat)
    requires NetOk(net) && k in net.nodes
    ensures id !in net.hist ==> id !in net.nodes[k].db
  {
    SpecKnown(net, k, id);
  }

  lemma BeaconAccounted(net: Network, e: Event, k: nat, kind: Kind, id: nat)
    requires NetOk(net) && k in net.nodes && (e.SendBeacon? || e.Deliver?)
    ensures Accounted(net, Step(net, e), e, k, kind, id)
  {
    hide NodeOk, GenuineNode, GenuineBeacon, ProducerOk, Build, Process, Packet.Parse, Packet.Write, RequeuesByBeacon, OwedBy,
         CarriedOnce;
    var n := net.nodes[k];
    assert NodeOk(n);
    match e {
      case SendBeacon(m, initLen) =>
        if m == k {
          BuildPays(n, initLen, kind, id);
        }
      case Deliver(b, to) =>
        if to == k && b < |net.sent| && Packet.Parse(net.sent[b]).Ok? {
          BeaconSettles(n, Packet.Parse(net.sent[b]).value, kind, id);
        }
    }
  }

  lemma StepAccounted(net: Network, e: Event, k: nat, kind: Kind, id: nat)
    requires NetOk(net) && k in net.nodes
    ensures Accounted(net, Step(net, e), e, k, kind, id)
  {
    hide NetOk, Step, Accounted;
    match e
    case CreateRequest(_, _, _, _, _, _) => CreateRequestAccounted(net, e, k, kind, id);
    case UpdateRequest(_, _, _, _) => UpdateRequestAccounted(net, e, k, kind, id);
    case SendBeacon(_, _) => BeaconAccounted(net, e, k, kind, id);
    case Deliver(_, _) => BeaconAccounted(net, e, k, kind, id);
  }

  // A beacon that is counted has been sent, and is read by whoever receives it as naming the variable exactly once
  lemma CountedIsSent(net: Network, e: Event, k: nat, kind: Kind, id: nat)
    requires NetOk(net) && k in net.nodes
    ensures CarriedBy(net, e, k, kind, id) == 1 ==>
              var sent := Step(net, e).sent;
              && |sent| == |net.sent| + 1 && Packet.Parse(sent[|net.sent|]).Ok?
              && Packing.Named(CarriedIn(Packet.Parse(sent[|net.sent|]).value, kind), id) == 1
  {
    hide GenuineNode, GenuineBeacon, ProducerOk, CreatesOk, UpdatesOk, SummariesOk, RequestsOk, Build, Packet.Parse, Packet.Write;
    if CarriedBy(net, e, k, kind, id) == 1 {
      var n := net.nodes[k];
      assert NodeOk(n);
      BeaconNamesOnce(n, e.initLen, id);
      BuildFits(n, e.initLen);
      BuiltIsReadBack(n, e.initLen);
      BuildSameConfig(n, e.initLen);
    }
  }

  lemma BuildSameConfig<D>(n: Node<D>, initLen: int)
    ensures Build(n, initLen).0.cfg == n.cfg
  {
  }

  // ---------- Runs ----------

  // How many of the beacons that node k sends from event number from on carry a record of the variable
  function Carriers(cfgs: map<nat, Config>, events: seq<Event>, from: nat, k: nat, kind: Kind, id: nat): nat {
    if |events| <= from then 0
    else
      var rest, e := events[..|events| - 1], events[|events| - 1];
      Carriers(cfgs, rest, from, k, kind, id)
      + if k in Run(cfgs, rest).nodes then CarriedBy(Run(cfgs, rest), e, k, kind, id) else 0
  }

  // The event numbered at puts a record of the variable into a queue of node k
  ghost predicate RequeuedAt(cfgs: map<nat, Config>, events: seq<Event>, at: nat, k: nat, kind: Kind, id: nat)
    requires at < |events|
  {
    k in Run(cfgs, events[..at]).nodes && RequeuedBy(Run(cfgs, events[..at]), events[at], k, kind, id)
  }

  ghost predicate NotSuperseded(cfgs: map<nat, Config>, events: seq<Event>, from: nat, k: nat, kind: Kind, id: nat) {
    forall j :: from <= j < |events| ==> !RequeuedAt(cfgs, events, j, k, kind, id)
  }

  // In every run: of the beacons that a record in a queue is owed at some point, each later one that carries it is paid,
  // for as long as no other record of the variable takes its place
  lemma {:induction false} OwedIsPaid(cfgs: map<nat, Config>, events: seq<Event>, from: nat, k: nat, kind: Kind, id: nat)
    requires ConfigsOk(cfgs) && AllAllowed(cfgs, events) && k in cfgs && from <= |events|
    requires NotSuperseded(cfgs, events, from, k, kind, id)
    ensures k in Run(cfgs, events[..from]).nodes && k in Run(cfgs, events).nodes
    ensures var n, m := Run(cfgs, events[..from]).nodes[k], Run(cfgs, events).nodes[k];
            && OwedBy(n, kind, id) == Carriers(cfgs, events, from, k, kind, id) + OwedBy(m, kind, id)
            && (id in n.db ==> id in m.db && m.db[id].repCnt == n.db[id].repCnt)
    decreases |events|
  {
    hide Run, NetOk, AllAllowed, ConfigsOk, CarriedBy, RequeuedBy, OwedBy;
    NodesStay(cfgs, events, k);
    NodesStay(cfgs, events[..from], k);
    if from == |events| {
      assert events[..from] == events;
    } else {
      var n := |events| - 1;
      AllowedPrefix(cfgs, events, n);
      assert events[..n][..from] == events[..from];
      forall j | from <= j < n ensures !RequeuedAt(cfgs, events[..n], j, k, kind, id) {
        assert events[..n][..j] == events[..j] && !RequeuedAt(cfgs, events, j, k, kind, id);
      }
      OwedIsPaid(cfgs, events[..n], from, k, kind, id);
      EverythingIsGenuine(cfgs, events[..n]);
      StepAccounted(Run(cfgs, events[..n]), events[n], k, kind, id);
      RunIsStep(cfgs, events);
      assert !RequeuedAt(cfgs, events, n, k, kind, id);
    }
  }

  lemma RunIsStep(cfgs: map<nat, Config>, events: seq<Event>)
    requires events != []
    ensures Run(cfgs, events) == Step(Run(cfgs, events[..|events| - 1]), events[|events| - 1])
  {
  }

  lemma {:induction false} NodesStay(cfgs: map<nat, Config>, events: seq<Event>, k: nat)
    requires k in cfgs
    ensures k in Run(cfgs, events).nodes
  {
    if events != [] {
      hide Run, ApiCreate, ApiUpdate, Build, Process, Packet.Parse;
      RunIsStep(cfgs, events);
      NodesStay(cfgs, events[..|events| - 1], k);
    } else {
      hide ApiCreate, ApiUpdate, Build, Process;
    }
  }

  // In every run: a record that enters a queue and whose place no other record of its variable takes is carried by
  // exactly as many beacons as the variable has repetitions by the time it has left the queue, and by fewer before. A
  // repetition count of zero counts as one.
  lemma CarriedExactly(cfgs: map<nat, Config>, events: seq<Event>, at: nat, k: nat, kind: Kind, id: nat)
    requires ConfigsOk(cfgs) && AllAllowed(cfgs, events) && k in cfgs && at < |events|
    ensures k in Run(cfgs, events).nodes
    ensures RequeuedAt(cfgs, events, at, k, kind, id) && NotSuperseded(cfgs, events, at + 1, k, kind, id) ==>
              var n, sent := Run(cfgs, events).nodes[k], Carriers(cfgs, events, at + 1, k, kind, id);
              var gone := forall i :: 0 <= i < |QueueOf(n, kind)| ==> QueueOf(n, kind)[i].ie.Id() != id;
              && id in n.db
              && (sent == Packing.Due(n.db[id].repCnt) <==> gone)
              && sent <= Packing.Due(n.db[id].repCnt)
  {
    hide Run, NetOk, AllAllowed, ConfigsOk, RequeuedBy, NotSuperseded, Packing.Owed, Carriers;
    NodesStay(cfgs, events, k);
    if RequeuedAt(cfgs, events, at, k, kind, id) && NotSuperseded(cfgs, events, at + 1, k, kind, id) {
      var before := events[..at + 1];
      assert before[..at] == events[..at] && before[at] == events[at];
      AllowedPrefix(cfgs, events, at);
      AllowedPrefix(cfgs, events, at + 1);
      EverythingIsGenuine(cfgs, events[..at]);
      StepAccounted(Run(cfgs, events[..at]), events[at], k, kind, id);
      RunIsStep(cfgs, before);
      OwedIsPaid(cfgs, events, at + 1, k, kind, id);
      Packing.OwedNothing(QueueOf(Run(cfgs, events).nodes[k], kind), id);
    }
  }
}
