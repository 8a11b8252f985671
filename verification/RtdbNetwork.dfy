/**
 A network of real-time database nodes. Steps are API requests at a node, the building of a beacon, and the
 delivery of any beacon ever sent to any node, so loss, duplication and reordering are all covered.

 Values are stamped with the number of the update that produced them. A node cannot see the stamp, since its
 operations are generic in the type of values; the stamp only lets one say which update a record stems from.
 */
module RtdbNetwork {
  import opened RtdbTypes
  import opened RtdbSerial
  import opened RtdbNode
  import Packing = RtdbPacking
  import Rounds = RtdbSummaries
  import Packet = RtdbPacket

  datatype Stamped = Stamped(bytes: seq<nat>, upd: nat)

  // What the producer of a variable has held: the specification, and all values with their lengths
  datatype Origin = Origin(spec: VarSpec, values: seq<(nat, seq<nat>)>)

  datatype Network = Network(
    nodes: map<nat, Node<Stamped>>,
    sent: seq<seq<Packet.Chunk<Stamped>>>,
    hist: map<nat, Origin>)

  datatype Event =
    | CreateRequest(node: nat, id: nat, descr: string, len: nat, bytes: seq<nat>, repCnt: nat)
    | UpdateRequest(node: nat, id: nat, len: nat, bytes: seq<nat>)
    | SendBeacon(node: nat, initLen: nat)
    | Deliver(beacon: nat, to: nat)

  // ---------- Steps ----------

  // The program checks only locally whether a variable exists. The assumption of one creator per variable
  // excludes exactly the create requests for a variable that exists but is not known locally.
  ghost predicate Allowed(net: Network, e: Event) {
    match e
    case CreateRequest(k, id, _, _, _, _) => k in net.nodes && (id in net.hist ==> id in net.nodes[k].db)
    case UpdateRequest(k, _, _, _) => k in net.nodes
    case SendBeacon(k, _) => k in net.nodes
    case Deliver(b, k) => b < |net.sent| && k in net.nodes
  }

  function Step(net: Network, e: Event): Network {
    match e
    case CreateRequest(k, id, descr, len, bytes, repCnt) =>
      if k !in net.nodes then net
      else
        var (n, rc) := ApiCreate(net.nodes[k], id, descr, len, Stamped(bytes, 0), repCnt);
        if rc != RC_OK then net
        else net.(nodes := net.nodes[k := n], hist := net.hist[id := Origin(SpecOf(n.db[id]), [(len, bytes)])])
    case UpdateRequest(k, id, len, bytes) =>
      if k !in net.nodes || id !in net.hist then net
      else
        var o := net.hist[id];
        var (n, rc) := ApiUpdate(net.nodes[k], id, len, Stamped(bytes, |o.values|));
        if rc != RC_OK then net
        else net.(nodes := net.nodes[k := n], hist := net.hist[id := o.(values := o.values + [(len, bytes)])])
    case SendBeacon(k, initLen) =>
      if k !in net.nodes then net
      else
        var (n, l) := Build(net.nodes[k], initLen);
        net.(nodes := net.nodes[k := n],
             sent := if initLen <= n.cfg.maxPacketSize then net.sent + [Packet.Write(l)] else net.sent)
    case Deliver(b, k) =>
      if k !in net.nodes || b >= |net.sent| then net
      else
        match Packet.Parse(net.sent[b])
        case Err(_) => net
        case Ok(l) => net.(nodes := net.nodes[k := Process(net.nodes[k], l)])
  }

  function Start(cfgs: map<nat, Config>): Network {
    Network(map k | k in cfgs :: Fresh(k, cfgs[k]), [], map[])
  }

  function Run(cfgs: map<nat, Config>, events: seq<Event>): Network {
    if events == [] then Start(cfgs) else Step(Run(cfgs, events[..|events| - 1]), events[|events| - 1])
  }

  ghost predicate AllAllowed(cfgs: map<nat, Config>, events: seq<Event>) {
    forall i :: 0 <= i < |events| ==> Allowed(Run(cfgs, events[..i]), events[i])
  }

  // ---------- Where records come from ----------

  // The value is one its producer really held, with the number of that update
  ghost predicate GenuineValue(hist: map<nat, Origin>, id: nat, seqNo: nat, len: nat, data: Stamped) {
    && id in hist
    && data.upd < |hist[id].values|
    && hist[id].values[data.upd] == (len, data.bytes)
    && seqNo == SeqNoOf(data.upd)
  }

  ghost predicate GenuineSeqNo(hist: map<nat, Origin>, id: nat, seqNo: nat) {
    id in hist && exists u :: 0 <= u < |hist[id].values| && seqNo == SeqNoOf(u)
  }

  ghost predicate GenuineUpdate(hist: map<nat, Origin>, u: VarUpdate<Stamped>) {
    GenuineValue(hist, u.id, u.seqNo, u.len, u.data)
  }

  ghost predicate Genuine(hist: map<nat, Origin>, ie: IE<Stamped>) {
    match ie
    case Create(spec, update) =>
      spec.id in hist && spec == hist[spec.id].spec && update.id == spec.id && GenuineUpdate(hist, update)
    case Update(upd) => GenuineUpdate(hist, upd)
    case Summary(id, seqNo) => GenuineSeqNo(hist, id, seqNo)
    case ReqCreate(id) => id in hist
    case ReqUpdate(id, seqNo) => GenuineSeqNo(hist, id, seqNo)
  }

  ghost predicate GenuineVar(hist: map<nat, Origin>, id: nat, v: Variable<Stamped>) {
    v.id == id && id in hist && SpecOf(v) == hist[id].spec && GenuineUpdate(hist, UpdateOf(v))
  }

  ghost predicate GenuineDb(hist: map<nat, Origin>, db: map<nat, Variable<Stamped>>) {
    forall id :: id in db ==> GenuineVar(hist, id, db[id])
  }

  ghost predicate GenuineQueue(hist: map<nat, Origin>, q: seq<Queued<Stamped>>) {
    forall i :: 0 <= i < |q| ==> Genuine(hist, q[i].ie)
  }

  ghost predicate GenuineList(hist: map<nat, Origin>, list: seq<IE<Stamped>>) {
    forall i :: 0 <= i < |list| ==> Genuine(hist, list[i])
  }

  ghost predicate GenuineNode(hist: map<nat, Origin>, n: Node<Stamped>) {
    && GenuineDb(hist, n.db)
    && GenuineQueue(hist, n.createQ) && GenuineQueue(hist, n.updateQ)
    && GenuineQueue(hist, n.reqUpdateQ) && GenuineQueue(hist, n.reqCreateQ)
  }

  ghost predicate GenuineLists(hist: map<nat, Origin>, l: Packet.Lists<Stamped>) {
    && GenuineList(hist, l.creates) && GenuineList(hist, l.updates) && GenuineList(hist, l.summaries)
    && GenuineList(hist, l.createReqs) && GenuineList(hist, l.updateReqs)
  }

  ghost predicate GenuineBeacon(hist: map<nat, Origin>, p: seq<Packet.Chunk<Stamped>>) {
    Packet.Parse(p).Ok? ==> GenuineLists(hist, Packet.Parse(p).value)
  }

  // The producer of a variable holds its last value
  ghost predicate ProducerOk(net: Network, id: nat) {
    && id in net.hist
    && var o := net.hist[id];
       && o.spec.id == id && o.values != [] && o.spec.producer in net.nodes
       && id in net.nodes[o.spec.producer].db
       && net.nodes[o.spec.producer].db[id].data.upd == |o.values| - 1
  }

  ghost predicate NetOk(net: Network) {
    && (forall k :: k in net.nodes ==>
          net.nodes[k].self == k && NodeOk(net.nodes[k]) && net.nodes[k].cfg.maxPacketSize < Packet.LEN_MODULUS
          && GenuineNode(net.hist, net.nodes[k]))
    && (forall b :: 0 <= b < |net.sent| ==> GenuineBeacon(net.hist, net.sent[b]))
    && (forall id :: id in net.hist ==> ProducerOk(net, id))
  }

  // ---------- Histories grow ----------

  ghost predicate Grown(hist: map<nat, Origin>, hist': map<nat, Origin>) {
    forall id :: id in hist ==>
      id in hist' && hist'[id].spec == hist[id].spec && hist[id].values <= hist'[id].values
  }

  lemma GenuineGrows(hist: map<nat, Origin>, hist': map<nat, Origin>, ie: IE<Stamped>)
    requires Grown(hist, hist') && Genuine(hist, ie)
    ensures Genuine(hist', ie)
  {
    match ie
    case Create(_, _) =>
    case Update(_) =>
    case Summary(id, seqNo) =>
      var u :| 0 <= u < |hist[id].values| && seqNo == SeqNoOf(u);
      assert 0 <= u < |hist'[id].values|;
    case ReqCreate(_) =>
    case ReqUpdate(id, seqNo) =>
      var u :| 0 <= u < |hist[id].values| && seqNo == SeqNoOf(u);
      assert 0 <= u < |hist'[id].values|;
  }

  lemma GenuineQueueGrows(hist: map<nat, Origin>, hist': map<nat, Origin>, q: seq<Queued<Stamped>>)
    requires Grown(hist, hist') && GenuineQueue(hist, q)
    ensures GenuineQueue(hist', q)
  {
    hide Genuine, Grown;
    forall i | 0 <= i < |q| ensures Genuine(hist', q[i].ie) {
      GenuineGrows(hist, hist', q[i].ie);
    }
  }

  lemma GenuineListGrows(hist: map<nat, Origin>, hist': map<nat, Origin>, list: seq<IE<Stamped>>)
    requires Grown(hist, hist') && GenuineList(hist, list)
    ensures GenuineList(hist', list)
  {
    hide Genuine, Grown;
    forall i | 0 <= i < |list| ensures Genuine(hist', list[i]) {
      GenuineGrows(hist, hist', list[i]);
    }
  }

  lemma GenuineNodeGrows(hist: map<nat, Origin>, hist': map<nat, Origin>, n: Node<Stamped>)
    requires Grown(hist, hist') && GenuineNode(hist, n)
    ensures GenuineNode(hist', n)
  {
    hide GenuineQueue;
    GenuineQueueGrows(hist, hist', n.createQ);
    GenuineQueueGrows(hist, hist', n.updateQ);
    GenuineQueueGrows(hist, hist', n.reqUpdateQ);
    GenuineQueueGrows(hist, hist', n.reqCreateQ);
  }

  lemma GenuineBeaconGrows(hist: map<nat, Origin>, hist': map<nat, Origin>, p: seq<Packet.Chunk<Stamped>>)
    requires Grown(hist, hist') && GenuineBeacon(hist, p)
    ensures GenuineBeacon(hist', p)
  {
    hide Packet.Parse, GenuineList, Grown;
    if Packet.Parse(p).Ok? {
      var l := Packet.Parse(p).value;
      GenuineListGrows(hist, hist', l.creates);
      GenuineListGrows(hist, hist', l.updates);
      GenuineListGrows(hist, hist', l.summaries);
      GenuineListGrows(hist, hist', l.createReqs);
      GenuineListGrows(hist, hist', l.updateReqs);
    }
  }

  // ---------- Each operation passes on genuine records only ----------

  lemma GenuineAppend(hist: map<nat, Origin>, q: seq<Queued<Stamped>>, x: Queued<Stamped>, id: nat)
    requires GenuineQueue(hist, q)
    ensures GenuineQueue(hist, RemoveId(q, id))
    ensures Genuine(hist, x.ie) ==> GenuineQueue(hist, q + [x]) && GenuineQueue(hist, RemoveId(q, id) + [x])
  {
    hide Genuine;
    var r := RemoveId(q, id);
    forall i | 0 <= i < |r| ensures r[i] in q {
      RemoveIdMember(q, id, r[i]);
    }
  }

  lemma GenuineDbUpdate(hist: map<nat, Origin>, db: map<nat, Variable<Stamped>>, id: nat, v: Variable<Stamped>)
    requires GenuineDb(hist, db) && GenuineVar(hist, id, v)
    ensures GenuineDb(hist, db[id := v])
  {
  }

  lemma VarIsGenuine(hist: map<nat, Origin>, n: Node<Stamped>, id: nat)
    requires GenuineDb(hist, n.db) && id in n.db
    ensures var v := n.db[id];
            && GenuineVar(hist, id, v)
            && Genuine(hist, Create(SpecOf(v).(id := id), UpdateOf(v).(id := id)))
            && Genuine(hist, Update(UpdateOf(v).(id := id)))
            && Genuine(hist, Summary(id, v.seqNo)) && Genuine(hist, ReqUpdate(id, v.seqNo))
            && Genuine(hist, ReqCreate(id))
  {
    assert GenuineVar(hist, id, n.db[id]);
    assert 0 <= n.db[id].data.upd < |hist[id].values|;
  }

  lemma ReissueGenuine(hist: map<nat, Origin>, n: Node<Stamped>, id: nat)
    requires GenuineNode(hist, n) && id in n.db
    ensures GenuineNode(hist, Reissue(n, id))
  {
    hide Genuine, GenuineDb, GenuineQueue, GenuineVar, RemoveId;
    VarIsGenuine(hist, n, id);
    var v := n.db[id];
    GenuineAppend(hist, n.updateQ, Queued(Update(UpdateOf(v).(id := id)), v.repCnt), id);
  }

  lemma ReceiveCreateGenuine(hist: map<nat, Origin>, n: Node<Stamped>, ie: IE<Stamped>)
    requires GenuineNode(hist, n) && Genuine(hist, ie) && ie.Create?
    ensures GenuineNode(hist, ReceiveCreate(n, ie))
  {
    hide GenuineDb, GenuineQueue, RemoveId;
    var id := ie.spec.id;
    if id !in n.db {
      var v := Variable(id, ie.spec.producer, ie.spec.repCnt, ie.spec.descr, ie.update.len, ie.update.data,
                        ie.update.seqNo, false);
      GenuineDbUpdate(hist, n.db, id, v);
      GenuineAppend(hist, n.createQ, Queued(Create(SpecOf(v), UpdateOf(v)), v.repCnt), id);
      GenuineAppend(hist, n.reqCreateQ, Queued(ie, 0), id);
    }
  }

  lemma ReceiveUpdateGenuine(hist: map<nat, Origin>, n: Node<Stamped>, ie: IE<Stamped>)
    requires GenuineNode(hist, n) && Genuine(hist, ie) && ie.Update?
    ensures GenuineNode(hist, ReceiveUpdate(n, ie))
  {
    hide GenuineDb, GenuineQueue, RemoveId;
    var id := ie.upd.id;
    if id in n.db {
      VarIsGenuine(hist, n, id);
      var v := n.db[id];
      GenuineDbUpdate(hist, n.db, id, v.(len := ie.upd.len, data := ie.upd.data, seqNo := ie.upd.seqNo));
      GenuineAppend(hist, n.updateQ, Queued(ie, v.repCnt), id);
      GenuineAppend(hist, n.reqUpdateQ, Queued(ie, 0), id);
    } else {
      GenuineAppend(hist, n.reqCreateQ, Queued(ReqCreate(id), 1), id);
    }
  }

  lemma ReceiveGenuine(hist: map<nat, Origin>, n: Node<Stamped>, ie: IE<Stamped>)
    requires GenuineNode(hist, n) && Genuine(hist, ie)
    ensures GenuineNode(hist, Receive(n, ie))
  {
    hide GenuineDb, GenuineQueue, RemoveId, GenuineSeqNo, GenuineUpdate, Reissue;
    match ie
    case Create(_, _) =>
      ReceiveCreateGenuine(hist, n, ie);
    case Update(_) =>
      ReceiveUpdateGenuine(hist, n, ie);
    case Summary(id, _) =>
      if id in n.db {
        VarIsGenuine(hist, n, id);
        ReissueGenuine(hist, n, id);
        GenuineAppend(hist, n.reqUpdateQ, Queued(ReqUpdate(id, n.db[id].seqNo), n.db[id].repCnt), id);
      } else {
        assert Genuine(hist, ReqCreate(id)) by { SeqNoKnown(hist, id, ie.sumSeqNo); }
        GenuineAppend(hist, n.reqCreateQ, Queued(ReqCreate(id), 1), id);
      }
    case ReqCreate(id) =>
      if id in n.db {
        VarIsGenuine(hist, n, id);
        var v := n.db[id];
        GenuineAppend(hist, n.createQ,
                      Queued(Create(SpecOf(v).(id := id), UpdateOf(v).(id := id)), v.repCnt), id);
      }
    case ReqUpdate(id, _) =>
      if id in n.db {
        ReissueGenuine(hist, n, id);
      }
  }

  lemma SeqNoKnown(hist: map<nat, Origin>, id: nat, seqNo: nat)
    requires GenuineSeqNo(hist, id, seqNo)
    ensures id in hist
  {
  }

  lemma {:induction false} ReceiveAllGenuine(hist: map<nat, Origin>, n: Node<Stamped>, list: seq<IE<Stamped>>)
    requires GenuineNode(hist, n) && GenuineList(hist, list)
    ensures GenuineNode(hist, ReceiveAll(n, list))
  {
    hide GenuineNode, Genuine, Receive;
    if list != [] {
      ReceiveAllGenuine(hist, n, list[..|list| - 1]);
      ReceiveGenuine(hist, ReceiveAll(n, list[..|list| - 1]), list[|list| - 1]);
    }
  }

  lemma ProcessGenuine(hist: map<nat, Origin>, n: Node<Stamped>, l: Packet.Lists<Stamped>)
    requires GenuineNode(hist, n) && GenuineLists(hist, l)
    ensures GenuineNode(hist, Process(n, l))
  {
    hide GenuineNode, GenuineList, ReceiveAll;
    ReceiveAllGenuine(hist, n, l.creates);
    var n1 := ReceiveAll(n, l.creates);
    ReceiveAllGenuine(hist, n1, l.updates);
    var n2 := ReceiveAll(n1, l.updates);
    ReceiveAllGenuine(hist, n2, l.summaries);
    var n3 := ReceiveAll(n2, l.summaries);
    ReceiveAllGenuine(hist, n3, l.createReqs);
    ReceiveAllGenuine(hist, ReceiveAll(n3, l.createReqs), l.updateReqs);
  }

  lemma GenuineFrom(hist: map<nat, Origin>, list: seq<IE<Stamped>>, q: seq<Queued<Stamped>>)
    requires From(list, q) && GenuineQueue(hist, q)
    ensures GenuineList(hist, list)
  {
    hide Genuine;
  }

  lemma GenuineKept(hist: map<nat, Origin>, q': seq<Queued<Stamped>>, q: seq<Queued<Stamped>>)
    requires Packing.Ies(q') <= Packing.Ies(q) && GenuineQueue(hist, q)
    ensures GenuineQueue(hist, q')
  {
    hide Genuine;
    forall i | 0 <= i < |q'| ensures Genuine(hist, q'[i].ie) {
      assert q'[i].ie in Packing.Ies(q');
    }
  }

  lemma BuildGenuine(hist: map<nat, Origin>, n: Node<Stamped>, initLen: nat)
    requires NodeOk(n) && GenuineNode(hist, n) && n.cfg.maxPacketSize < Packet.LEN_MODULUS
    ensures GenuineNode(hist, Build(n, initLen).0)
    ensures GenuineBeacon(hist, Packet.Write(Build(n, initLen).1))
  {
    hide NodeOk, GenuineQueue, GenuineDb, GenuineList, PlanOf, From, Packing.Ies, Packet.Parse, Packet.Write, Genuine;
    var (m, l) := Build(n, initLen);
    PlanKeeps(n, initLen);
    GenuineKept(hist, m.createQ, n.createQ);
    GenuineKept(hist, m.updateQ, n.updateQ);
    GenuineKept(hist, m.reqCreateQ, n.reqCreateQ);
    GenuineKept(hist, m.reqUpdateQ, n.reqUpdateQ);
    BuiltFrom(n, initLen);
    GenuineFrom(hist, l.creates, n.createQ);
    GenuineFrom(hist, l.updates, n.updateQ);
    GenuineFrom(hist, l.createReqs, n.reqCreateQ);
    GenuineFrom(hist, l.updateReqs, n.reqUpdateQ);
    SummariesGenuine(hist, n, l.summaries);
    BuiltIsReadBack(n, initLen);
  }

  lemma SummariesGenuine(hist: map<nat, Origin>, n: Node<Stamped>, list: seq<IE<Stamped>>)
    requires GenuineDb(hist, n.db)
    requires forall i :: 0 <= i < |list| ==>
               list[i].Summary? && list[i].sumId in n.db && list[i].sumSeqNo == n.db[list[i].sumId].seqNo
    ensures GenuineList(hist, list)
  {
    hide Genuine, GenuineDb;
    forall i | 0 <= i < |list| ensures Genuine(hist, list[i]) {
      VarIsGenuine(hist, n, list[i].sumId);
    }
  }

  // ---------- What reception never changes ----------

  // A node keeps its variables, and those it produces keep their values
  ghost predicate KeepsOwn(n: Node<Stamped>, m: Node<Stamped>) {
    && m.self == n.self && m.cfg == n.cfg
    && forall id :: id in n.db ==> id in m.db && (n.db[id].producer == n.self ==> m.db[id] == n.db[id])
  }

  lemma ReceiveKeepsOwn(n: Node<Stamped>, ie: IE<Stamped>)
    ensures KeepsOwn(n, Receive(n, ie))
  {
    hide RemoveId, SeqNoMoreRecent;
  }

  lemma {:induction false} ReceiveAllKeepsOwn(n: Node<Stamped>, list: seq<IE<Stamped>>)
    ensures KeepsOwn(n, ReceiveAll(n, list))
  {
    hide Receive;
    if list != [] {
      ReceiveAllKeepsOwn(n, list[..|list| - 1]);
      ReceiveKeepsOwn(ReceiveAll(n, list[..|list| - 1]), list[|list| - 1]);
    }
  }

  lemma ProcessKeepsOwn(n: Node<Stamped>, l: Packet.Lists<Stamped>)
    ensures KeepsOwn(n, Process(n, l))
  {
    hide ReceiveAll;
    ReceiveAllKeepsOwn(n, l.creates);
    var n1 := ReceiveAll(n, l.creates);
    ReceiveAllKeepsOwn(n1, l.updates);
    var n2 := ReceiveAll(n1, l.updates);
    ReceiveAllKeepsOwn(n2, l.summaries);
    var n3 := ReceiveAll(n2, l.summaries);
    ReceiveAllKeepsOwn(n3, l.createReqs);
    ReceiveAllKeepsOwn(ReceiveAll(n3, l.createReqs), l.updateReqs);
  }

  // ---------- Every step keeps the invariant of the network ----------

  ghost predicate SiteOk(hist: map<nat, Origin>, k: nat, n: Node<Stamped>) {
    n.self == k && NodeOk(n) && n.cfg.maxPacketSize < Packet.LEN_MODULUS && GenuineNode(hist, n)
  }

  lemma SitesGrow(net: Network, hist': map<nat, Origin>)
    requires NetOk(net) && Grown(net.hist, hist')
    ensures forall k :: k in net.nodes ==> SiteOk(hist', k, net.nodes[k])
    ensures forall b :: 0 <= b < |net.sent| ==> GenuineBeacon(hist', net.sent[b])
  {
    hide NodeOk, GenuineNode, GenuineBeacon, Grown;
    forall k | k in net.nodes ensures SiteOk(hist', k, net.nodes[k]) {
      GenuineNodeGrows(net.hist, hist', net.nodes[k]);
    }
    forall b | 0 <= b < |net.sent| ensures GenuineBeacon(hist', net.sent[b]) {
      GenuineBeaconGrows(net.hist, hist', net.sent[b]);
    }
  }

  lemma NetOkFrom(net: Network, net': Network, k: nat)
    requires NetOk(net) && Grown(net.hist, net'.hist) && k in net.nodes && k in net'.nodes
    requires net'.nodes == net.nodes[k := net'.nodes[k]]
    requires SiteOk(net'.hist, k, net'.nodes[k])
    requires forall b :: 0 <= b < |net'.sent| ==> GenuineBeacon(net'.hist, net'.sent[b])
    requires forall id :: id in net'.hist ==> ProducerOk(net', id)
    ensures NetOk(net')
  {
    hide NodeOk, GenuineNode, GenuineBeacon, Grown, ProducerOk;
    SitesGrow(net, net'.hist);
  }

  lemma SpecKnown(net: Network, k: nat, id: nat)
    requires NetOk(net) && k in net.nodes
    ensures net.nodes[k].self == k
    ensures id in net.nodes[k].db ==> id in net.hist && SpecOf(net.nodes[k].db[id]) == net.hist[id].spec
  {
    hide NodeOk, GenuineBeacon, GenuineQueue, ProducerOk, GenuineUpdate;
    if id in net.nodes[k].db {
      assert GenuineVar(net.hist, id, net.nodes[k].db[id]);
    }
  }

  lemma ProducersKept(net: Network, net': Network, k: nat)
    requires NetOk(net) && k in net.nodes && net'.hist == net.hist
    requires k in net'.nodes && net'.nodes == net.nodes[k := net'.nodes[k]] && KeepsOwn(net.nodes[k], net'.nodes[k])
    ensures forall id :: id in net'.hist ==> ProducerOk(net', id)
  {
    hide NodeOk, GenuineBeacon, GenuineNode;
    forall id | id in net'.hist ensures ProducerOk(net', id) {
      assert ProducerOk(net, id);
      if net.hist[id].spec.producer == k {
        SpecKnown(net, k, id);
      }
    }
  }

  lemma CreateStepOk(net: Network, e: Event)
    requires NetOk(net) && Allowed(net, e) && e.CreateRequest?
    ensures NetOk(Step(net, e))
  {
    hide NodeOk, GenuineBeacon, GenuineQueue, GenuineDb;
    var CreateRequest(k, id, descr, len, bytes, repCnt) := e;
    var n, net' := net.nodes[k], Step(net, e);
    var (m, rc) := ApiCreate(n, id, descr, len, Stamped(bytes, 0), repCnt);
    if rc == RC_OK {
      ApiCreateOk(n, id, descr, len, Stamped(bytes, 0), repCnt);
      assert id !in net.hist;
      assert Grown(net.hist, net'.hist);
      SitesGrow(net, net'.hist);
      assert SiteOk(net'.hist, k, n);
      var v := m.db[id];
      assert GenuineVar(net'.hist, id, v);
      GenuineDbUpdate(net'.hist, n.db, id, v);
      GenuineAppend(net'.hist, n.createQ, Queued(Create(SpecOf(v), UpdateOf(v)), repCnt), id);
      forall x | x in net'.hist ensures ProducerOk(net', x) {
        assert x != id ==> ProducerOk(net, x);
      }
      NetOkFrom(net, net', k);
    }
  }

  // An update at the producer yields a genuine value of the grown history
  lemma ApiUpdateGenuine(hist: map<nat, Origin>, hist': map<nat, Origin>, n: Node<Stamped>, id: nat, len: nat,
                         bytes: seq<nat>)
    requires GenuineNode(hist, n) && GenuineNode(hist', n) && id in hist && id in n.db
    requires n.db[id].data.upd == |hist[id].values| - 1
    requires hist' == hist[id := hist[id].(values := hist[id].values + [(len, bytes)])]
    ensures GenuineNode(hist', ApiUpdate(n, id, len, Stamped(bytes, |hist[id].values|)).0)
  {
    hide GenuineQueue, GenuineDb, RemoveId;
    var (m, rc) := ApiUpdate(n, id, len, Stamped(bytes, |hist[id].values|));
    if rc == RC_OK {
      VarIsGenuine(hist, n, id);
      NextSeqNoOf(|hist[id].values| - 1);
      var v := m.db[id];
      assert GenuineVar(hist', id, v);
      GenuineDbUpdate(hist', n.db, id, v);
      GenuineAppend(hist', n.updateQ, Queued(Update(UpdateOf(v).(id := id)), v.repCnt), id);
    }
  }

  lemma UpdateStepOk(net: Network, e: Event)
    requires NetOk(net) && Allowed(net, e) && e.UpdateRequest?
    ensures NetOk(Step(net, e))
  {
    hide NodeOk, GenuineBeacon, GenuineNode, RemoveId;
    var UpdateRequest(k, id, len, bytes) := e;
    var n, net' := net.nodes[k], Step(net, e);
    if net' != net {
      var o := net.hist[id];
      var d := Stamped(bytes, |o.values|);
      ApiUpdateOk(n, id, len, d);
      SpecKnown(net, k, id);
      assert ProducerOk(net, id);
      assert Grown(net.hist, net'.hist);
      SitesGrow(net, net'.hist);
      assert SiteOk(net'.hist, k, n);
      ApiUpdateGenuine(net.hist, net'.hist, n, id, len, bytes);
      forall x | x in net'.hist ensures ProducerOk(net', x) {
        assert ProducerOk(net, x);
      }
      NetOkFrom(net, net', k);
    }
  }

  lemma SendStepOk(net: Network, e: Event)
    requires NetOk(net) && Allowed(net, e) && e.SendBeacon?
    ensures NetOk(Step(net, e))
  {
    hide NodeOk, GenuineNode, GenuineBeacon, PlanOf, ListsOf;
    var SendBeacon(k, initLen) := e;
    var n, net' := net.nodes[k], Step(net, e);
    BuildOk(n, initLen);
    BuildGenuine(net.hist, n, initLen);
    assert KeepsOwn(n, Build(n, initLen).0);
    ProducersKept(net, net', k);
    NetOkFrom(net, net', k);
  }

  lemma DeliverStepOk(net: Network, e: Event)
    requires NetOk(net) && Allowed(net, e) && e.Deliver?
    ensures NetOk(Step(net, e))
  {
    hide NodeOk, GenuineNode, GenuineLists, Process, Packet.Parse, KeepsOwn;
    var Deliver(b, k) := e;
    var n, net' := net.nodes[k], Step(net, e);
    assert GenuineBeacon(net.hist, net.sent[b]);
    if Packet.Parse(net.sent[b]).Ok? {
      var l := Packet.Parse(net.sent[b]).value;
      ProcessOk(n, l);
      ProcessGenuine(net.hist, n, l);
      ProcessKeepsOwn(n, l);
      KeepsOwnSite(n, Process(n, l));
      ProducersKept(net, net', k);
      NetOkFrom(net, net', k);
    }
  }

  lemma KeepsOwnSite(n: Node<Stamped>, m: Node<Stamped>)
    requires KeepsOwn(n, m)
    ensures m.self == n.self && m.cfg == n.cfg
  {
  }

  lemma StepOk(net: Network, e: Event)
    requires NetOk(net) && Allowed(net, e)
    ensures NetOk(Step(net, e))
  {
    hide NetOk, Step;
    match e
    case CreateRequest(_, _, _, _, _, _) => CreateStepOk(net, e);
    case UpdateRequest(_, _, _, _) => UpdateStepOk(net, e);
    case SendBeacon(_, _) => SendStepOk(net, e);
    case Deliver(_, _) => DeliverStepOk(net, e);
  }

  ghost predicate ConfigsOk(cfgs: map<nat, Config>) {
    forall k :: k in cfgs ==> cfgs[k].maxPacketSize < Packet.LEN_MODULUS
  }

  lemma AllowedPrefix(cfgs: map<nat, Config>, events: seq<Event>, n: nat)
    requires AllAllowed(cfgs, events) && n <= |events|
    ensures AllAllowed(cfgs, events[..n])
  {
    hide Allowed, Run;
    forall i | 0 <= i < n ensures Allowed(Run(cfgs, events[..n][..i]), events[..n][i]) {
      assert events[..n][..i] == events[..i];
    }
  }

  // In every run with one creator per variable, whatever is lost, duplicated or reordered, every value with a
  // sequence number in any database, queue or beacon is one that its producer held under that number
  lemma {:induction false} EverythingIsGenuine(cfgs: map<nat, Config>, events: seq<Event>)
    requires ConfigsOk(cfgs) && AllAllowed(cfgs, events)
    ensures NetOk(Run(cfgs, events))
  {
    hide NetOk, Step, Allowed;
    if events == [] {
      StartOk(cfgs);
    } else {
      var n := |events| - 1;
      AllowedPrefix(cfgs, events, n);
      EverythingIsGenuine(cfgs, events[..n]);
      StepOk(Run(cfgs, events[..n]), events[n]);
    }
  }

  // In every reachable state the summary queue of every node lists each variable of its database once, no variable is
  // marked for deletion, and so building a beacon never reads the front of an empty queue
  lemma SummaryQueueListsDatabase(cfgs: map<nat, Config>, events: seq<Event>, k: nat)
    requires ConfigsOk(cfgs) && AllAllowed(cfgs, events)
    ensures var net := Run(cfgs, events);
            k in net.nodes ==>
              var n := net.nodes[k];
              && Rounds.Distinct(n.summaryQ) && |n.summaryQ| == |n.db|
              && (forall x :: x in n.summaryQ <==> x in n.db)
              && (forall x :: x in n.db ==> !n.db[x].toBeDeleted)
              && (forall slots: int, room: int, stop: bool :: !Rounds.Starves(n.db, n.summaryQ, slots, room, stop))
  {
    hide Run, CreatesOk, UpdatesOk, RequestsOk, GenuineNode;
    EverythingIsGenuine(cfgs, events);
    var net := Run(cfgs, events);
    if k in net.nodes {
      var n := net.nodes[k];
      assert NodeOk(n);
      Rounds.AsManyAsListed(n.summaryQ, n.db.Keys);
      if n.summaryQ != [] {
        assert n.summaryQ[0] in n.summaryQ && !DropNonExistent(n.db, n.summaryQ[0]);
      }
    }
  }

  // In every reachable state all nodes that know a variable agree with its producer on who that is, on the description and
  // on the number of repetitions, and the producer knows it
  lemma SpecificationsAgree(cfgs: map<nat, Config>, events: seq<Event>, k: nat, id: nat)
    requires ConfigsOk(cfgs) && AllAllowed(cfgs, events)
    ensures var net := Run(cfgs, events);
            k in net.nodes && id in net.nodes[k].db ==>
              var v := net.nodes[k].db[id];
              && v.id == id && v.producer in net.nodes && id in net.nodes[v.producer].db
              && var w := net.nodes[v.producer].db[id];
                 w.producer == v.producer && w.descr == v.descr && w.repCnt == v.repCnt
  {
    hide Run, AllAllowed, NetOk;
    EverythingIsGenuine(cfgs, events);
    var net := Run(cfgs, events);
    if k in net.nodes && id in net.nodes[k].db {
      SpecKnown(net, k, id);
      HasProducer(net, id);
      SpecKnown(net, net.hist[id].spec.producer, id);
    }
  }

  lemma HasProducer(net: Network, id: nat)
    requires NetOk(net) && id in net.hist
    ensures ProducerOk(net, id)
  {
    hide NodeOk, GenuineNode, GenuineBeacon, ProducerOk;
  }

  lemma StartOk(cfgs: map<nat, Config>)
    requires ConfigsOk(cfgs)
    ensures NetOk(Start(cfgs))
  {
  }
}
