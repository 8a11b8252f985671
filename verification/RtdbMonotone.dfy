/**
 Records in the network never go back. Sequence numbers have eight bits, so a very old record can be taken for
 a new one; as long as no record is delivered to a node that is more than 127 updates ahead of it, no record
 of a node ever goes back to an earlier update or gets ahead of the producer, and applications are told about
 each variable a bounded number of times.
 */
module RtdbMonotone {
  import opened RtdbTypes
  import opened RtdbSerial
  import opened RtdbNode
  import opened RtdbNetwork
  import Packet = RtdbPacket

  const WINDOW := 127

  // When an element is an update of a known variable of another producer, the record it is compared with is
  // at most WINDOW updates ahead
  ghost predicate NotTooOld(n: Node<Stamped>, ie: IE<Stamped>) {
    ie.Update? && ie.upd.id in n.db && n.db[ie.upd.id].producer != n.self ==>
      n.db[ie.upd.id].data.upd <= ie.upd.data.upd + WINDOW
  }

  ghost predicate NoneTooOld(n: Node<Stamped>, list: seq<IE<Stamped>>) {
    forall i :: 0 <= i < |list| ==> NotTooOld(ReceiveAll(n, list[..i]), list[i])
  }

  ghost predicate Timely(net: Network, e: Event) {
    e.Deliver? && e.to in net.nodes && e.beacon < |net.sent| && Packet.Parse(net.sent[e.beacon]).Ok? ==>
      var l := Packet.Parse(net.sent[e.beacon]).value;
      NoneTooOld(ReceiveAll(net.nodes[e.to], l.creates), l.updates)
  }

  ghost predicate AllTimely(cfgs: map<nat, Config>, events: seq<Event>) {
    forall i :: 0 <= i < |events| ==> Timely(Run(cfgs, events[..i]), events[i])
  }

  // ---------- One element ----------

  // Within the window an update is accepted exactly when it is newer
  lemma AcceptedIffNewer(m: nat, n: nat)
    requires m <= n + WINDOW
    ensures SeqNoMoreRecent(SeqNoOf(m), SeqNoOf(n)) ==> m < n
    ensures m < n <= m + 126 ==> SeqNoMoreRecent(SeqNoOf(m), SeqNoOf(n))
  {
    MoreRecentExactly(m, n);
  }

  // How often the application has been told about a variable
  function ToldOf(told: seq<Indication<Stamped>>, id: nat): nat {
    if told == [] then 0
    else ToldOf(told[..|told| - 1], id) + if told[|told| - 1].id == id then 1 else 0
  }

  lemma ToldAppend(told: seq<Indication<Stamped>>, x: Indication<Stamped>, id: nat)
    ensures ToldOf(told + [x], id) == ToldOf(told, id) + if x.id == id then 1 else 0
  {
    assert (told + [x])[..|told|] == told;
  }

  // Never back: every variable stays and its record does not get older
  ghost predicate NoOlder(n: Node<Stamped>, m: Node<Stamped>) {
    forall id :: id in n.db ==>
      && id in m.db && n.db[id].data.upd <= m.db[id].data.upd && m.db[id].producer == n.db[id].producer
  }

  // What the application may have been told at most
  function Allowance(n: Node<Stamped>, id: nat): nat {
    if id in n.db && n.db[id].producer != n.self then n.db[id].data.upd + 1 else 0
  }

  ghost predicate ToldWithin(n: Node<Stamped>) {
    forall id :: ToldOf(n.told, id) <= Allowance(n, id)
  }

  // From one state of a node to a later one: nothing gets older, and what the application is told in between
  // is paid for by progress of the record
  ghost predicate Advances(n: Node<Stamped>, m: Node<Stamped>) {
    && m.self == n.self && NoOlder(n, m)
    && (ToldWithin(n) ==> ToldWithin(m))
  }

  lemma AdvancesOn(a: Node<Stamped>, b: Node<Stamped>, c: Node<Stamped>)
    requires Advances(a, b) && Advances(b, c)
    ensures Advances(a, c)
  {
    hide ToldWithin;
  }

  lemma AdvancesSame(n: Node<Stamped>, m: Node<Stamped>)
    requires m.self == n.self && m.db == n.db && m.told == n.told
    ensures Advances(n, m)
  {
  }

  // A received create is one of another node: whoever produces a variable knows it
  ghost predicate ForeignIfNew(n: Node<Stamped>, ie: IE<Stamped>) {
    ie.Create? && ie.spec.id !in n.db ==> ie.spec.producer != n.self
  }

  lemma CreateAdvances(n: Node<Stamped>, ie: IE<Stamped>)
    requires ie.Create? && ForeignIfNew(n, ie)
    ensures Advances(n, ReceiveCreate(n, ie))
  {
    hide RemoveId, ToldOf;
    var m := ReceiveCreate(n, ie);
    var id := ie.spec.id;
    if id !in n.db && ToldWithin(n) {
      forall x ensures ToldOf(m.told, x) <= Allowance(m, x) {
        ToldAppend(n.told, Indication(id, ie.update.len, ie.update.data), x);
        assert ToldOf(n.told, x) <= Allowance(n, x);
      }
    }
  }

  lemma UpdateAdvances(hist: map<nat, Origin>, n: Node<Stamped>, ie: IE<Stamped>)
    requires ie.Update? && GenuineNode(hist, n) && Genuine(hist, ie) && NotTooOld(n, ie)
    ensures Advances(n, ReceiveUpdate(n, ie))
  {
    hide RemoveId, ToldOf, GenuineQueue, SeqNoMoreRecent, SeqNoOf;
    var m := ReceiveUpdate(n, ie);
    var id := ie.upd.id;
    if id in n.db && m.db != n.db {
      VarIsGenuine(hist, n, id);
      AcceptedIffNewer(n.db[id].data.upd, ie.upd.data.upd);
      if ToldWithin(n) {
        forall x ensures ToldOf(m.told, x) <= Allowance(m, x) {
          ToldAppend(n.told, Indication(id, ie.upd.len, ie.upd.data), x);
          assert ToldOf(n.told, x) <= Allowance(n, x);
        }
      }
    } else if id in n.db {
      AcceptedChanges(n, ie);
      AdvancesSame(n, m);
    } else {
      AdvancesSame(n, m);
    }
  }

  // An accepted update changes the database, since its sequence number is a different one
  lemma AcceptedChanges(n: Node<Stamped>, ie: IE<Stamped>)
    requires ie.Update? && ie.upd.id in n.db
    ensures ReceiveUpdate(n, ie) == n || ReceiveUpdate(n, ie).db != n.db
  {
    var v := n.db[ie.upd.id];
    if !v.toBeDeleted && v.producer != n.self && SeqNoMoreRecent(v.seqNo, ie.upd.seqNo) {
      assert ReceiveUpdate(n, ie).db[ie.upd.id].seqNo != v.seqNo;
    }
  }

  lemma ElementAdvances(hist: map<nat, Origin>, n: Node<Stamped>, ie: IE<Stamped>)
    requires GenuineNode(hist, n) && Genuine(hist, ie) && NotTooOld(n, ie) && ForeignIfNew(n, ie)
    ensures Advances(n, Receive(n, ie))
  {
    hide RemoveId, Advances, GenuineNode, Genuine, NotTooOld, ReceiveCreate, ReceiveUpdate;
    match ie
    case Create(_, _) => CreateAdvances(n, ie);
    case Update(_) => UpdateAdvances(hist, n, ie);
    case Summary(_, _) => AdvancesSame(n, Receive(n, ie));
    case ReqCreate(_) => AdvancesSame(n, Receive(n, ie));
    case ReqUpdate(_, _) => AdvancesSame(n, Receive(n, ie));
  }

  // Whoever produces a variable of the history knows it
  ghost predicate KnowsOwn(hist: map<nat, Origin>, n: Node<Stamped>) {
    forall id :: id in hist && hist[id].spec.producer == n.self ==> id in n.db
  }

  lemma KnowsOwnMeans(hist: map<nat, Origin>, n: Node<Stamped>, ie: IE<Stamped>)
    requires KnowsOwn(hist, n) && Genuine(hist, ie)
    ensures ForeignIfNew(n, ie)
  {
  }

  lemma KnowsOwnStays(hist: map<nat, Origin>, n: Node<Stamped>, m: Node<Stamped>)
    requires KnowsOwn(hist, n) && KeepsOwn(n, m)
    ensures KnowsOwn(hist, m)
  {
  }

  lemma AdvancesNot(n: Node<Stamped>)
    ensures Advances(n, n)
  {
  }

  lemma {:induction false} ListAdvances(hist: map<nat, Origin>, n: Node<Stamped>, list: seq<IE<Stamped>>)
    requires GenuineNode(hist, n) && GenuineList(hist, list) && KnowsOwn(hist, n) && NoneTooOld(n, list)
    ensures Advances(n, ReceiveAll(n, list))
  {
    hide GenuineNode, Genuine, Receive, NotTooOld, Advances, KnowsOwn, KeepsOwn;
    if list == [] {
      AdvancesNot(n);
    } else {
      var k := |list| - 1;
      var m := ReceiveAll(n, list[..k]);
      assert NoneTooOld(n, list[..k]) by {
        forall i | 0 <= i < k ensures NotTooOld(ReceiveAll(n, list[..k][..i]), list[..k][i]) {
          assert list[..k][..i] == list[..i];
        }
      }
      ListAdvances(hist, n, list[..k]);
      ReceiveAllGenuine(hist, n, list[..k]);
      ReceiveAllKeepsOwn(n, list[..k]);
      KnowsOwnStays(hist, n, m);
      KnowsOwnMeans(hist, m, list[k]);
      ElementAdvances(hist, m, list[k]);
      AdvancesOn(n, m, Receive(m, list[k]));
    }
  }

  ghost predicate NoUpdates(list: seq<IE<Stamped>>) {
    forall i :: 0 <= i < |list| ==> !list[i].Update?
  }

  lemma NoUpdatesNoneTooOld(n: Node<Stamped>, list: seq<IE<Stamped>>)
    requires NoUpdates(list)
    ensures NoneTooOld(n, list)
  {
    hide ReceiveAll;
  }

  lemma ListStep(hist: map<nat, Origin>, n: Node<Stamped>, list: seq<IE<Stamped>>)
    requires GenuineNode(hist, n) && GenuineList(hist, list) && KnowsOwn(hist, n) && NoneTooOld(n, list)
    ensures var m := ReceiveAll(n, list);
            Advances(n, m) && GenuineNode(hist, m) && KnowsOwn(hist, m)
  {
    hide GenuineNode, GenuineList, NoneTooOld, Advances, KnowsOwn, KeepsOwn, ReceiveAll;
    ListAdvances(hist, n, list);
    ReceiveAllGenuine(hist, n, list);
    ReceiveAllKeepsOwn(n, list);
    KnowsOwnStays(hist, n, ReceiveAll(n, list));
  }

  // Processing a whole beacon
  lemma ProcessAdvances(hist: map<nat, Origin>, n: Node<Stamped>, l: Packet.Lists<Stamped>)
    requires GenuineNode(hist, n) && GenuineLists(hist, l) && KnowsOwn(hist, n)
    requires NoUpdates(l.creates) && NoUpdates(l.summaries) && NoUpdates(l.createReqs) && NoUpdates(l.updateReqs)
    requires NoneTooOld(ReceiveAll(n, l.creates), l.updates)
    ensures Advances(n, Process(n, l))
  {
    hide GenuineNode, GenuineList, NoneTooOld, NoUpdates, Advances, KnowsOwn, ReceiveAll;
    NoUpdatesNoneTooOld(n, l.creates);
    ListStep(hist, n, l.creates);
    var n1 := ReceiveAll(n, l.creates);
    ListStep(hist, n1, l.updates);
    var n2 := ReceiveAll(n1, l.updates);
    NoUpdatesNoneTooOld(n2, l.summaries);
    ListStep(hist, n2, l.summaries);
    var n3 := ReceiveAll(n2, l.summaries);
    NoUpdatesNoneTooOld(n3, l.createReqs);
    ListStep(hist, n3, l.createReqs);
    var n4 := ReceiveAll(n3, l.createReqs);
    NoUpdatesNoneTooOld(n4, l.updateReqs);
    ListStep(hist, n4, l.updateReqs);
    AdvancesOn(n, n1, n2);
    AdvancesOn(n, n2, n3);
    AdvancesOn(n, n3, n4);
    AdvancesOn(n, n4, ReceiveAll(n4, l.updateReqs));
  }

  // What a successful reading yields is sorted by type
  lemma ParsedTypes(p: seq<Packet.Chunk<Stamped>>)
    requires Packet.Parse(p).Ok?
    ensures var l := Packet.Parse(p).value;
            NoUpdates(l.creates) && NoUpdates(l.summaries) && NoUpdates(l.createReqs) && NoUpdates(l.updateReqs)
  {
    hide Packet.ReadSections;
    var c := Packet.PopHeader(p).value;
    var r := Packet.ReadSections(Packet.ORDER, c).value;
    Packet.ReadSectionsTyped(Packet.ORDER, c);
    assert Packet.AllOf(Packet.ORDER[0], r.0[0]) && Packet.AllOf(Packet.ORDER[2], r.0[2]);
    assert Packet.AllOf(Packet.ORDER[3], r.0[3]) && Packet.AllOf(Packet.ORDER[4], r.0[4]);
  }

  // ---------- Steps and runs ----------

  ghost predicate NetAdvances(net: Network, net': Network) {
    && net'.nodes.Keys == net.nodes.Keys
    && forall k :: k in net.nodes ==> Advances(net.nodes[k], net'.nodes[k])
  }

  lemma NodeAdvances(net: Network, net': Network, k: nat)
    requires k in net.nodes && k in net'.nodes && net'.nodes == net.nodes[k := net'.nodes[k]]
    requires Advances(net.nodes[k], net'.nodes[k])
    ensures NetAdvances(net, net')
  {
    hide Advances;
    forall x | x in net.nodes ensures Advances(net.nodes[x], net'.nodes[x]) {
      AdvancesNot(net.nodes[x]);
    }
  }

  lemma NothingChanges(net: Network, net': Network)
    requires net'.nodes == net.nodes
    ensures NetAdvances(net, net')
  {
    hide Advances;
    forall x | x in net.nodes ensures Advances(net.nodes[x], net'.nodes[x]) {
      AdvancesNot(net.nodes[x]);
    }
  }

  lemma OwnVariablesKnown(net: Network, k: nat)
    requires NetOk(net) && k in net.nodes
    ensures KnowsOwn(net.hist, net.nodes[k])
  {
    hide NodeOk, GenuineNode, GenuineBeacon;
    forall id | id in net.hist && net.hist[id].spec.producer == net.nodes[k].self ensures id in net.nodes[k].db {
      assert ProducerOk(net, id);
    }
  }

  lemma ApiCreateAdvances(n: Node<Stamped>, id: nat, descr: string, len: nat, bytes: seq<nat>, repCnt: nat)
    ensures Advances(n, ApiCreate(n, id, descr, len, Stamped(bytes, 0), repCnt).0)
  {
    hide ToldOf;
  }

  lemma ApiUpdateAdvances(n: Node<Stamped>, id: nat, len: nat, data: Stamped)
    requires id in n.db && n.db[id].producer == n.self ==> n.db[id].data.upd <= data.upd
    ensures Advances(n, ApiUpdate(n, id, len, data).0)
  {
    hide ToldOf, RemoveId;
  }

  // The producer holds the last of all values, so its next one is newer
  lemma OwnIsLast(net: Network, k: nat, id: nat)
    requires NetOk(net) && k in net.nodes && id in net.hist
    ensures var n := net.nodes[k];
            id in n.db && n.db[id].producer == n.self ==> n.db[id].data.upd <= |net.hist[id].values|
  {
    hide NodeOk, GenuineNode, GenuineBeacon;
    SpecKnown(net, k, id);
    assert ProducerOk(net, id);
  }

  lemma OwnRequestAdvances(net: Network, e: Event)
    requires NetOk(net) && Allowed(net, e) && (e.CreateRequest? || e.UpdateRequest?)
    ensures NetAdvances(net, Step(net, e))
  {
    hide NetOk, ApiCreate, ApiUpdate, Advances, NetAdvances;
    var net', n := Step(net, e), net.nodes[e.node];
    if net'.nodes == net.nodes {
      NothingChanges(net, net');
    } else {
      if e.CreateRequest? {
        ApiCreateAdvances(n, e.id, e.descr, e.len, e.bytes, e.repCnt);
      } else {
        OwnIsLast(net, e.node, e.id);
        ApiUpdateAdvances(n, e.id, e.len, Stamped(e.bytes, |net.hist[e.id].values|));
      }
      NodeAdvances(net, net', e.node);
    }
  }

  lemma DeliverAdvances(net: Network, e: Event)
    requires NetOk(net) && Allowed(net, e) && e.Deliver? && Timely(net, e)
    ensures NetAdvances(net, Step(net, e))
  {
    hide NodeOk, GenuineNode, GenuineLists, Advances, NetAdvances, Packet.Parse, Process, NoneTooOld, NoUpdates,
      ReceiveAll, ProducerOk, KnowsOwn;
    var Deliver(b, k) := e;
    var n, net' := net.nodes[k], Step(net, e);
    assert GenuineBeacon(net.hist, net.sent[b]);
    if Packet.Parse(net.sent[b]).Ok? {
      var l := Packet.Parse(net.sent[b]).value;
      ParsedTypes(net.sent[b]);
      OwnVariablesKnown(net, k);
      ProcessAdvances(net.hist, n, l);
      NodeAdvances(net, net', k);
    } else {
      NothingChanges(net, net');
    }
  }

  lemma StepAdvances(net: Network, e: Event)
    requires NetOk(net) && Allowed(net, e) && Timely(net, e)
    ensures NetAdvances(net, Step(net, e))
  {
    hide NetOk, Advances, NetAdvances, Timely, PlanOf, ListsOf;
    match e
    case CreateRequest(_, _, _, _, _, _) => OwnRequestAdvances(net, e);
    case UpdateRequest(_, _, _, _) => OwnRequestAdvances(net, e);
    case SendBeacon(k, initLen) =>
      AdvancesSame(net.nodes[k], Build(net.nodes[k], initLen).0);
      NodeAdvances(net, Step(net, e), k);
    case Deliver(_, _) => DeliverAdvances(net, e);
  }

  lemma NetAdvancesOn(a: Network, b: Network, c: Network)
    requires NetAdvances(a, b) && NetAdvances(b, c)
    ensures NetAdvances(a, c)
  {
    hide Advances;
    forall k | k in a.nodes ensures Advances(a.nodes[k], c.nodes[k]) {
      AdvancesOn(a.nodes[k], b.nodes[k], c.nodes[k]);
    }
  }

  // From any point of a run to any later one, no node loses a variable or goes back to an earlier update of it
  lemma {:induction false} NeverBack(cfgs: map<nat, Config>, events: seq<Event>, from: nat)
    requires ConfigsOk(cfgs) && AllAllowed(cfgs, events) && AllTimely(cfgs, events) && from <= |events|
    ensures NetAdvances(Run(cfgs, events[..from]), Run(cfgs, events))
    decreases |events|
  {
    hide Step, Allowed, Timely, NetOk, NetAdvances;
    if from == |events| {
      assert events[..from] == events;
      NothingChanges(Run(cfgs, events), Run(cfgs, events));
    } else {
      var n := |events| - 1;
      AllowedPrefix(cfgs, events, n);
      TimelyPrefix(cfgs, events, n);
      NeverBack(cfgs, events[..n], from);
      assert events[..n][..from] == events[..from];
      EverythingIsGenuine(cfgs, events[..n]);
      StepAdvances(Run(cfgs, events[..n]), events[n]);
      NetAdvancesOn(Run(cfgs, events[..from]), Run(cfgs, events[..n]), Run(cfgs, events));
    }
  }

  lemma TimelyPrefix(cfgs: map<nat, Config>, events: seq<Event>, n: nat)
    requires AllTimely(cfgs, events) && n <= |events|
    ensures AllTimely(cfgs, events[..n])
  {
    hide Timely, Run;
    forall i | 0 <= i < n ensures Timely(Run(cfgs, events[..n][..i]), events[..n][i]) {
      assert events[..n][..i] == events[..i];
    }
  }

  // Whoever has a record of a variable has one that is not ahead of its producer's, the last of all values
  ghost predicate NoneAhead(net: Network) {
    forall k, id :: k in net.nodes && id in net.nodes[k].db ==>
      && id in net.hist
      && net.hist[id].spec.producer in net.nodes
      && id in net.nodes[net.hist[id].spec.producer].db
      && net.nodes[k].db[id].data.upd
         <= net.nodes[net.hist[id].spec.producer].db[id].data.upd == |net.hist[id].values| - 1
  }

  // No record is ever ahead of its producer
  lemma NeverAhead(cfgs: map<nat, Config>, events: seq<Event>)
    requires ConfigsOk(cfgs) && AllAllowed(cfgs, events)
    ensures NoneAhead(Run(cfgs, events))
  {
    hide Run, NodeOk, GenuineBeacon, GenuineQueue;
    EverythingIsGenuine(cfgs, events);
    var net := Run(cfgs, events);
    forall k, id | k in net.nodes && id in net.nodes[k].db
      ensures && id in net.hist
              && net.hist[id].spec.producer in net.nodes
              && id in net.nodes[net.hist[id].spec.producer].db
              && net.nodes[k].db[id].data.upd
                 <= net.nodes[net.hist[id].spec.producer].db[id].data.upd == |net.hist[id].values| - 1
    {
      assert GenuineVar(net.hist, id, net.nodes[k].db[id]);
      assert ProducerOk(net, id);
    }
  }

  // ---------- Indications ----------

  function TotalTold(net: Network, ks: seq<nat>, id: nat): nat
    requires forall i :: 0 <= i < |ks| ==> ks[i] in net.nodes
  {
    if ks == [] then 0 else ToldOf(net.nodes[ks[0]].told, id) + TotalTold(net, ks[1..], id)
  }

  lemma {:induction false} TotalToldBound(net: Network, ks: seq<nat>, id: nat, bound: nat, producer: nat)
    requires forall i :: 0 <= i < |ks| ==> ks[i] in net.nodes
    requires forall k :: k in net.nodes ==> ToldOf(net.nodes[k].told, id) <= if k == producer then 0 else bound
    ensures TotalTold(net, ks, id) <= bound * |ks|
    ensures producer in ks ==> TotalTold(net, ks, id) <= bound * (|ks| - 1)
  {
    hide ToldOf;
    if ks != [] {
      TotalToldBound(net, ks[1..], id, bound, producer);
      assert bound * |ks| == bound * (|ks| - 1) + bound;
      if producer in ks[1..] {
        assert bound * (|ks| - 1) == bound * (|ks[1..]| - 1) + bound;
      }
    }
  }

  lemma {:induction false} ToldWithinAlways(cfgs: map<nat, Config>, events: seq<Event>, k: nat)
    requires ConfigsOk(cfgs) && AllAllowed(cfgs, events) && AllTimely(cfgs, events) && k in cfgs
    ensures k in Run(cfgs, events).nodes && ToldWithin(Run(cfgs, events).nodes[k])
  {
    assert events[..0] == [];
    NeverBack(cfgs, events, 0);
    var start := Run(cfgs, []);
    assert k in start.nodes && ToldWithin(start.nodes[k]);
    assert Advances(start.nodes[k], Run(cfgs, events).nodes[k]);
  }

  // After U updates of a variable the nodes other than its producer, N - 1 of them, have told their
  // applications about it at most (N - 1) * (U + 1) times altogether, and the producer never
  lemma BoundedIndications(cfgs: map<nat, Config>, events: seq<Event>, ks: seq<nat>, id: nat)
    requires ConfigsOk(cfgs) && AllAllowed(cfgs, events) && AllTimely(cfgs, events)
    requires forall i :: 0 <= i < |ks| ==> ks[i] in cfgs
    ensures forall i :: 0 <= i < |ks| ==> ks[i] in Run(cfgs, events).nodes
    ensures var net := Run(cfgs, events);
            id in net.hist && net.hist[id].spec.producer in ks ==>
              var updates := |net.hist[id].values| - 1;
              && TotalTold(net, ks, id) <= (updates + 1) * (|ks| - 1)
              && ToldOf(net.nodes[net.hist[id].spec.producer].told, id) == 0
  {
    hide Run, ToldOf, NodeOk, GenuineBeacon, GenuineQueue, AllAllowed, AllTimely, ConfigsOk;
    EverythingIsGenuine(cfgs, events);
    NeverAhead(cfgs, events);
    NodesOfRun(cfgs, events);
    var net := Run(cfgs, events);
    if id in net.hist && net.hist[id].spec.producer in ks {
      var o := net.hist[id];
      forall k | k in net.nodes ensures ToldOf(net.nodes[k].told, id) <= if k == o.spec.producer then 0 else |o.values| {
        ToldWithinAlways(cfgs, events, k);
        assert ToldOf(net.nodes[k].told, id) <= Allowance(net.nodes[k], id);
        if id in net.nodes[k].db {
          SpecKnown(net, k, id);
        }
      }
      TotalToldBound(net, ks, id, |o.values|, o.spec.producer);
    }
  }

  lemma {:induction false} NodesOfRun(cfgs: map<nat, Config>, events: seq<Event>)
    ensures Run(cfgs, events).nodes.Keys == cfgs.Keys
  {
    hide ApiCreate, ApiUpdate, Build, Process, Packet.Parse;
    if events != [] {
      NodesOfRun(cfgs, events[..|events| - 1]);
    }
  }

  // ---------- Outside the window ----------

  // A received update takes a record back exactly when it is older and its number is 1 to 127 steps ahead on
  // the circle of 256, a step across zero counting twice; 129 updates are always enough for that
  lemma GoesBackExactly(hist: map<nat, Origin>, n: Node<Stamped>, ie: IE<Stamped>)
    requires NodeOk(n) && GenuineNode(hist, n) && Genuine(hist, ie) && ie.Update? && ie.upd.id in n.db
    requires n.db[ie.upd.id].producer != n.self
    ensures var ours, theirs := n.db[ie.upd.id].data.upd, ie.upd.data.upd;
            var r := (theirs - ours) % 255;
            && (Receive(n, ie).db[ie.upd.id].data.upd < ours <==>
                  theirs < ours && 0 < r && r + (if SeqNoOf(ours) + r > 255 then 1 else 0) <= 127)
            && (ours == theirs + 129 ==> Receive(n, ie).db[ie.upd.id].data.upd == theirs)
  {
    hide GenuineQueue, CreatesOk, UpdatesOk, SummariesOk, RequestsOk, RemoveId, SeqNoMoreRecent, SeqNoOf;
    VarIsGenuine(hist, n, ie.upd.id);
    MoreRecentExactly(n.db[ie.upd.id].data.upd, ie.upd.data.upd);
    StaleTakenForNew(ie.upd.data.upd);
  }

  // ---------- Progress ----------

  // At most 126 updates apart, a received update leaves the node with the newer of the two values
  lemma NewerValueWins(hist: map<nat, Origin>, n: Node<Stamped>, ie: IE<Stamped>)
    requires NodeOk(n) && GenuineNode(hist, n) && Genuine(hist, ie) && ie.Update? && ie.upd.id in n.db
    requires n.db[ie.upd.id].producer != n.self
    requires -126 <= ie.upd.data.upd - n.db[ie.upd.id].data.upd <= 126
    ensures var id := ie.upd.id;
            Receive(n, ie).db[id].data ==
            if ie.upd.data.upd > n.db[id].data.upd then ie.upd.data else n.db[id].data
  {
    hide GenuineQueue, CreatesOk, UpdatesOk, SummariesOk, RequestsOk, RemoveId, SeqNoMoreRecent, SeqNoOf;
    VarIsGenuine(hist, n, ie.upd.id);
    MoreRecentWithinWindow(n.db[ie.upd.id].data.upd, ie.upd.data.upd);
  }
}
