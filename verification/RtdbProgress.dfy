/**
 What one exchange of a beacon brings about: after it the receiver knows every variable the beacon creates and is at
 least as up to date as the sender on every variable the beacon updates, provided the receiver is not more than 126
 updates behind, beyond which eight-bit sequence numbers cannot tell.
 */
module RtdbProgress {
  import opened Wrappers
  import opened RtdbTypes
  import opened RtdbSerial
  import opened RtdbNode
  import opened RtdbNetwork
  import opened RtdbMonotone
  import Packet = RtdbPacket
  import Packing = RtdbPacking

  // The node has another node's variable, and is at most 126 updates behind the value
  ghost predicate InReach(n: Node<Stamped>, u: VarUpdate<Stamped>) {
    && u.id in n.db && n.db[u.id].producer != n.self
    && u.data.upd <= n.db[u.id].data.upd + 126
  }

  ghost predicate AtLeast(n: Node<Stamped>, id: nat, upd: nat) {
    id in n.db && upd <= n.db[id].data.upd
  }

  lemma AtLeastStays(n: Node<Stamped>, m: Node<Stamped>, id: nat, upd: nat)
    requires AtLeast(n, id, upd) && Advances(n, m)
    ensures AtLeast(m, id, upd)
  {
  }

  lemma UpdateLearned(hist: map<nat, Origin>, n: Node<Stamped>, ie: IE<Stamped>)
    requires NodeOk(n) && GenuineNode(hist, n) && Genuine(hist, ie) && ie.Update? && InReach(n, ie.upd) && NotTooOld(n, ie)
    ensures AtLeast(Receive(n, ie), ie.upd.id, ie.upd.data.upd)
  {
    hide GenuineQueue, CreatesOk, UpdatesOk, SummariesOk, RequestsOk, RemoveId, SeqNoMoreRecent, SeqNoOf;
    VarIsGenuine(hist, n, ie.upd.id);
    AcceptedIffNewer(n.db[ie.upd.id].data.upd, ie.upd.data.upd);
  }

  // ---------- One list of updates ----------

  lemma NoneTooOldPrefix(n: Node<Stamped>, list: seq<IE<Stamped>>, k: nat)
    requires NoneTooOld(n, list) && k <= |list|
    ensures NoneTooOld(n, list[..k])
  {
    hide NotTooOld, ReceiveAll;
    forall i | 0 <= i < k ensures NotTooOld(ReceiveAll(n, list[..k][..i]), list[..k][i]) {
      assert list[..k][..i] == list[..i];
    }
  }

  lemma {:induction false} LearnsFromList(hist: map<nat, Origin>, n: Node<Stamped>, list: seq<IE<Stamped>>, i: nat)
    requires NodeOk(n) && GenuineNode(hist, n) && GenuineList(hist, list) && KnowsOwn(hist, n) && NoneTooOld(n, list)
    requires i < |list| && list[i].Update? && InReach(ReceiveAll(n, list[..i]), list[i].upd)
    ensures AtLeast(ReceiveAll(n, list), list[i].upd.id, list[i].upd.data.upd)
  {
    hide NodeOk, GenuineNode, Genuine, Receive, NotTooOld, Advances, KnowsOwn, KeepsOwn, InReach, AtLeast;
    var k := |list| - 1;
    var m := ReceiveAll(n, list[..k]);
    assert NotTooOld(m, list[k]);
    NoneTooOldPrefix(n, list, k);
    ListStep(hist, n, list[..k]);
    if i == k {
      ReceiveAllOk(n, list[..k]);
      UpdateLearned(hist, m, list[k]);
    } else {
      assert list[..k][..i] == list[..i];
      LearnsFromList(hist, n, list[..k], i);
      KnowsOwnMeans(hist, m, list[k]);
      ElementAdvances(hist, m, list[k]);
      AtLeastStays(m, Receive(m, list[k]), list[i].upd.id, list[i].upd.data.upd);
    }
  }

  // A create makes the variable known, whether it was known before or not
  lemma {:induction false} LearnsVariable(n: Node<Stamped>, list: seq<IE<Stamped>>, i: nat)
    requires i < |list| && list[i].Create?
    ensures list[i].spec.id in ReceiveAll(n, list).db
  {
    var k := |list| - 1;
    if i < k {
      LearnsVariable(n, list[..k], i);
      KeepsVariables(ReceiveAll(n, list[..k]), list[k]);
    }
  }

  lemma KeepsVariables(n: Node<Stamped>, ie: IE<Stamped>)
    ensures n.db.Keys <= Receive(n, ie).db.Keys
  {
  }

  // ---------- A whole beacon ----------

  // The node when the i-th update of the beacon is about to be processed
  ghost function Before(n: Node<Stamped>, l: Packet.Lists<Stamped>, i: nat): Node<Stamped>
    requires i <= |l.updates|
  {
    ReceiveAll(ReceiveAll(n, l.creates), l.updates[..i])
  }

  lemma LearnsFromBeacon(hist: map<nat, Origin>, n: Node<Stamped>, l: Packet.Lists<Stamped>, i: nat)
    requires NodeOk(n) && GenuineNode(hist, n) && GenuineLists(hist, l) && KnowsOwn(hist, n)
    requires NoUpdates(l.creates) && NoUpdates(l.summaries) && NoUpdates(l.createReqs) && NoUpdates(l.updateReqs)
    requires NoneTooOld(ReceiveAll(n, l.creates), l.updates)
    requires i < |l.updates| && l.updates[i].Update? && InReach(Before(n, l, i), l.updates[i].upd)
    ensures AtLeast(Process(n, l), l.updates[i].upd.id, l.updates[i].upd.data.upd)
  {
    hide NodeOk, GenuineNode, GenuineList, NoneTooOld, NoUpdates, Advances, KnowsOwn, ReceiveAll, InReach, AtLeast;
    NoUpdatesNoneTooOld(n, l.creates);
    ListStep(hist, n, l.creates);
    var n1 := ReceiveAll(n, l.creates);
    ReceiveAllOk(n, l.creates);
    LearnsFromList(hist, n1, l.updates, i);
    ListStep(hist, n1, l.updates);
    var n2 := ReceiveAll(n1, l.updates);
    NoUpdatesNoneTooOld(n2, l.summaries);
    ListStep(hist, n2, l.summaries);
    var n3 := ReceiveAll(n2, l.summaries);
    NoUpdatesNoneTooOld(n3, l.createReqs);
    ListStep(hist, n3, l.createReqs);
    var n4 := ReceiveAll(n3, l.createReqs);
    NoUpdatesNoneTooOld(n4, l.updateReqs);
    ListStep(hist, n4, l.updateReqs);
    AdvancesOn(n2, n3, n4);
    AdvancesOn(n2, n4, Process(n, l));
    AtLeastStays(n2, Process(n, l), l.updates[i].upd.id, l.updates[i].upd.data.upd);
  }

  lemma {:induction false} KeepsAllVariables(n: Node<Stamped>, list: seq<IE<Stamped>>)
    ensures n.db.Keys <= ReceiveAll(n, list).db.Keys
  {
    hide Receive;
    if list != [] {
      KeepsAllVariables(n, list[..|list| - 1]);
      KeepsVariables(ReceiveAll(n, list[..|list| - 1]), list[|list| - 1]);
    }
  }

  // After a beacon every variable it creates is known
  lemma CreatesAreLearned(n: Node<Stamped>, l: Packet.Lists<Stamped>, i: nat)
    requires i < |l.creates| && l.creates[i].Create?
    ensures l.creates[i].spec.id in Process(n, l).db
  {
    hide ReceiveAll;
    LearnsVariable(n, l.creates, i);
    var n1 := ReceiveAll(n, l.creates);
    KeepsAllVariables(n1, l.updates);
    var n2 := ReceiveAll(n1, l.updates);
    KeepsAllVariables(n2, l.summaries);
    var n3 := ReceiveAll(n2, l.summaries);
    KeepsAllVariables(n3, l.createReqs);
    KeepsAllVariables(ReceiveAll(n3, l.createReqs), l.updateReqs);
  }

  // ---------- Sending and delivering ----------

  // What a beacon carries as updates are the sender's current records
  lemma CarriesCurrent(n: Node<Stamped>, initLen: nat, i: nat)
    requires NodeOk(n)
    ensures var l := Build(n, initLen).1;
            i < |l.updates| ==>
              var ie := l.updates[i]; ie.Update? && ie.upd.id in n.db && ie.upd == UpdateOf(n.db[ie.upd.id])
  {
    BuiltFrom(n, initLen);
    hide Build;
    if i < |Build(n, initLen).1.updates| {
      var ie := Build(n, initLen).1.updates[i];
      assert ie in Packing.Ies(n.updateQ);
      var j :| 0 <= j < |n.updateQ| && n.updateQ[j].ie == ie;
    }
  }

  // A delivery to a node for which the i-th update of the beacon is in reach
  ghost predicate Deliverable(net: Network, b: nat, to: nat, l: Packet.Lists<Stamped>, i: nat) {
    && b < |net.sent| && to in net.nodes && Packet.Parse(net.sent[b]) == Ok(l) && Timely(net, Deliver(b, to))
    && i < |l.updates| && l.updates[i].Update? && InReach(Before(net.nodes[to], l, i), l.updates[i].upd)
  }

  lemma DeliveredIsLearned(net: Network, b: nat, to: nat, l: Packet.Lists<Stamped>, i: nat)
    requires NetOk(net)
    ensures Deliverable(net, b, to, l, i) ==>
              && to in Step(net, Deliver(b, to)).nodes
              && AtLeast(Step(net, Deliver(b, to)).nodes[to], l.updates[i].upd.id, l.updates[i].upd.data.upd)
  {
    hide NodeOk, GenuineNode, GenuineLists, Packet.Parse, Process, NoneTooOld, NoUpdates, ReceiveAll, ProducerOk, KnowsOwn,
         InReach, AtLeast, Before;
    if Deliverable(net, b, to, l, i) {
      assert GenuineBeacon(net.hist, net.sent[b]);
      ParsedTypes(net.sent[b]);
      OwnVariablesKnown(net, to);
      LearnsFromBeacon(net.hist, net.nodes[to], l, i);
    }
  }

  // In every reachable state: the delivery of any beacon ever sent leaves the receiver at least as up to date as each
  // update in reach that the beacon carries
  lemma DeliveryTeaches(cfgs: map<nat, Config>, events: seq<Event>, b: nat, to: nat, l: Packet.Lists<Stamped>, i: nat)
    requires ConfigsOk(cfgs) && AllAllowed(cfgs, events)
    ensures var net := Run(cfgs, events);
            Deliverable(net, b, to, l, i) ==>
              && to in Step(net, Deliver(b, to)).nodes
              && AtLeast(Step(net, Deliver(b, to)).nodes[to], l.updates[i].upd.id, l.updates[i].upd.data.upd)
  {
    hide Run, NetOk, AllAllowed, ConfigsOk, Deliverable, Step, AtLeast;
    EverythingIsGenuine(cfgs, events);
    DeliveredIsLearned(Run(cfgs, events), b, to, l, i);
  }

  lemma Sent(net: Network, k: nat, initLen: nat)
    requires NetOk(net)
    ensures k in net.nodes && initLen <= net.nodes[k].cfg.maxPacketSize && Build(net.nodes[k], initLen).1.updates != [] ==>
              var net', l := Step(net, SendBeacon(k, initLen)), Build(net.nodes[k], initLen).1;
              && NetOk(net') && |net'.sent| == |net.sent| + 1 && Packet.Parse(net'.sent[|net.sent|]) == Ok(l)
              && net'.nodes == net.nodes[k := Build(net.nodes[k], initLen).0]
  {
    hide NodeOk, GenuineNode, GenuineBeacon, Build, Packet.Parse, Packet.Write;
    if k in net.nodes && initLen <= net.nodes[k].cfg.maxPacketSize && Build(net.nodes[k], initLen).1.updates != [] {
      SendStepOk(net, SendBeacon(k, initLen));
      BuiltIsReadBack(net.nodes[k], initLen);
      BuildKeepsConfig(net.nodes[k], initLen);
    }
  }

  lemma BuildKeepsConfig(n: Node<Stamped>, initLen: nat)
    ensures Build(n, initLen).0.cfg == n.cfg && Build(n, initLen).0.db == n.db
  {
  }

  // Node k sends a beacon, and the i-th of its updates is in reach of another node that then receives it
  ghost predicate Exchange(net: Network, k: nat, initLen: nat, to: nat, i: nat) {
    && k in net.nodes && to in net.nodes && k != to && initLen <= net.nodes[k].cfg.maxPacketSize
    && var l := Build(net.nodes[k], initLen).1;
       && i < |l.updates| && l.updates[i].Update? && InReach(Before(net.nodes[to], l, i), l.updates[i].upd)
       && Timely(Step(net, SendBeacon(k, initLen)), Deliver(|net.sent|, to))
  }

  // In every reachable state: when a node sends a beacon and another one receives it, the receiver is afterwards at
  // least as up to date as the sender on every variable in reach among the updates of the beacon
  lemma ExchangeCatchesUp(cfgs: map<nat, Config>, events: seq<Event>, k: nat, initLen: nat, to: nat, i: nat)
    requires ConfigsOk(cfgs) && AllAllowed(cfgs, events)
    ensures var net := Run(cfgs, events);
            Exchange(net, k, initLen, to, i) ==>
              var id := Build(net.nodes[k], initLen).1.updates[i].upd.id;
              var after := Step(Step(net, SendBeacon(k, initLen)), Deliver(|net.sent|, to));
              && id in net.nodes[k].db && to in after.nodes
              && AtLeast(after.nodes[to], id, net.nodes[k].db[id].data.upd)
  {
    hide NodeOk, GenuineNode, GenuineBeacon, Build, Packet.Parse, Step, Timely, InReach, AtLeast, Before, Run, AllAllowed,
         ConfigsOk;
    var net := Run(cfgs, events);
    EverythingIsGenuine(cfgs, events);
    if Exchange(net, k, initLen, to, i) {
      var l, net' := Build(net.nodes[k], initLen).1, Step(net, SendBeacon(k, initLen));
      assert NodeOk(net.nodes[k]);
      CarriesCurrent(net.nodes[k], initLen, i);
      Sent(net, k, initLen);
      assert net'.nodes[to] == net.nodes[to];
      assert Deliverable(net', |net.sent|, to, l, i);
      DeliveredIsLearned(net', |net.sent|, to, l, i);
    }
  }
}
