/**
 What the application of a node is told: each change of another node's variable, once, with the new value, so that the
 last it was told of a variable is what the database holds.
 */
module RtdbIndications {
  import opened Wrappers
  import opened RtdbTypes
  import opened RtdbSerial
  import opened RtdbNode
  import opened RtdbNetwork
  import Packet = RtdbPacket

  // ---------- One element ----------

  // The entry of a variable is new or different, all others are the same, and the application is told the new value
  ghost predicate TellsChange<D>(n: Node<D>, m: Node<D>, id: nat) {
    && id in m.db && m.db == n.db[id := m.db[id]] && (id in n.db ==> m.db[id] != n.db[id])
    && m.told == n.told + [Indication(id, m.db[id].len, m.db[id].data)]
  }

  // A received element either changes one entry, and the application is told, or changes none, and it is not
  lemma ReceiveTells<D>(n: Node<D>, ie: IE<D>)
    requires NodeOk(n)
    ensures var m := Receive(n, ie);
            TellsChange(n, m, ie.Id()) || (m.db == n.db && m.told == n.told)
  {
    hide RemoveId, CreatesOk, UpdatesOk, SummariesOk, RequestsOk;
    if ie.Update? && ie.upd.id in n.db {
      NotMoreRecentThanItself(n.db[ie.upd.id].seqNo);
    }
  }

  lemma NotMoreRecentThanItself(q: SeqNoT)
    ensures !SeqNoMoreRecent(q, q)
  {
  }

  // ---------- A list of elements ----------

  // The variables whose entries a list creates or changes, in the order of these changes
  ghost function Changes<D>(n: Node<D>, list: seq<IE<D>>): (ids: seq<nat>) {
    if list == [] then []
    else
      var rest := list[..|list| - 1];
      Changes(n, rest) + if ReceiveAll(n, list).db != ReceiveAll(n, rest).db then [list[|list| - 1].Id()] else []
  }

  // One indication for each change, in their order
  lemma {:induction false} OneForEachChange<D>(n: Node<D>, list: seq<IE<D>>)
    requires NodeOk(n)
    ensures var told, ids := ReceiveAll(n, list).told, Changes(n, list);
            && |told| == |n.told| + |ids| && told[..|n.told|] == n.told
            && forall j :: 0 <= j < |ids| ==> told[|n.told| + j].id == ids[j]
  {
    hide NodeOk, Receive;
    if list != [] {
      var rest := list[..|list| - 1];
      OneForEachChange(n, rest);
      ReceiveAllOk(n, rest);
      ReceiveTells(ReceiveAll(n, rest), list[|list| - 1]);
    }
  }

  lemma {:induction false} ReceiveAllConcat<D>(n: Node<D>, a: seq<IE<D>>, b: seq<IE<D>>)
    ensures ReceiveAll(n, a + b) == ReceiveAll(ReceiveAll(n, a), b)
  {
    hide Receive;
    if b == [] {
      assert a + b == a;
    } else {
      ReceiveAllConcat(n, a, b[..|b| - 1]);
      assert (a + b)[..|a + b| - 1] == a + b[..|b| - 1];
    }
  }

  function AllElements<D>(l: Packet.Lists<D>): seq<IE<D>> {
    l.creates + l.updates + l.summaries + l.createReqs + l.updateReqs
  }

  lemma ProcessesAll<D>(n: Node<D>, l: Packet.Lists<D>)
    ensures Process(n, l) == ReceiveAll(n, AllElements(l))
  {
    hide ReceiveAll;
    ReceiveAllConcat(n, l.creates, l.updates);
    ReceiveAllConcat(n, l.creates + l.updates, l.summaries);
    ReceiveAllConcat(n, l.creates + l.updates + l.summaries, l.createReqs);
    ReceiveAllConcat(n, l.creates + l.updates + l.summaries + l.createReqs, l.updateReqs);
  }

  // A beacon causes exactly one indication for each entry that one of its elements creates or changes
  lemma BeaconTells<D>(n: Node<D>, l: Packet.Lists<D>)
    requires NodeOk(n)
    ensures var told, ids := Process(n, l).told, Changes(n, AllElements(l));
            && |told| == |n.told| + |ids| && told[..|n.told|] == n.told
            && forall j :: 0 <= j < |ids| ==> told[|n.told| + j].id == ids[j]
  {
    hide NodeOk, ReceiveAll, Process, Changes, AllElements;
    ProcessesAll(n, l);
    OneForEachChange(n, AllElements(l));
  }

  // ---------- The last indication ----------

  function LastTold<D>(told: seq<Indication<D>>, id: nat): Option<Indication<D>> {
    if told == [] then None
    else if told[|told| - 1].id == id then Some(told[|told| - 1])
    else LastTold(told[..|told| - 1], id)
  }

  // The last the application was told of another node's variable is what the database holds, and there is no variable of
  // another node that it was never told of
  ghost predicate Informed<D>(n: Node<D>) {
    forall id :: LastTold(n.told, id) ==
      if id in n.db && n.db[id].producer != n.self then Some(Indication(id, n.db[id].len, n.db[id].data)) else None
  }

  lemma LastToldMore<D>(told: seq<Indication<D>>, x: Indication<D>, id: nat)
    ensures LastTold(told + [x], id) == if x.id == id then Some(x) else LastTold(told, id)
  {
    assert (told + [x])[..|told|] == told;
  }

  // A created variable is not one of the node's own
  ghost predicate NotOwn<D>(n: Node<D>, ie: IE<D>) {
    ie.Create? && ie.spec.id !in n.db ==> ie.spec.producer != n.self
  }

  lemma ReceiveProducer<D>(n: Node<D>, ie: IE<D>)
    requires NodeOk(n) && NotOwn(n, ie)
    ensures var m, id := Receive(n, ie), ie.Id();
            && m.self == n.self
            && (m.db != n.db ==> id in m.db && m.db[id].producer != n.self && (id in n.db ==> n.db[id].producer != n.self))
  {
    hide RemoveId, SeqNoMoreRecent, CreatesOk, UpdatesOk, SummariesOk, RequestsOk;
  }

  lemma ReceiveInforms<D>(n: Node<D>, ie: IE<D>)
    requires NodeOk(n) && NotOwn(n, ie) && Informed(n)
    ensures Informed(Receive(n, ie))
  {
    hide NodeOk, Receive, LastTold, NotOwn;
    var m, id := Receive(n, ie), ie.Id();
    ReceiveTells(n, ie);
    ReceiveProducer(n, ie);
    if TellsChange(n, m, id) {
      TellingInforms(n, m, id);
    }
  }

  lemma TellingInforms<D>(n: Node<D>, m: Node<D>, id: nat)
    requires Informed(n) && TellsChange(n, m, id) && m.self == n.self && m.db[id].producer != n.self
    ensures Informed(m)
  {
    hide LastTold;
    forall x ensures LastTold(m.told, x) ==
      if x in m.db && m.db[x].producer != m.self then Some(Indication(x, m.db[x].len, m.db[x].data)) else None
    {
      LastToldMore(n.told, Indication(id, m.db[id].len, m.db[id].data), x);
    }
  }

  // ---------- Runs ----------

  ghost predicate NoneOwn(n: Node<Stamped>, list: seq<IE<Stamped>>) {
    forall i :: 0 <= i < |list| ==> NotOwn(n, list[i])
  }

  lemma {:induction false} ReceiveAllInforms(n: Node<Stamped>, list: seq<IE<Stamped>>)
    requires NodeOk(n) && Informed(n) && NoneOwn(n, list)
    ensures Informed(ReceiveAll(n, list))
  {
    hide NodeOk, Informed, Receive;
    if list != [] {
      var rest, last := list[..|list| - 1], list[|list| - 1];
      ReceiveAllInforms(n, rest);
      ReceiveAllOk(n, rest);
      ReceiveAllKeepsOwn(n, rest);
      assert NotOwn(n, last);
      ReceiveInforms(ReceiveAll(n, rest), last);
    }
  }

  // What is genuine and names a node as the producer is known there
  lemma GenuineNotOwn(net: Network, k: nat, ie: IE<Stamped>)
    requires NetOk(net) && k in net.nodes && Genuine(net.hist, ie)
    ensures NotOwn(net.nodes[k], ie)
  {
    hide NodeOk, GenuineNode, GenuineBeacon;
    if ie.Create? {
      assert ProducerOk(net, ie.spec.id);
    }
  }

  lemma GenuineNoneOwn(net: Network, k: nat, l: Packet.Lists<Stamped>)
    requires NetOk(net) && k in net.nodes && GenuineLists(net.hist, l)
    ensures NoneOwn(net.nodes[k], AllElements(l))
  {
    hide NetOk, NotOwn, Genuine;
    var list := AllElements(l);
    forall i | 0 <= i < |list| ensures NotOwn(net.nodes[k], list[i]) {
      assert list[i] in l.creates || list[i] in l.updates || list[i] in l.summaries || list[i] in l.createReqs
             || list[i] in l.updateReqs;
      GenuineNotOwn(net, k, list[i]);
    }
  }

  ghost predicate AllInformed(net: Network) {
    forall k :: k in net.nodes ==> Informed(net.nodes[k])
  }

  lemma DeliveryInforms(net: Network, b: nat, k: nat)
    requires NetOk(net) && Allowed(net, Deliver(b, k)) && AllInformed(net)
    ensures AllInformed(Step(net, Deliver(b, k)))
  {
    hide NodeOk, GenuineNode, GenuineLists, Informed, Process, Packet.Parse, ProducerOk, AllElements;
    assert GenuineBeacon(net.hist, net.sent[b]);
    if Packet.Parse(net.sent[b]).Ok? {
      var l := Packet.Parse(net.sent[b]).value;
      GenuineNoneOwn(net, k, l);
      ProcessesAll(net.nodes[k], l);
      ReceiveAllInforms(net.nodes[k], AllElements(l));
    }
  }

  lemma RequestInforms(n: Node<Stamped>, m: Node<Stamped>, id: nat)
    requires Informed(n) && m.told == n.told && m.self == n.self && id in m.db && m.db == n.db[id := m.db[id]]
    requires m.db[id].producer == m.self && (id in n.db ==> n.db[id].producer == n.self)
    ensures Informed(m)
  {
    hide LastTold;
  }

  lemma StepInforms(net: Network, e: Event)
    requires NetOk(net) && Allowed(net, e) && AllInformed(net)
    ensures AllInformed(Step(net, e))
  {
    hide NodeOk, GenuineNode, GenuineBeacon, ProducerOk, Informed, RemoveId, PlanOf;
    match e
    case CreateRequest(k, id, descr, len, bytes, repCnt) =>
      SpecKnown(net, k, id);
      var (m, rc) := ApiCreate(net.nodes[k], id, descr, len, Stamped(bytes, 0), repCnt);
      if rc == RC_OK {
        RequestInforms(net.nodes[k], m, id);
      }
    case UpdateRequest(k, id, len, bytes) =>
      if id in net.hist {
        var (m, rc) := ApiUpdate(net.nodes[k], id, len, Stamped(bytes, |net.hist[id].values|));
        if rc == RC_OK {
          RequestInforms(net.nodes[k], m, id);
        }
      }
    case SendBeacon(k, initLen) =>
      BuildTellsNothing(net.nodes[k], initLen);
    case Deliver(b, k) =>
      DeliveryInforms(net, b, k);
  }

  lemma BuildTellsNothing(n: Node<Stamped>, initLen: int)
    ensures Informed(n) ==> Informed(Build(n, initLen).0)
  {
    hide PlanOf, LastTold;
  }

  // In every reachable state, with loss, duplication and reordering, the last each application was told of another node's
  // variable is what its database holds, it was told something of each such variable, and of no other
  lemma {:induction false} RunInforms(cfgs: map<nat, Config>, events: seq<Event>)
    requires ConfigsOk(cfgs) && AllAllowed(cfgs, events)
    ensures AllInformed(Run(cfgs, events))
  {
    hide NetOk, Step, Allowed;
    if events != [] {
      var n := |events| - 1;
      AllowedPrefix(cfgs, events, n);
      RunInforms(cfgs, events[..n]);
      EverythingIsGenuine(cfgs, events[..n]);
      StepInforms(Run(cfgs, events[..n]), events[n]);
    }
  }
}
