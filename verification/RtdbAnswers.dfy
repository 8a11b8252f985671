/**
 What nodes ask each other for, and how they are answered: summaries lead to the right request or to an update, requests
 are for what is missing, and each request that arrives puts the current record into the next beacons.
 */
module RtdbAnswers {
  import opened RtdbTypes
  import opened RtdbSerial
  import opened RtdbNode
  import opened RtdbNetwork
  import opened RtdbIndications
  import Packet = RtdbPacket
  import Packing = RtdbPacking

  // ---------- One element ----------

  // A queue in which one element takes the place of all of its variable, at the end
  ghost predicate Replaces<D>(q: seq<Queued<D>>, q': seq<Queued<D>>, x: Queued<D>) {
    && q' != [] && q'[|q'| - 1] == x
    && (forall i :: 0 <= i < |q'| - 1 ==> q'[i] in q && q'[i].ie.Id() != x.ie.Id())
    && (forall i :: 0 <= i < |q| && q[i].ie.Id() != x.ie.Id() ==> q[i] in q')
  }

  lemma SupersededReplaces<D>(q: seq<Queued<D>>, x: Queued<D>)
    ensures Replaces(q, RemoveId(q, x.ie.Id()) + [x], x)
  {
    var r := RemoveId(q, x.ie.Id());
    forall i | 0 <= i < |r| ensures r[i] in q && r[i].ie.Id() != x.ie.Id() {
      RemoveIdMember(q, x.ie.Id(), r[i]);
    }
    forall i | 0 <= i < |q| && q[i].ie.Id() != x.ie.Id() ensures q[i] in r + [x] {
      RemoveIdMember(q, x.ie.Id(), q[i]);
    }
  }

  // A summary that is at most 126 updates away: a newer one makes the node ask for the update, an older one makes it send
  // its own record again, and one of the same update, or of a variable of its own, nothing
  lemma SummaryAnswered<D>(n: Node<D>, id: nat, mine: nat, u: nat)
    requires NodeOk(n) && id in n.db && n.db[id].seqNo == SeqNoOf(mine) && -126 <= u - mine <= 126
    ensures var m, v := Receive(n, Summary(id, SeqNoOf(u))), n.db[id];
            && (v.producer == n.self || u == mine ==> m == n)
            && (v.producer != n.self && u > mine ==>
                  m == n.(reqUpdateQ := n.reqUpdateQ + [Queued(ReqUpdate(id, SeqNoOf(mine)), v.repCnt)]))
            && (v.producer != n.self && u < mine ==>
                  m == n.(updateQ := m.updateQ) && Replaces(n.updateQ, m.updateQ, Queued(Update(UpdateOf(v)), v.repCnt)))
  {
    hide SeqNoMoreRecent, SeqNoOf, CreatesOk, UpdatesOk, SummariesOk, RequestsOk, Replaces, RemoveId;
    MoreRecentWithinWindow(mine, u);
    MoreRecentWithinWindow(mine, mine);
    MoreRecentWithinWindow(u, mine);
    SupersededReplaces(n.updateQ, Queued(Update(UpdateOf(n.db[id])), n.db[id].repCnt));
  }

  // A summary or an update of an unknown variable makes the node ask for the variable
  lemma UnknownIsAskedFor<D>(n: Node<D>, ie: IE<D>)
    requires (ie.Summary? || ie.Update?) && ie.Id() !in n.db
    ensures Receive(n, ie) == n.(reqCreateQ := n.reqCreateQ + [Queued(ReqCreate(ie.Id()), 1)])
  {
  }

  // A request makes the node send its current record again, with all repetitions, if it has one
  lemma RequestAnswered<D>(n: Node<D>, ie: IE<D>)
    requires NodeOk(n) && (ie.ReqCreate? || ie.ReqUpdate?)
    ensures var m, id := Receive(n, ie), ie.Id();
            && (id !in n.db ==> m == n)
            && (id in n.db && ie.ReqCreate? ==>
                  var x := Queued(Create(SpecOf(n.db[id]), UpdateOf(n.db[id])), n.db[id].repCnt);
                  m == n.(createQ := m.createQ) && Replaces(n.createQ, m.createQ, x))
            && (id in n.db && ie.ReqUpdate? ==>
                  var x := Queued(Update(UpdateOf(n.db[id])), n.db[id].repCnt);
                  m == n.(updateQ := m.updateQ) && Replaces(n.updateQ, m.updateQ, x))
  {
    hide CreatesOk, UpdatesOk, SummariesOk, RequestsOk, Replaces, RemoveId;
    if ie.Id() in n.db {
      var v := n.db[ie.Id()];
      SupersededReplaces(n.createQ, Queued(Create(SpecOf(v), UpdateOf(v)), v.repCnt));
      SupersededReplaces(n.updateQ, Queued(Update(UpdateOf(v)), v.repCnt));
    }
  }

  // A creation of an unknown variable is taken over as it is, passed on with all repetitions, and not asked for any more
  lemma CreationTaken<D>(n: Node<D>, ie: IE<D>)
    requires ie.Create? && ie.spec.id !in n.db
    ensures var m, s, u := Receive(n, ie), ie.spec, ie.update;
            var v := Variable(s.id, s.producer, s.repCnt, s.descr, u.len, u.data, u.seqNo, false);
            && m.db == n.db[s.id := v]
            && m.createQ == n.createQ + [Queued(Create(s, u.(id := s.id)), s.repCnt)]
            && m.summaryQ == n.summaryQ + [s.id] && m.updateQ == n.updateQ && m.reqUpdateQ == n.reqUpdateQ
            && (forall y :: y in m.reqCreateQ <==> y in n.reqCreateQ && y.ie.Id() != s.id)
  {
    hide RemoveId;
    forall y ensures y in RemoveId(n.reqCreateQ, ie.spec.id) <==> y in n.reqCreateQ && y.ie.Id() != ie.spec.id {
      RemoveIdMember(n.reqCreateQ, ie.spec.id, y);
    }
  }

  // An update of another node's known variable, at most 126 updates away: a newer one is taken over, passed on with all
  // repetitions, and not asked for any more; any other changes nothing
  lemma UpdateTaken<D>(n: Node<D>, ie: IE<D>, mine: nat, u: nat)
    requires NodeOk(n) && ie.Update? && ie.upd.id in n.db && n.db[ie.upd.id].producer != n.self
    requires n.db[ie.upd.id].seqNo == SeqNoOf(mine) && ie.upd.seqNo == SeqNoOf(u) && -126 <= u - mine <= 126
    ensures var m, id, v := Receive(n, ie), ie.upd.id, n.db[ie.upd.id];
            && (u <= mine ==> m == n)
            && (u > mine ==>
                  && m.db == n.db[id := v.(len := ie.upd.len, data := ie.upd.data, seqNo := ie.upd.seqNo)]
                  && Replaces(n.updateQ, m.updateQ, Queued(ie, v.repCnt))
                  && (forall y :: y in m.reqUpdateQ <==> y in n.reqUpdateQ && y.ie.Id() != id)
                  && m.createQ == n.createQ && m.summaryQ == n.summaryQ && m.reqCreateQ == n.reqCreateQ)
  {
    hide SeqNoMoreRecent, SeqNoOf, CreatesOk, UpdatesOk, SummariesOk, RequestsOk, Replaces, RemoveId;
    MoreRecentWithinWindow(mine, u);
    SupersededReplaces(n.updateQ, Queued(ie, n.db[ie.upd.id].repCnt));
    forall y ensures y in RemoveId(n.reqUpdateQ, ie.upd.id) <==> y in n.reqUpdateQ && y.ie.Id() != ie.upd.id {
      RemoveIdMember(n.reqUpdateQ, ie.upd.id, y);
    }
  }

  // ---------- Requests of the application ----------

  // A variable is created exactly if it is not known and description, value and repetitions are within their bounds; the
  // answer to a refusal names a condition that is violated, and a refusal changes nothing
  lemma CreateAnswered<D>(n: Node<D>, id: nat, descr: string, len: nat, data: D, repCnt: nat)
    ensures var (m, rc) := ApiCreate(n, id, descr, len, data, repCnt);
            var d := |descr| % 0x1_0000;
            && (rc == RC_OK <==> id !in n.db && d <= n.cfg.maxDescriptionLen && len <= n.cfg.maxVariableLen
                                 && repCnt <= n.cfg.maxRepetitions)
            && (rc == RC_VARIABLE_EXISTS <==> id in n.db)
            && (rc == RC_VARIABLE_DESCRIPTION_TOO_LONG ==> d > n.cfg.maxDescriptionLen)
            && (rc == RC_VALUE_TOO_LONG ==> len > n.cfg.maxVariableLen)
            && (rc == RC_WRONG_REPETITION_NUMBER ==> repCnt > n.cfg.maxRepetitions)
            && rc in {RC_OK, RC_VARIABLE_EXISTS, RC_VARIABLE_DESCRIPTION_TOO_LONG, RC_VALUE_TOO_LONG, RC_WRONG_REPETITION_NUMBER}
            && (rc != RC_OK ==> m == n)
            && (rc == RC_OK ==>
                  var v := Variable(id, n.self, repCnt, descr[..d], len, data, SeqNoOf(0), false);
                  && m == n.(db := n.db[id := v], createQ := m.createQ, summaryQ := n.summaryQ + [id])
                  && m.createQ == n.createQ + [Queued(Create(SpecOf(v), UpdateOf(v)), repCnt)])
  {
  }

  // A variable is updated exactly if the node produces it and the value is within its bounds; the new value gets the next
  // sequence number and takes the place of an older one that still waits
  lemma UpdateAnswered<D>(n: Node<D>, id: nat, len: nat, data: D, u: nat)
    requires NodeOk(n) && (id in n.db ==> n.db[id].seqNo == SeqNoOf(u))
    ensures var (m, rc) := ApiUpdate(n, id, len, data);
            && (rc == RC_OK <==> id in n.db && n.db[id].producer == n.self && len <= n.cfg.maxVariableLen)
            && (rc == RC_VARIABLE_DOES_NOT_EXIST <==> id !in n.db)
            && (rc == RC_VARIABLE_IS_NOT_PRODUCER <==> id in n.db && n.db[id].producer != n.self)
            && rc in {RC_OK, RC_VARIABLE_DOES_NOT_EXIST, RC_VARIABLE_IS_NOT_PRODUCER, RC_VALUE_TOO_LONG}
            && (rc != RC_OK ==> m == n)
            && (rc == RC_OK ==>
                  var v := n.db[id].(len := len, data := data, seqNo := SeqNoOf(u + 1));
                  && m == n.(db := n.db[id := v], updateQ := m.updateQ)
                  && Replaces(n.updateQ, m.updateQ, Queued(Update(VarUpdate(id, SeqNoOf(u + 1), len, data)), v.repCnt)))
  {
    hide CreatesOk, UpdatesOk, SummariesOk, RequestsOk, Replaces, RemoveId, NextSeqNo, SeqNoOf;
    NextSeqNoOf(u);
    if id in n.db {
      SupersededReplaces(n.updateQ, Queued(Update(VarUpdate(id, SeqNoOf(u + 1), len, data)), n.db[id].repCnt));
    }
  }

  // ---------- Requests in a beacon ----------

  // The current creation, or update, of a variable waits with all its repetitions
  ghost predicate Offers<D>(n: Node<D>, ie: IE<D>) {
    var id := ie.Id();
    && id in n.db
    && if ie.ReqCreate? then Queued(Create(SpecOf(n.db[id]), UpdateOf(n.db[id])), n.db[id].repCnt) in n.createQ
       else Queued(Update(UpdateOf(n.db[id])), n.db[id].repCnt) in n.updateQ
  }

  lemma InReplaced<D>(q: seq<Queued<D>>, q': seq<Queued<D>>, x: Queued<D>)
    requires Replaces(q, q', x)
    ensures x in q' && forall y :: y in q && y.ie.Id() != x.ie.Id() ==> y in q'
  {
  }

  // A request makes an offer, and takes back none
  lemma RequestOffers<D>(n: Node<D>, ie: IE<D>, other: IE<D>)
    requires NodeOk(n) && (ie.ReqCreate? || ie.ReqUpdate?) && (other.ReqCreate? || other.ReqUpdate?)
    ensures Receive(n, ie).db == n.db
    ensures ie.Id() in n.db ==> Offers(Receive(n, ie), ie)
    ensures Offers(n, other) ==> Offers(Receive(n, ie), other)
  {
    hide NodeOk, Receive, Replaces;
    var m, id := Receive(n, ie), ie.Id();
    RequestAnswered(n, ie);
    IdsKept(n);
    if id in n.db {
      var v := n.db[id];
      if ie.ReqCreate? {
        InReplaced(n.createQ, m.createQ, Queued(Create(SpecOf(v), UpdateOf(v)), v.repCnt));
      } else {
        InReplaced(n.updateQ, m.updateQ, Queued(Update(UpdateOf(v)), v.repCnt));
      }
    }
  }

  lemma IdsKept<D>(n: Node<D>)
    requires NodeOk(n)
    ensures forall id :: id in n.db ==> n.db[id].id == id
  {
  }

  ghost predicate AllRequests<D>(list: seq<IE<D>>) {
    forall i :: 0 <= i < |list| ==> list[i].ReqCreate? || list[i].ReqUpdate?
  }

  lemma {:induction false} RequestsOffer<D>(n: Node<D>, list: seq<IE<D>>, ie: IE<D>)
    requires NodeOk(n) && AllRequests(list) && (ie.ReqCreate? || ie.ReqUpdate?)
    ensures ReceiveAll(n, list).db == n.db
    ensures Offers(n, ie) || (ie in list && ie.Id() in n.db) ==> Offers(ReceiveAll(n, list), ie)
  {
    hide NodeOk, Receive, Offers;
    if list != [] {
      var rest, last := list[..|list| - 1], list[|list| - 1];
      RequestsOffer(n, rest, ie);
      ReceiveAllOk(n, rest);
      RequestOffers(ReceiveAll(n, rest), last, ie);
      assert ie in list <==> ie in rest || ie == last;
    }
  }

  // After a beacon each variable that it asks for, and that the node has by then, waits to be sent as it is by then
  lemma BeaconIsAnswered<D>(n: Node<D>, l: Packet.Lists<D>, ie: IE<D>)
    requires NodeOk(n) && AllRequests(l.createReqs) && AllRequests(l.updateReqs)
    requires (ie.ReqCreate? && ie in l.createReqs) || (ie.ReqUpdate? && ie in l.updateReqs)
    ensures var m := Process(n, l);
            ie.Id() in m.db ==> Offers(m, ie)
  {
    hide NodeOk, ReceiveAll, Offers, AllRequests;
    ReceiveAllOk(n, l.creates);
    var n1 := ReceiveAll(n, l.creates);
    ReceiveAllOk(n1, l.updates);
    var n2 := ReceiveAll(n1, l.updates);
    ReceiveAllOk(n2, l.summaries);
    var n3 := ReceiveAll(n2, l.summaries);
    ReceiveAllOk(n3, l.createReqs);
    RequestsOffer(n3, l.createReqs, ie);
    RequestsOffer(ReceiveAll(n3, l.createReqs), l.updateReqs, ie);
  }

  // ---------- What is asked for ----------

  // Update requests are for other nodes' variables and say which update the node has
  ghost predicate AsksForUpdates<D>(n: Node<D>) {
    forall i :: 0 <= i < |n.reqUpdateQ| ==>
      var ie := n.reqUpdateQ[i].ie;
      && ie.ReqUpdate? && ie.reqUpdateId in n.db && n.db[ie.reqUpdateId].producer != n.self
      && ie.reqSeqNo == n.db[ie.reqUpdateId].seqNo
  }

  // Create requests are for variables the node does not have
  ghost predicate AsksForUnknown<D>(n: Node<D>) {
    forall i :: 0 <= i < |n.reqCreateQ| ==> n.reqCreateQ[i].ie.Id() !in n.db
  }

  lemma ReceiveKeepsAsking<D>(n: Node<D>, ie: IE<D>)
    requires NodeOk(n) && AsksForUpdates(n) && AsksForUnknown(n)
    ensures AsksForUpdates(Receive(n, ie)) && AsksForUnknown(Receive(n, ie))
  {
    hide SeqNoMoreRecent, CreatesOk, UpdatesOk, SummariesOk, RequestsOk;
    var m, id := Receive(n, ie), ie.Id();
    forall i | 0 <= i < |m.reqUpdateQ|
      ensures m.reqUpdateQ[i] in n.reqUpdateQ || m.reqUpdateQ[i].ie == ReqUpdate(id, n.db[id].seqNo)
      ensures ie.Update? && m.db != n.db ==> m.reqUpdateQ[i].ie.Id() != id
    {
      RemoveIdMember(n.reqUpdateQ, id, m.reqUpdateQ[i]);
    }
    forall i | 0 <= i < |m.reqCreateQ| ensures m.reqCreateQ[i].ie.Id() !in m.db {
      RemoveIdMember(n.reqCreateQ, id, m.reqCreateQ[i]);
    }
  }

  lemma {:induction false} ReceiveAllKeepsAsking<D>(n: Node<D>, list: seq<IE<D>>)
    requires NodeOk(n) && AsksForUpdates(n) && AsksForUnknown(n)
    ensures AsksForUpdates(ReceiveAll(n, list)) && AsksForUnknown(ReceiveAll(n, list))
  {
    hide NodeOk, Receive, AsksForUpdates, AsksForUnknown;
    if list != [] {
      ReceiveAllKeepsAsking(n, list[..|list| - 1]);
      ReceiveAllOk(n, list[..|list| - 1]);
      ReceiveKeepsAsking(ReceiveAll(n, list[..|list| - 1]), list[|list| - 1]);
    }
  }

  lemma ProcessKeepsAsking<D>(n: Node<D>, l: Packet.Lists<D>)
    requires NodeOk(n) && AsksForUpdates(n) && AsksForUnknown(n)
    ensures AsksForUpdates(Process(n, l)) && AsksForUnknown(Process(n, l))
  {
    hide NodeOk, ReceiveAll, AsksForUpdates, AsksForUnknown;
    ProcessesAll(n, l);
    ReceiveAllKeepsAsking(n, AllElements(l));
  }

  lemma BuildKeepsAsking<D>(n: Node<D>, initLen: int)
    requires AsksForUpdates(n) && AsksForUnknown(n)
    ensures AsksForUpdates(Build(n, initLen).0) && AsksForUnknown(Build(n, initLen).0)
  {
    PlanKeeps(n, initLen);
    hide PlanOf;
    var m := Build(n, initLen).0;
    forall i | 0 <= i < |m.reqUpdateQ| ensures exists j :: 0 <= j < |n.reqUpdateQ| && n.reqUpdateQ[j].ie == m.reqUpdateQ[i].ie {
      assert m.reqUpdateQ[i].ie in Packing.Ies(m.reqUpdateQ);
    }
    forall i | 0 <= i < |m.reqCreateQ| ensures exists j :: 0 <= j < |n.reqCreateQ| && n.reqCreateQ[j].ie == m.reqCreateQ[i].ie {
      assert m.reqCreateQ[i].ie in Packing.Ies(m.reqCreateQ);
    }
  }

  lemma UpdateKeepsAsking<D>(n: Node<D>, id: nat, len: nat, data: D)
    requires AsksForUpdates(n) && AsksForUnknown(n)
    ensures AsksForUpdates(ApiUpdate(n, id, len, data).0) && AsksForUnknown(ApiUpdate(n, id, len, data).0)
  {
    hide RemoveId;
  }

  lemma CreateKeepsAsking(net: Network, k: nat, id: nat, descr: string, len: nat, data: Stamped, repCnt: nat)
    requires NetOk(net) && k in net.nodes && (id in net.hist ==> id in net.nodes[k].db)
    requires AsksForUpdates(net.nodes[k]) && AsksForUnknown(net.nodes[k])
    ensures var m := ApiCreate(net.nodes[k], id, descr, len, data, repCnt).0; AsksForUpdates(m) && AsksForUnknown(m)
  {
    hide NodeOk, GenuineDb, GenuineBeacon, ProducerOk;
    var n := net.nodes[k];
    assert NodeOk(n) && GenuineQueue(net.hist, n.reqCreateQ);
    OnlyCreateRequests(n);
    forall i | 0 <= i < |n.reqCreateQ| ensures n.reqCreateQ[i].ie.Id() in net.hist {
      assert Genuine(net.hist, n.reqCreateQ[i].ie);
    }
  }

  lemma OnlyCreateRequests<D>(n: Node<D>)
    requires NodeOk(n)
    ensures forall i :: 0 <= i < |n.reqCreateQ| ==> n.reqCreateQ[i].ie.ReqCreate?
  {
  }

  ghost predicate AllAskSensibly(net: Network) {
    forall k :: k in net.nodes ==> AsksForUpdates(net.nodes[k]) && AsksForUnknown(net.nodes[k])
  }

  lemma StepAsksSensibly(net: Network, e: Event)
    requires NetOk(net) && Allowed(net, e) && AllAskSensibly(net)
    ensures AllAskSensibly(Step(net, e))
  {
    hide NodeOk, GenuineNode, GenuineBeacon, ProducerOk, AsksForUpdates, AsksForUnknown, ApiCreate, ApiUpdate, Build, Process;
    match e
    case CreateRequest(k, id, descr, len, bytes, repCnt) =>
      CreateKeepsAsking(net, k, id, descr, len, Stamped(bytes, 0), repCnt);
    case UpdateRequest(k, id, len, bytes) =>
      if id in net.hist {
        UpdateKeepsAsking(net.nodes[k], id, len, Stamped(bytes, |net.hist[id].values|));
      }
    case SendBeacon(k, initLen) =>
      BuildKeepsAsking(net.nodes[k], initLen);
    case Deliver(b, k) =>
      if Packet.Parse(net.sent[b]).Ok? {
        ProcessKeepsAsking(net.nodes[k], Packet.Parse(net.sent[b]).value);
      }
  }

  // In every reachable state each queued create request is for a variable the node does not have, and each queued update
  // request is for another node's variable and names the update the node has
  lemma {:induction false} RunAsksSensibly(cfgs: map<nat, Config>, events: seq<Event>)
    requires ConfigsOk(cfgs) && AllAllowed(cfgs, events)
    ensures AllAskSensibly(Run(cfgs, events))
  {
    hide NetOk, Step, Allowed;
    if events != [] {
      var n := |events| - 1;
      AllowedPrefix(cfgs, events, n);
      RunAsksSensibly(cfgs, events[..n]);
      EverythingIsGenuine(cfgs, events[..n]);
      StepAsksSensibly(Run(cfgs, events[..n]), events[n]);
    }
  }
}
