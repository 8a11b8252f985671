/**
 The summaries that one node puts into its successive beacons, over a run: while the node learns of no new variable they
 go round its database in a fixed order, so that every variable is announced once per round.
 */
module RtdbRoundRobin {
  import opened RtdbTypes
  import opened RtdbNode
  import opened RtdbNetwork
  import opened RtdbRepetitions
  import Packet = RtdbPacket
  import Packing = RtdbPacking
  import Rounds = RtdbSummaries

  function IdsOf<D>(list: seq<IE<D>>): (ids: seq<nat>)
    ensures |ids| == |list|
  {
    seq(|list|, i requires 0 <= i < |list| => list[i].Id())
  }

  // ---------- One node ----------

  // The database and the summary queue only grow, the queue at its end
  ghost predicate Extends<D>(n: Node<D>, m: Node<D>) {
    n.db.Keys <= m.db.Keys && n.summaryQ <= m.summaryQ
  }

  lemma ReceiveExtends<D>(n: Node<D>, ie: IE<D>)
    ensures Extends(n, Receive(n, ie))
  {
    hide RemoveId;
  }

  lemma {:induction false} ReceiveAllExtends<D>(n: Node<D>, list: seq<IE<D>>)
    ensures Extends(n, ReceiveAll(n, list))
  {
    if list != [] {
      hide Receive;
      var m := ReceiveAll(n, list[..|list| - 1]);
      ReceiveAllExtends(n, list[..|list| - 1]);
      ReceiveExtends(m, list[|list| - 1]);
    }
  }

  lemma ExtendsOn<D>(a: Node<D>, b: Node<D>, c: Node<D>)
    requires Extends(a, b) && Extends(b, c)
    ensures Extends(a, c)
  {
  }

  lemma ProcessExtends<D>(n: Node<D>, l: Packet.Lists<D>)
    ensures Extends(n, Process(n, l))
  {
    hide ReceiveAll, Extends;
    ReceiveAllExtends(n, l.creates);
    var n1 := ReceiveAll(n, l.creates);
    ReceiveAllExtends(n1, l.updates);
    var n2 := ReceiveAll(n1, l.updates);
    ReceiveAllExtends(n2, l.summaries);
    var n3 := ReceiveAll(n2, l.summaries);
    ReceiveAllExtends(n3, l.createReqs);
    var n4 := ReceiveAll(n3, l.createReqs);
    ReceiveAllExtends(n4, l.updateReqs);
    ExtendsOn(n, n1, n2);
    ExtendsOn(n, n2, n3);
    ExtendsOn(n, n3, n4);
    ExtendsOn(n, n4, ReceiveAll(n4, l.updateReqs));
  }

  // As the queue lists the database, it stays as it is while no variable is added
  lemma SameKeysSameQueue<D>(n: Node<D>, m: Node<D>)
    requires SummariesOk(n) && SummariesOk(m) && Extends(n, m) && m.db.Keys == n.db.Keys
    ensures m.summaryQ == n.summaryQ
  {
    Rounds.AsManyAsListed(n.summaryQ, n.db.Keys);
    Rounds.AsManyAsListed(m.summaryQ, m.db.Keys);
  }

  // Building a beacon announces a prefix of the queue and moves it to the end
  lemma BuildRotates<D>(n: Node<D>, initLen: int) returns (r: nat)
    requires NodeOk(n)
    ensures r <= |n.summaryQ|
    ensures var (m, l) := Build(n, initLen);
            m.db == n.db && m.summaryQ == Rounds.Rotate(n.summaryQ, r) && IdsOf(l.summaries) == n.summaryQ[..r]
  {
    hide CreatesOk, UpdatesOk, RequestsOk, Packing.Outcome, TotalLen, Rounds.Taken, Rounds.LiveIds;
    var p := PlanOf(n, initLen);
    r := p.rotated;
    forall x | x in n.summaryQ[..r] ensures !DropNonExistent(n.db, x) {
      assert x in n.summaryQ;
    }
    Rounds.LiveIdsAll(n.db, n.summaryQ[..r]);
  }

  // ---------- Rounds ----------

  ghost predicate WithinQueue(q: seq<nat>, ks: seq<nat>) {
    forall i :: 0 <= i < |ks| ==> ks[i] <= |q|
  }

  // The queue after beacons that have announced ks[0], ks[1], ... variables
  function Rotated(q: seq<nat>, ks: seq<nat>): (r: seq<nat>)
    requires WithinQueue(q, ks)
    ensures |r| == |q|
    decreases |ks|
  {
    if ks == [] then q else Rotated(Rounds.Rotate(q, ks[0]), ks[1..])
  }

  lemma {:induction false} OneBeaconMore(q: seq<nat>, ks: seq<nat>, k: nat)
    requires WithinQueue(q, ks) && k <= |q|
    ensures WithinQueue(q, ks + [k])
    ensures Rounds.Announced(q, ks + [k]) == Rounds.Announced(q, ks) + Rotated(q, ks)[..k]
    ensures Rotated(q, ks + [k]) == Rounds.Rotate(Rotated(q, ks), k)
    decreases |ks|
  {
    var more := ks + [k];
    if ks == [] {
      assert more[1..] == [];
      assert Rounds.Announced(Rounds.Rotate(q, k), []) == [];
    } else {
      assert more[0] == ks[0] && more[1..] == ks[1..] + [k];
      OneBeaconMore(Rounds.Rotate(q, ks[0]), ks[1..], k);
      assert q[..ks[0]] + (Rounds.Announced(Rounds.Rotate(q, ks[0]), ks[1..]) + Rotated(q, ks)[..k])
          == Rounds.Announced(q, ks) + Rotated(q, ks)[..k];
    }
  }

  // ---------- Runs ----------

  // The variables announced by the summaries of one step of node k
  function AnnouncedBy(net: Network, e: Event, k: nat): seq<nat>
    requires k in net.nodes
  {
    if e.SendBeacon? && e.node == k then IdsOf(Build(net.nodes[k], e.initLen).1.summaries) else []
  }

  // The variables announced in the beacons that node k sends from event number from on, one after the other
  function Announcements(cfgs: map<nat, Config>, events: seq<Event>, from: nat, k: nat): seq<nat> {
    if |events| <= from then []
    else
      var rest, e := events[..|events| - 1], events[|events| - 1];
      Announcements(cfgs, rest, from, k)
      + if k in Run(cfgs, rest).nodes then AnnouncedBy(Run(cfgs, rest), e, k) else []
  }

  // What one step does to the summary queue of node k
  lemma StepRotates(net: Network, e: Event, k: nat) returns (r: nat)
    requires NetOk(net) && NetOk(Step(net, e)) && k in net.nodes
    ensures k in Step(net, e).nodes && net.nodes[k].db.Keys <= Step(net, e).nodes[k].db.Keys
    ensures r <= |net.nodes[k].summaryQ| && AnnouncedBy(net, e, k) == net.nodes[k].summaryQ[..r]
    ensures Step(net, e).nodes[k].db.Keys == net.nodes[k].db.Keys ==>
              Step(net, e).nodes[k].summaryQ == Rounds.Rotate(net.nodes[k].summaryQ, r)
  {
    hide GenuineNode, GenuineBeacon, ProducerOk, CreatesOk, UpdatesOk, RequestsOk, SummariesOk, Build, Process, Packet.Parse,
         Packet.Write, RemoveId;
    var n := net.nodes[k];
    assert NodeOk(n) && NodeOk(Step(net, e).nodes[k]);
    r := 0;
    assert Rounds.Rotate(n.summaryQ, 0) == n.summaryQ;
    if e.SendBeacon? && e.node == k {
      r := BuildRotates(n, e.initLen);
    } else {
      OtherStepExtends(net, e, k);
      if Step(net, e).nodes[k].db.Keys == n.db.Keys {
        SameKeysSameQueue(n, Step(net, e).nodes[k]);
      }
    }
  }

  lemma OtherStepExtends(net: Network, e: Event, k: nat)
    requires k in net.nodes && !(e.SendBeacon? && e.node == k)
    ensures k in Step(net, e).nodes && Extends(net.nodes[k], Step(net, e).nodes[k])
  {
    hide Build, Process, Packet.Parse, Packet.Write, RemoveId;
    if e.Deliver? && e.to == k && e.beacon < |net.sent| && Packet.Parse(net.sent[e.beacon]).Ok? {
      ProcessExtends(net.nodes[k], Packet.Parse(net.sent[e.beacon]).value);
    }
  }

  // While node k learns of no new variable its beacons announce successive pieces of its queue, round and round
  lemma {:induction false} AnnouncementsGoRound(cfgs: map<nat, Config>, events: seq<Event>, from: nat, k: nat)
    returns (ks: seq<nat>)
    requires ConfigsOk(cfgs) && AllAllowed(cfgs, events) && k in cfgs && from <= |events|
    ensures k in Run(cfgs, events[..from]).nodes && k in Run(cfgs, events).nodes
    ensures Run(cfgs, events[..from]).nodes[k].db.Keys <= Run(cfgs, events).nodes[k].db.Keys
    ensures Run(cfgs, events[..from]).nodes[k].db.Keys == Run(cfgs, events).nodes[k].db.Keys ==>
              var q := Run(cfgs, events[..from]).nodes[k].summaryQ;
              && WithinQueue(q, ks) && Announcements(cfgs, events, from, k) == Rounds.Announced(q, ks)
              && Run(cfgs, events).nodes[k].summaryQ == Rotated(q, ks)
    decreases |events|
  {
    hide Run, NetOk, AllAllowed, ConfigsOk, AnnouncedBy, Step, Rounds.Announced, Rotated;
    NodesStay(cfgs, events, k);
    NodesStay(cfgs, events[..from], k);
    ks := [];
    if from == |events| {
      assert events[..from] == events;
      NothingYet(Run(cfgs, events).nodes[k].summaryQ);
    } else {
      var n := |events| - 1;
      AllowedPrefix(cfgs, events, n);
      assert events[..n][..from] == events[..from];
      ks := AnnouncementsGoRound(cfgs, events[..n], from, k);
      EverythingIsGenuine(cfgs, events[..n]);
      EverythingIsGenuine(cfgs, events);
      RunIsStep(cfgs, events);
      var r := StepRotates(Run(cfgs, events[..n]), events[n], k);
      if Run(cfgs, events[..from]).nodes[k].db.Keys == Run(cfgs, events).nodes[k].db.Keys {
        OneBeaconMore(Run(cfgs, events[..from]).nodes[k].summaryQ, ks, r);
        ks := ks + [r];
      }
    }
  }

  lemma NothingYet(q: seq<nat>)
    ensures WithinQueue(q, []) && Rounds.Announced(q, []) == [] && Rotated(q, []) == q
  {
  }

  // The next |keys| announcements from start on name every key once, and nothing else
  ghost predicate NamesAllOnce(all: seq<nat>, start: nat, keys: set<nat>)
    requires start + |keys| <= |all|
  {
    var window := all[start..start + |keys|];
    Rounds.Distinct(window) && forall x :: x in window <==> x in keys
  }

  lemma RoundNamesAll(q: seq<nat>, ks: seq<nat>, keys: set<nat>, start: nat)
    requires Rounds.Distinct(q) && (forall x :: x in q <==> x in keys) && WithinQueue(q, ks) && keys != {}
    requires start + |keys| <= |Rounds.Announced(q, ks)|
    ensures NamesAllOnce(Rounds.Announced(q, ks), start, keys)
  {
    Rounds.AsManyAsListed(q, keys);
    Rounds.EveryVariableOncePerRound(q, ks, start);
  }

  // In every run: while node k learns of no new variable, any n consecutive summaries in its beacons name each of the n
  // variables of its database exactly once
  lemma EveryRoundNamesAll(cfgs: map<nat, Config>, events: seq<Event>, from: nat, k: nat, start: nat)
    requires ConfigsOk(cfgs) && AllAllowed(cfgs, events) && k in cfgs && from <= |events|
    ensures k in Run(cfgs, events[..from]).nodes && k in Run(cfgs, events).nodes
    ensures var keys := Run(cfgs, events).nodes[k].db.Keys;
            var all := Announcements(cfgs, events, from, k);
            Run(cfgs, events[..from]).nodes[k].db.Keys == keys && keys != {} && start + |keys| <= |all| ==>
              NamesAllOnce(all, start, keys)
  {
    hide Run, AllAllowed, ConfigsOk, Announcements, Rounds.Announced, Rotated, NamesAllOnce, Rounds.Starves;
    var ks := AnnouncementsGoRound(cfgs, events, from, k);
    var n, keys := Run(cfgs, events[..from]).nodes[k], Run(cfgs, events).nodes[k].db.Keys;
    AllowedPrefix(cfgs, events, from);
    SummaryQueueListsDatabase(cfgs, events[..from], k);
    if n.db.Keys == keys && keys != {} && start + |keys| <= |Announcements(cfgs, events, from, k)| {
      RoundNamesAll(n.summaryQ, ks, keys, start);
    }
  }
}
