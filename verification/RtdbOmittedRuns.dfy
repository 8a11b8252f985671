/**
 Reachable states in which a beacon with plenty of room leaves something out: summaries, because an update has repetitions
 left, and the request for one variable, because another variable has been requested twice.
 */
module RtdbOmittedRuns {
  import opened Wrappers
  import opened RtdbTypes
  import opened RtdbSerial
  import opened RtdbNode
  import opened RtdbNetwork
  import opened RtdbProducer
  import opened RtdbOmissions
  import Packet = RtdbPacket
  import Packing = RtdbPacking
  import Rounds = RtdbSummaries

  const RECEIVER := 1

  function Cfgs(): map<nat, Config> {
    map[0 := Cfg(1), RECEIVER := Cfg(1), 2 := Cfg(1)]
  }

  // ---------- What one event of a producer does to the network ----------

  lemma StepCreate(net: Network, k: nat, v: nat)
    requires k in net.nodes && net.nodes[k] == Fresh(k, Cfg(1)) && v !in net.hist
    ensures var e := CreateRequest(k, v, "", 1, [], 2);
            var net' := Step(net, e);
            && Allowed(net, e) && net'.nodes == net.nodes[k := NodeOf(Made(k, v, 2, 1))] && net'.sent == net.sent
            && net'.hist.Keys == net.hist.Keys + {v} && |net'.hist[v].values| == 1
  {
    hide ApiCreate, NodeOf, Fresh;
    Created(k, v, 2, 1);
    KnowsIts(Made(k, v, 2, 1));
  }

  lemma StepUpdate(net: Network, m: Making)
    requires m.self in net.nodes && net.nodes[m.self] == NodeOf(m) && m.rep > 0
    requires m.v in net.hist && |net.hist[m.v].values| == m.u + 1
    ensures var e := UpdateRequest(m.self, m.v, 1, []);
            var net' := Step(net, e);
            && Allowed(net, e) && net'.nodes == net.nodes[m.self := NodeOf(Updating(m))] && net'.sent == net.sent
            && net'.hist.Keys == net.hist.Keys
  {
    hide ApiUpdate, NodeOf;
    Updated(m);
  }

  lemma StepSend(net: Network, m: Making)
    requires NetOk(net) && m.self in net.nodes && net.nodes[m.self] == NodeOf(m)
    requires m.creates > 0 || m.updates > 0 || m.Announces()
    ensures var e := SendBeacon(m.self, 0);
            var net' := Step(net, e);
            && Allowed(net, e) && net'.nodes == net.nodes[m.self := NodeOf(After(m))]
            && net'.sent == net.sent + [Packet.Write(ListsSent(m))] && net'.hist == net.hist
            && Packet.Parse(Packet.Write(ListsSent(m))) == Ok(ListsSent(m))
  {
    hide GenuineNode, GenuineBeacon, ProducerOk, NodeOk, NodeOf, Build, Packet.Parse, Packet.Write;
    assert NodeOk(net.nodes[m.self]);
    Built(m);
    KnowsIts(m);
    KnowsIts(After(m));
    Nonempty(m);
    BuiltIsReadBack(NodeOf(m), 0);
  }

  lemma Nonempty(m: Making)
    requires m.creates > 0 || m.updates > 0 || m.Announces()
    ensures ListsSent(m) != Packet.Lists([], [], [], [], [])
  {
  }

  // ---------- An update with repetitions left ----------

  // There is a reachable node that may announce a variable and has room for it, but does not
  lemma NoSummariesDespiteRoom() returns (events: seq<Event>, l: Packet.Lists<Stamped>)
    ensures AllAllowed(Cfgs(), events)
    ensures var net := Run(Cfgs(), events);
            && 0 in net.nodes && net.nodes[0].summaryQ != [] && net.nodes[0].cfg.maxNumSummaries == 1
            && Build(net.nodes[0], 0).1 == l && l.summaries == []
            && Packet.ByteLen(Packet.Write(l)) + HEADER_LEN + Rounds.SUMMARY_LEN < 100 < net.nodes[0].cfg.maxPacketSize
  {
    hide Run, AllAllowed, NetOk, Allowed, Step, Packet.ByteLen, Packet.Write, ApiCreate, ApiUpdate, Build;
    var m := Made(0, 7, 2, 1);
    var created := CreateRequest(0, 7, "", 1, [], 2);
    StartsFresh();
    StepCreate(Start(Cfgs()), 0, 7);
    Continue(Cfgs(), [], created);
    StepUpdate(Run(Cfgs(), [] + [created]), m);
    Continue(Cfgs(), [] + [created], UpdateRequest(0, 7, 1, []));
    events := [] + [created] + [UpdateRequest(0, 7, 1, [])];
    l := ListsSent(Updating(m));
    Built(Updating(m));
    KnowsIts(Updating(m));
    BeaconLen(Updating(m));
  }

  lemma StartsFresh()
    ensures AllAllowed(Cfgs(), []) && ConfigsOk(Cfgs()) && Run(Cfgs(), []) == Start(Cfgs())
    ensures var net := Start(Cfgs());
            && net.nodes == map[0 := Fresh(0, Cfg(1)), RECEIVER := Fresh(RECEIVER, Cfg(1)), 2 := Fresh(2, Cfg(1))]
            && net.sent == [] && net.hist == map[]
  {
  }

  lemma BeaconLen(m: Making)
    ensures Packet.ByteLen(Packet.Write(ListsSent(m))) <= 3 + 17 + 3 + 6 + 3 + 3
  {
    hide Packet.ByteLen, Packet.Write, TotalLen, SeqNoOf;
    Packet.ByteLenWrite(ListsSent(m));
    SingleLen(m.ItsCreation());
    SingleLen(m.ItsUpdate());
    var announced: IE<Stamped> := Summary(m.v, SeqNoOf(m.u));
    SingleLen(announced);
  }

  // ---------- Variables requested twice ----------

  // A producer in its last state before it has nothing but summaries to send
  function Quiet(k: nat, v: nat): Making {
    Making(k, v, 2, 1, 1, 0, 0)
  }

  // A network whose node k has sent, from beacon b on, its creation and, three beacons later, nothing but the summary of
  // update 1, while all else is as in another network
  ghost predicate HasProduced(net: Network, net': Network, k: nat, v: nat) {
    var b := |net.sent|;
    && net'.nodes == net.nodes[k := NodeOf(Quiet(k, v))] && net'.hist.Keys == net.hist.Keys + {v}
    && |net'.sent| == b + 4 && net'.sent[..b] == net.sent
    && Packet.Parse(net'.sent[b]) == Ok(ListsSent(Made(k, v, 2, 1)))
    && Packet.Parse(net'.sent[b + 3]) == Ok(ListsSent(Quiet(k, v)))
  }

  lemma Produces(events: seq<Event>, k: nat, v: nat) returns (more: seq<Event>)
    requires AllAllowed(Cfgs(), events)
    requires var net := Run(Cfgs(), events); k in net.nodes && net.nodes[k] == Fresh(k, Cfg(1)) && v !in net.hist
    ensures AllAllowed(Cfgs(), more) && HasProduced(Run(Cfgs(), events), Run(Cfgs(), more), k, v)
  {
    hide Run, AllAllowed, NetOk, Allowed, Step, Packet.Write, Packet.Parse, NodeOf, Fresh, ListsSent;
    var m := Made(k, v, 2, 1);
    var create, update := CreateRequest(k, v, "", 1, [], 2), UpdateRequest(k, v, 1, []);
    StartsFresh();
    StepCreate(Run(Cfgs(), events), k, v);
    Continue(Cfgs(), events, create);
    more := Send(events + [create], m);
    StepUpdate(Run(Cfgs(), more), After(m));
    Continue(Cfgs(), more, update);
    more := Send(more + [update], Updating(After(m)));
    more := Send(more, After(Updating(After(m))));
    assert After(After(Updating(After(m)))) == Quiet(k, v) == After(Quiet(k, v));
    more := Send(more, Quiet(k, v));
  }

  lemma Send(events: seq<Event>, m: Making) returns (more: seq<Event>)
    requires AllAllowed(Cfgs(), events) && (m.creates > 0 || m.updates > 0 || m.Announces())
    requires var net := Run(Cfgs(), events); m.self in net.nodes && net.nodes[m.self] == NodeOf(m)
    ensures AllAllowed(Cfgs(), more)
    ensures var net, net' := Run(Cfgs(), events), Run(Cfgs(), more);
            && net'.nodes == net.nodes[m.self := NodeOf(After(m))] && net'.hist == net.hist
            && net'.sent == net.sent + [Packet.Write(ListsSent(m))]
            && Packet.Parse(Packet.Write(ListsSent(m))) == Ok(ListsSent(m))
  {
    hide Run, AllAllowed, NetOk, Allowed, Step, Packet.Write, Packet.Parse, NodeOf, ListsSent;
    StartsFresh();
    EverythingIsGenuine(Cfgs(), events);
    StepSend(Run(Cfgs(), events), m);
    Continue(Cfgs(), events, SendBeacon(m.self, 0));
    more := events + [SendBeacon(m.self, 0)];
  }

  // ---------- The receiver ----------

  // The receiver after it has learnt of the variable of a producer, and of update 1 of it
  function Learnt(r: Node<Stamped>, m: Making): Node<Stamped> {
    r.(db := r.db[m.v := m.Var(0)], told := r.told + [Indication(m.v, 1, Stamped([], 0))],
       createQ := r.createQ + [Queued(m.ItsCreation(), m.rep)], summaryQ := r.summaryQ + [m.v])
  }

  function Missing(r: Node<Stamped>, m: Making): Node<Stamped> {
    r.(reqUpdateQ := r.reqUpdateQ + [Queued(ReqUpdate(m.v, SeqNoOf(0)), m.rep)])
  }

  lemma HearsCreation(r: Node<Stamped>, k: nat, v: nat)
    requires v !in r.db && r.self != k && r.reqCreateQ == []
    ensures Process(r, ListsSent(Made(k, v, 2, 1))) == Learnt(r, Made(k, v, 2, 1))
  {
    hide SeqNoMoreRecent, SeqNoOf;
    var m := Made(k, v, 2, 1);
    ReceiveOne(r, m.ItsCreation());
    assert Receive(r, m.ItsCreation()) == Learnt(r, m);
    ReceiveOne(Learnt(r, m), Summary(v, SeqNoOf(0)));
    assert Receive(Learnt(r, m), Summary(v, SeqNoOf(0))) == Learnt(r, m);
  }

  lemma HearsSummary(r: Node<Stamped>, k: nat, v: nat)
    requires v in r.db && r.db[v] == Quiet(k, v).Var(0) && r.self != k
    ensures Process(r, ListsSent(Quiet(k, v))) == Missing(r, Quiet(k, v))
  {
    hide SeqNoMoreRecent, SeqNoOf;
    MoreRecentWithinWindow(0, 1);
    MoreRecentWithinWindow(0, 0);
    ReceiveOne(r, Summary(v, SeqNoOf(1)));
  }

  // The receiver once it has heard the creations of both variables, twice the summary of the first and once of the second
  function Asking(): Node<Stamped> {
    var both := Learnt(Learnt(Fresh(RECEIVER, Cfg(1)), Quiet(0, 7)), Quiet(2, 8));
    Missing(Missing(Missing(both, Quiet(0, 7)), Quiet(0, 7)), Quiet(2, 8))
  }

  lemma AskingIsReached() returns (events: seq<Event>)
    ensures AllAllowed(Cfgs(), events)
    ensures var net := Run(Cfgs(), events); RECEIVER in net.nodes && net.nodes[RECEIVER] == Asking()
  {
    hide Learnt, Missing, HasHeard;
    events := BothProduce();
    var r := Fresh<Stamped>(RECEIVER, Cfg(1));
    events := HearCreation(events, 0, r, 0, 7);
    r := Learnt(r, Quiet(0, 7));
    LearntIs(Fresh(RECEIVER, Cfg(1)), Quiet(0, 7));
    events := HearCreation(events, 4, r, 2, 8);
    LearntIs(r, Quiet(2, 8));
    r := Learnt(r, Quiet(2, 8));
    MissingIs(r, Quiet(0, 7));
    events := HearSummary(events, 3, r, 0, 7);
    r := Missing(r, Quiet(0, 7));
    MissingIs(r, Quiet(0, 7));
    events := HearSummary(events, 3, r, 0, 7);
    r := Missing(r, Quiet(0, 7));
    events := HearSummary(events, 7, r, 2, 8);
    HasHeardIs(events, Asking());
  }

  // All eight beacons are in the air, and the receiver's state is this
  ghost predicate HasHeard(events: seq<Event>, r: Node<Stamped>) {
    var net := Run(Cfgs(), events);
    && AllAllowed(Cfgs(), events) && |net.sent| == 8 && RECEIVER in net.nodes && net.nodes[RECEIVER] == r
    && Packet.Parse(net.sent[0]) == Ok(ListsSent(Made(0, 7, 2, 1))) && Packet.Parse(net.sent[3]) == Ok(ListsSent(Quiet(0, 7)))
    && Packet.Parse(net.sent[4]) == Ok(ListsSent(Made(2, 8, 2, 1))) && Packet.Parse(net.sent[7]) == Ok(ListsSent(Quiet(2, 8)))
  }

  lemma HasHeardIs(events: seq<Event>, r: Node<Stamped>)
    requires HasHeard(events, r)
    ensures AllAllowed(Cfgs(), events)
    ensures var net := Run(Cfgs(), events); RECEIVER in net.nodes && net.nodes[RECEIVER] == r
  {
    hide AllAllowed, Run, Packet.Parse, ListsSent;
  }

  lemma BothProduce() returns (events: seq<Event>)
    ensures HasHeard(events, Fresh(RECEIVER, Cfg(1)))
  {
    hide Run, AllAllowed, Packet.Parse, NodeOf, ListsSent, Fresh, Start, ConfigsOk, Made, Quiet, Cfg;
    StartsFresh();
    var first := Produces([], 0, 7);
    events := Produces(first, 2, 8);
    StillSent(Run(Cfgs(), first), Run(Cfgs(), events));
  }

  lemma StillSent(net: Network, net': Network)
    requires |net.sent| <= |net'.sent| && net'.sent[..|net.sent|] == net.sent
    ensures forall i :: 0 <= i < |net.sent| ==> net'.sent[i] == net.sent[i]
  {
  }

  lemma LearntIs(r: Node<Stamped>, m: Making)
    ensures var n := Learnt(r, m);
            && n.self == r.self && n.cfg == r.cfg && n.reqCreateQ == r.reqCreateQ && n.db == r.db[m.v := m.Var(0)]
  {
  }

  lemma MissingIs(r: Node<Stamped>, m: Making)
    ensures Missing(r, m).self == r.self && Missing(r, m).db == r.db
  {
  }

  lemma HearCreation(events: seq<Event>, b: nat, r: Node<Stamped>, k: nat, v: nat) returns (more: seq<Event>)
    requires HasHeard(events, r) && (b, k, v) in {(0, 0, 7), (4, 2, 8)}
    requires v !in r.db && r.self != k && r.reqCreateQ == []
    ensures HasHeard(more, Learnt(r, Quiet(k, v)))
  {
    hide Run, AllAllowed, Packet.Parse, ListsSent, Process;
    HearsCreation(r, k, v);
    assert Learnt(r, Made(k, v, 2, 1)) == Learnt(r, Quiet(k, v));
    more := Hear(events, b, r, Made(k, v, 2, 1));
  }

  lemma HearSummary(events: seq<Event>, b: nat, r: Node<Stamped>, k: nat, v: nat) returns (more: seq<Event>)
    requires HasHeard(events, r) && (b, k, v) in {(3, 0, 7), (7, 2, 8)}
    requires v in r.db && r.db[v] == Quiet(k, v).Var(0) && r.self != k
    ensures HasHeard(more, Missing(r, Quiet(k, v)))
  {
    hide Run, AllAllowed, Packet.Parse, ListsSent, Process;
    HearsSummary(r, k, v);
    more := Hear(events, b, r, Quiet(k, v));
  }

  lemma Hear(events: seq<Event>, b: nat, r: Node<Stamped>, m: Making) returns (more: seq<Event>)
    requires AllAllowed(Cfgs(), events)
    requires var net := Run(Cfgs(), events);
             && b < |net.sent| && Packet.Parse(net.sent[b]) == Ok(ListsSent(m))
             && RECEIVER in net.nodes && net.nodes[RECEIVER] == r
    ensures AllAllowed(Cfgs(), more)
    ensures var net, net' := Run(Cfgs(), events), Run(Cfgs(), more);
            net' == net.(nodes := net.nodes[RECEIVER := Process(r, ListsSent(m))])
  {
    hide Run, AllAllowed, NetOk, Allowed, Step, Packet.Parse, ListsSent, Process;
    StartsFresh();
    StepDeliver(Run(Cfgs(), events), b, RECEIVER, ListsSent(m));
    Continue(Cfgs(), events, Deliver(b, RECEIVER));
    more := events + [Deliver(b, RECEIVER)];
  }

  // There is a reachable node that needs the newest values of two variables, has room to ask for both, and asks for one
  lemma OneRequestDespiteRoom() returns (events: seq<Event>, l: Packet.Lists<Stamped>)
    ensures AllAllowed(Cfgs(), events)
    ensures var net := Run(Cfgs(), events);
            && RECEIVER in net.nodes
            && var n := net.nodes[RECEIVER];
               && |n.reqUpdateQ| == 3 && n.reqUpdateQ[0].ie.Id() == 7 && n.reqUpdateQ[2].ie.Id() == 8
               && Build(n, 0).1 == l && l.updateReqs == [n.reqUpdateQ[0].ie]
               && Packet.ByteLen(Packet.Write(l)) + n.reqUpdateQ[2].ie.Len() < 100 < n.cfg.maxPacketSize
  {
    hide Run, AllAllowed, NetOk, Build, Packet.Write, Packet.ByteLen, NodeOk, Asking;
    events := AskingIsReached();
    StartsFresh();
    EverythingIsGenuine(Cfgs(), events);
    SiteIsOk(Run(Cfgs(), events), RECEIVER);
    l := Build(Asking(), 0).1;
    AskingSends(l);
  }

  lemma SiteIsOk(net: Network, k: nat)
    requires NetOk(net) && k in net.nodes
    ensures NodeOk(net.nodes[k])
  {
    hide NodeOk, GenuineNode, GenuineBeacon, ProducerOk;
  }

  lemma AskingSends(l: Packet.Lists<Stamped>)
    requires NodeOk(Asking()) && l == Build(Asking(), 0).1
    ensures var n := Asking();
            && |n.reqUpdateQ| == 3 && n.reqUpdateQ[0].ie.Id() == 7 && n.reqUpdateQ[2].ie.Id() == 8
            && l.updateReqs == [n.reqUpdateQ[0].ie] && n.cfg == Cfg(1)
            && Packet.ByteLen(Packet.Write(l)) + n.reqUpdateQ[2].ie.Len() < 100
  {
    hide NodeOk, Build, Packet.Write, Packet.ByteLen, Asking, TotalLen, Packing.SentUpTo, Packing.Repeats;
    var n := Asking();
    AskingQueues();
    AskingSizes(l);
    var k := UpdateRequestsSent(n, 0);
    FirstGoesIn(n.reqUpdateQ, SizeBeforeUpdateRequests(l, 0), n.cfg.maxPacketSize, k);
    DuplicateRequestKeepsOthersOut(n, 0, 1);
    SingleLen(n.reqUpdateQ[0].ie);
    Packet.ByteLenWrite(l);
  }

  lemma AskingQueues()
    ensures var n := Asking();
            && n.createQ == [Queued(Quiet(0, 7).ItsCreation(), 2), Queued(Quiet(2, 8).ItsCreation(), 2)]
            && n.updateQ == [] && n.reqCreateQ == [] && n.cfg == Cfg(1) && |n.reqUpdateQ| == 3
            && (forall i :: 0 <= i < 3 ==> n.reqUpdateQ[i] == Queued(ReqUpdate(if i < 2 then 7 else 8, SeqNoOf(0)), 2))
            && Packing.Repeats(REQUEST_VAR_UPDATES, n.reqUpdateQ, 1)
  {
    hide SeqNoOf;
    var q := Asking().reqUpdateQ;
    assert q[0].rep > 1 && q[0].ie.Id() == q[1].ie.Id();
  }

  lemma AskingSizes(l: Packet.Lists<Stamped>)
    requires NodeOk(Asking()) && l == Build(Asking(), 0).1
    ensures TotalLen(l.creates) <= 34 && l.updates == [] && TotalLen(l.summaries) <= 3 && l.createReqs == []
    ensures TotalLen(l.updates) == 0 && TotalLen(l.createReqs) == 0
  {
    hide NodeOk, Build, Asking, TotalLen, SeqNoOf, Packet.Write, Packet.ByteLen, From, Packing.Repeats, CreatesOk, UpdatesOk;
    var n := Asking();
    AskingQueues();
    BuiltFrom(n, 0);
    BuildFits(n, 0);
    Rounds.SummariesLen(l.summaries);
    FromNothing(l.createReqs);
    FromNothing(l.updates);
    var c, u := LeavesOutWhatDoesNotFit(n, 0);
    CreationsLen(n.createQ, c);
  }

  lemma FromNothing(list: seq<IE<Stamped>>)
    ensures From(list, []) ==> list == [] && TotalLen(list) == 0
  {
    assert From(list, []) && list != [] ==> list[0] in Packing.Ies<Stamped>([]);
  }

  lemma CreationsLen(q: seq<Queued<Stamped>>, c: nat)
    requires c <= |q| == 2 && forall i :: 0 <= i < 2 ==> q[i].ie.Len() == 17
    ensures TotalLen(Packing.Elements(q[..c])) <= 34
  {
    var e := Packing.Elements(q[..c]);
    assert c > 0 ==> TotalLen(e) == e[0].Len() + TotalLen(e[1..]);
    assert c > 1 ==> TotalLen(e[1..]) == e[1].Len() + TotalLen(e[1..][1..]);
  }

  // ---------- A variable that was missed ----------

  // The receiver that has heard nothing but an update
  function Wondering(): Node<Stamped> {
    Fresh(RECEIVER, Cfg(1)).(reqCreateQ := [Queued(ReqCreate(7), 1)])
  }

  lemma WonderingIsReached() returns (events: seq<Event>)
    ensures AllAllowed(Cfgs(), events)
    ensures var net := Run(Cfgs(), events); RECEIVER in net.nodes && net.nodes[RECEIVER] == Wondering()
  {
    hide Run, AllAllowed, NetOk, Allowed, Step, Packet.Write, Packet.Parse, NodeOf, Fresh, ListsSent, Process, Start;
    var m := Made(0, 7, 2, 1);
    var create, update := CreateRequest(0, 7, "", 1, [], 2), UpdateRequest(0, 7, 1, []);
    StartsFresh();
    StepCreate(Run(Cfgs(), []), 0, 7);
    Continue(Cfgs(), [], create);
    events := Send([] + [create], m);
    events := Send(events, After(m));
    StepUpdate(Run(Cfgs(), events), After(After(m)));
    Continue(Cfgs(), events, update);
    var late := Updating(After(After(m)));
    events := Send(events + [update], late);
    events := Hear(events, 2, Fresh(RECEIVER, Cfg(1)), late);
    HearsUpdate(late);
  }

  lemma HearsUpdate(m: Making)
    requires m.v == 7 && m.creates == 0 && m.updates == 2
    ensures Process(Fresh(RECEIVER, Cfg(1)), ListsSent(m)) == Wondering()
  {
    hide SeqNoOf;
    ReceiveOne(Fresh(RECEIVER, Cfg(1)), m.ItsUpdate());
  }

  // There is a reachable node that has heard an update of a variable it does not know, and its beacon asks for just that
  // variable
  lemma MissedVariableIsAskedFor() returns (events: seq<Event>, l: Packet.Lists<Stamped>)
    ensures AllAllowed(Cfgs(), events)
    ensures var net := Run(Cfgs(), events);
            && RECEIVER in net.nodes && 7 !in net.nodes[RECEIVER].db && 7 in net.hist
            && Build(net.nodes[RECEIVER], 0).1 == l && l.createReqs == [ReqCreate(7)]
            && Build(net.nodes[RECEIVER], 0).0.reqCreateQ == []
  {
    hide Run, AllAllowed, NetOk, Build, NodeOk, Wondering;
    events := WonderingIsReached();
    StartsFresh();
    EverythingIsGenuine(Cfgs(), events);
    SiteIsOk(Run(Cfgs(), events), RECEIVER);
    l := Build(Wondering(), 0).1;
    WonderingAsks(l);
    RequestedExists(Run(Cfgs(), events));
  }

  lemma RequestedExists(net: Network)
    requires NetOk(net) && RECEIVER in net.nodes && net.nodes[RECEIVER] == Wondering()
    ensures 7 in net.hist
  {
    hide NodeOk, GenuineBeacon, ProducerOk, GenuineDb;
    assert GenuineQueue(net.hist, net.nodes[RECEIVER].reqCreateQ);
    assert Genuine(net.hist, Wondering().reqCreateQ[0].ie);
  }

  lemma WonderingAsks(l: Packet.Lists<Stamped>)
    requires NodeOk(Wondering()) && l == Build(Wondering(), 0).1
    ensures 7 !in Wondering().db && l.createReqs == [ReqCreate(7)] && Build(Wondering(), 0).0.reqCreateQ == []
  {
    hide NodeOk, Build, TotalLen, From;
    var n := Wondering();
    BuiltFrom(n, 0);
    FromNothing(l.creates);
    FromNothing(l.updates);
    BuildFits(n, 0);
    Rounds.SummariesLen(l.summaries);
    var k := CreateRequestsSent(n, 0);
    assert n.reqCreateQ[..0] == [];
    EmptyLen(l.createReqs);
    assert n.reqCreateQ[..1] == n.reqCreateQ && n.reqCreateQ[1..] == [] && n.reqCreateQ[0..] == n.reqCreateQ;
  }
}
