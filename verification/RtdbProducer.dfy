/**
 Runs with nodes that produce one variable each: what such a node sends, beacon by beacon, and how runs are continued.
 */
module RtdbProducer {
  import opened Wrappers
  import opened RtdbTypes
  import opened RtdbSerial
  import opened RtdbNode
  import opened RtdbNetwork
  import Packet = RtdbPacket
  import Packing = RtdbPacking
  import Rounds = RtdbSummaries

  function Cfg(maxNum: nat): Config {
    Config(10, 10, 10, maxNum, 1000)
  }

  // A node that has made u updates of its variable; in creates and updates more beacons the creation and the last
  // update are to be sent
  datatype Making = Making(self: nat, v: nat, rep: nat, maxNum: nat, u: nat, creates: nat, updates: nat)
  {
    function Var(u: nat): Variable<Stamped> {
      Variable(v, self, rep, "", 1, Stamped([], u), SeqNoOf(u), false)
    }

    function ItsCreation(): IE<Stamped> {
      Create(SpecOf(Var(0)), UpdateOf(Var(0)))
    }

    function ItsUpdate(): IE<Stamped> {
      Update(UpdateOf(Var(u)))
    }

    function Db(): map<nat, Variable<Stamped>> {
      map[v := Var(u)]
    }

    function Announces(): bool {
      updates <= 1 && maxNum > 0
    }
  }

  // A queue with one element, or nothing once its repetitions are used up
  function Waiting<D>(ie: IE<D>, rep: nat): seq<Queued<D>> {
    if rep > 0 then [Queued(ie, rep)] else []
  }

  function Carried<D>(ie: IE<D>, rep: nat): seq<IE<D>> {
    if rep > 0 then [ie] else []
  }

  function Less(rep: nat): nat {
    if rep > 0 then rep - 1 else 0
  }

  function NodeOf(m: Making): Node<Stamped> {
    Node(m.self, Cfg(m.maxNum), m.Db(), Waiting(m.ItsCreation(), m.creates), Waiting(m.ItsUpdate(), m.updates),
         [m.v], [], [], [])
  }

  function ListsSent(m: Making): Packet.Lists<Stamped> {
    Packet.Lists(Carried(m.ItsCreation(), m.creates), Carried(m.ItsUpdate(), m.updates),
                 if m.Announces() then [Summary(m.v, SeqNoOf(m.u))] else [], [], [])
  }

  lemma KnowsIts(m: Making)
    ensures NodeOf(m).db == m.Db() && NodeOf(m).cfg == Cfg(m.maxNum)
  {
  }

  function After(m: Making): Making {
    m.(creates := Less(m.creates), updates := Less(m.updates))
  }

  // ---------- Sending ----------

  lemma EmptySection<D>(section: IEType, db: map<nat, Variable<D>>, size: int, max: int, stop: bool)
    ensures Packing.Outcome(section, db, [], size, max, stop) == Packing.Filled([], [], stop)
  {
  }

  lemma OneElementSection<D>(section: IEType, db: map<nat, Variable<D>>, x: Queued<D>, size: int, max: int)
    requires !Packing.Dead(section, db, x.ie) && x.rep >= 1 && size + HEADER_LEN + x.ie.Len() <= max
    ensures Packing.Outcome(section, db, [x], size, max, false)
         == Packing.Filled([x.ie], Waiting(x.ie, x.rep - 1), x.rep > 1)
  {
    hide Packing.Dead;
    assert [x][1..] == [];
    assert Packing.Taken(section, db, [x], max - size - HEADER_LEN, None) == 1;
    assert [x][..1] == [x];
    assert Packing.Live(section, db, [x]) == [x] + Packing.Live(section, db, []);
    assert Packing.Requeued([x]) == Waiting(x.ie, x.rep - 1) + Packing.Requeued([x][1..]);
    assert Packing.Elements([x]) == [x.ie];
  }

  lemma SingleLen<D>(ie: IE<D>)
    ensures TotalLen([ie]) == ie.Len() && TotalLen<D>([]) == 0
  {
    assert [ie][1..] == [];
  }

  // One of the two sections of records: its element goes into the beacon and uses up a repetition
  lemma RecordSection<D>(section: IEType, db: map<nat, Variable<D>>, ie: IE<D>, rep: nat, size: int, max: int)
    requires !Packing.Dead(section, db, ie) && size + HEADER_LEN + ie.Len() <= max
    ensures Packing.Outcome(section, db, Waiting(ie, rep), size, max, false)
         == Packing.Filled(Carried(ie, rep), Waiting(ie, Less(rep)), rep > 1)
    ensures TotalLen(Carried(ie, rep)) == if rep > 0 then ie.Len() else 0
  {
    hide Packing.Dead, Packing.Outcome, TotalLen;
    SingleLen(ie);
    if rep > 0 {
      OneElementSection(section, db, Queued(ie, rep), size, max);
    } else {
      EmptySection(section, db, size, max, false);
    }
  }

  function PlanFor(m: Making): Plan<Stamped> {
    var l, after := ListsSent(m), NodeOf(After(m));
    var size1 := HEADER_LEN + TotalLen(l.creates);
    var size2 := size1 + HEADER_LEN + TotalLen(l.updates);
    var size3 := size2 + HEADER_LEN + TotalLen(l.summaries);
    Plan(Packing.Filled(l.creates, after.createQ, m.creates > 1), Packing.Filled(l.updates, after.updateQ, m.updates > 1),
         if m.Announces() then 1 else 0, if m.Announces() then [m.v] else [],
         Packing.Filled([], [], false), Packing.Filled([], [], false), size1, size2, size3, size3 + HEADER_LEN)
  }

  lemma OneSummary(m: Making, room: int)
    requires room > Rounds.SUMMARY_LEN
    ensures Rounds.Taken(m.Db(), [m.v], m.maxNum, room) == if m.maxNum > 0 then 1 else 0
    ensures Rounds.LiveIds(m.Db(), [m.v]) == [m.v] && Rounds.LiveIds(m.Db(), []) == []
    ensures Rounds.SummariesOf(m.Db(), [m.v]) == [Summary(m.v, SeqNoOf(m.u))] && Rounds.SummariesOf(m.Db(), []) == []
  {
    hide SeqNoOf;
    assert [m.v][1..] == [];
  }

  lemma Planned(m: Making)
    ensures PlanOf(NodeOf(m), 0) == PlanFor(m)
  {
    hide PlanOf, Packing.Outcome, TotalLen, SeqNoOf, Rounds.Taken, Rounds.LiveIds, Rounds.SummariesOf;
    var n, p := NodeOf(m), PlanFor(m);
    RecordSection(CREATE_VARIABLES, n.db, m.ItsCreation(), m.creates, 0, 1000);
    RecordSection(UPDATES, n.db, m.ItsUpdate(), m.updates, p.size1, 1000);
    var announced: IE<Stamped> := Summary(m.v, SeqNoOf(m.u));
    SingleLen(announced);
    OneSummary(m, 1000 - p.size2 - HEADER_LEN);
    assert n.summaryQ[..0] == [] && n.summaryQ[..1] == n.summaryQ;
    EmptySection(REQUEST_VAR_CREATES, n.db, p.size3, 1000, false);
    EmptySection(REQUEST_VAR_UPDATES, n.db, p.size4, 1000, false);
    PlannedBySections(n, 0, p);
  }

  lemma Built(m: Making)
    ensures Build(NodeOf(m), 0) == (NodeOf(After(m)), ListsSent(m))
  {
    hide PlanOf, TotalLen, SeqNoOf, Rounds.SummariesOf, Rounds.LiveIds, Rounds.Taken;
    Planned(m);
    OneSummary(m, 1000);
    assert [m.v][0..] + [] == [m.v] && [m.v][1..] + [m.v] == [m.v];
  }

  // ---------- API requests ----------

  function Made(self: nat, v: nat, rep: nat, maxNum: nat): Making {
    Making(self, v, rep, maxNum, 0, rep, 0)
  }

  lemma Created(self: nat, v: nat, rep: nat, maxNum: nat)
    requires 0 < rep <= 10
    ensures ApiCreate(Fresh(self, Cfg(maxNum)), v, "", 1, Stamped([], 0), rep) == (NodeOf(Made(self, v, rep, maxNum)), RC_OK)
  {
    assert Stored("") == "" && SeqNoOf(0) == 1;
    var (m, rc) := ApiCreate(Fresh(self, Cfg(maxNum)), v, "", 1, Stamped([], 0), rep);
    var n := NodeOf(Made(self, v, rep, maxNum));
    assert rc == RC_OK && m.db == n.db && m.createQ == n.createQ && m.updateQ == n.updateQ && m.summaryQ == n.summaryQ;
  }

  function Updating(m: Making): Making {
    m.(u := m.u + 1, updates := m.rep)
  }

  lemma Updated(m: Making)
    requires m.rep > 0
    ensures ApiUpdate(NodeOf(m), m.v, 1, Stamped([], m.u + 1)) == (NodeOf(Updating(m)), RC_OK)
  {
    hide NextSeqNo, SeqNoOf;
    NextSeqNoOf(m.u);
    var (n, rc) := ApiUpdate(NodeOf(m), m.v, 1, Stamped([], m.u + 1));
    var after := NodeOf(Updating(m));
    assert RemoveId(NodeOf(m).updateQ, m.v) == [];
    assert rc == RC_OK && n.db == after.db && n.updateQ == after.updateQ;
  }

  lemma ReceiveOne(n: Node<Stamped>, ie: IE<Stamped>)
    ensures ReceiveAll(n, [ie]) == Receive(n, ie) && forall m: Node<Stamped> :: ReceiveAll(m, []) == m
  {
    hide Receive;
    assert [ie][..0] == [];
  }

  // ---------- Continuing a run ----------

  lemma StepDeliver(net: Network, b: nat, to: nat, l: Packet.Lists<Stamped>)
    requires b < |net.sent| && Packet.Parse(net.sent[b]) == Ok(l) && to in net.nodes
    ensures var e := Deliver(b, to);
            Allowed(net, e) && Step(net, e) == net.(nodes := net.nodes[to := Process(net.nodes[to], l)])
  {
    hide Process, Packet.Parse;
  }

  lemma Continue(cfgs: map<nat, Config>, events: seq<Event>, e: Event)
    requires ConfigsOk(cfgs) && AllAllowed(cfgs, events) && Allowed(Run(cfgs, events), e)
    ensures AllAllowed(cfgs, events + [e]) && Run(cfgs, events + [e]) == Step(Run(cfgs, events), e)
    ensures NetOk(Run(cfgs, events + [e]))
  {
    hide Allowed, NetOk, Step, ConfigsOk;
    var more := events + [e];
    assert more[..|events|] == events;
    forall i | 0 <= i < |more| ensures Allowed(Run(cfgs, more[..i]), more[i]) {
      assert more[..i] == events[..i] || i == |events|;
    }
    EverythingIsGenuine(cfgs, more);
  }
}
