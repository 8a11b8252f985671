/**
 A run in which a record does go back: a beacon that was sent 129 updates ago is delivered late, after the receiver has
 followed its producer all the way, and is taken for news.
 */
module RtdbOldNews {
  import opened Wrappers
  import opened RtdbTypes
  import opened RtdbSerial
  import opened RtdbNode
  import opened RtdbNetwork
  import opened RtdbProducer
  import Packet = RtdbPacket

  const VAR := 7
  const PRODUCER := 0
  const RECEIVER := 1

  function Cfgs(): map<nat, Config> {
    map[PRODUCER := Cfg(0), RECEIVER := Cfg(0)]
  }

  datatype Pending = Nothing | ItsCreation | ItsUpdate

  // The producer after u updates with something, or nothing, waiting to be sent once
  function Producer(u: nat, pending: Pending): Making {
    Making(PRODUCER, VAR, 1, 0, u, if pending.ItsCreation? then 1 else 0, if pending.ItsUpdate? then 1 else 0)
  }

  // ---------- The scene ----------

  // The producer has made u updates; the receiver does not know the variable or holds one of them; sent tells which
  // updates the beacons sent so far carry, the first of them the creation
  ghost predicate Scene(net: Network, u: nat, pending: Pending, theirs: Option<nat>, sent: seq<nat>) {
    && NetOk(net) && net.nodes.Keys == {PRODUCER, RECEIVER}
    && net.nodes[PRODUCER] == NodeOf(Producer(u, pending)) && (pending.ItsCreation? ==> u == 0)
    && VAR in net.hist && |net.hist[VAR].values| == u + 1
    && (theirs.None? ==> VAR !in net.nodes[RECEIVER].db)
    && (theirs.Some? ==>
          && VAR in net.nodes[RECEIVER].db && net.nodes[RECEIVER].db[VAR].producer == PRODUCER
          && net.nodes[RECEIVER].db[VAR].data.upd == theirs.value)
    && |net.sent| == |sent| && (sent != [] ==> sent[0] == 0)
    && (forall i :: 0 <= i < |sent| ==>
          Packet.Parse(net.sent[i]) == Ok(ListsSent(Producer(sent[i], if i == 0 then ItsCreation else ItsUpdate))))
  }

  ghost predicate Story(events: seq<Event>, u: nat, pending: Pending, theirs: Option<nat>, sent: seq<nat>) {
    AllAllowed(Cfgs(), events) && Scene(Run(Cfgs(), events), u, pending, theirs, sent)
  }

  lemma Begin() returns (events: seq<Event>)
    ensures Story(events, 0, ItsCreation, None, [])
  {
    hide NetOk, ApiCreate, NodeOf, Fresh;
    var e := CreateRequest(PRODUCER, VAR, "", 1, [], 1);
    var start := Run(Cfgs(), []);
    Created(PRODUCER, VAR, 1, 0);
    KnowsIts(Producer(0, ItsCreation));
    Continue(Cfgs(), [], e);
    events := [] + [e];
    FreshKnowsNothing();
  }

  lemma FreshKnowsNothing()
    ensures Fresh<Stamped>(RECEIVER, Cfg(0)).db == map[]
  {
  }

  lemma SceneUpdate(net: Network, u: nat, pending: Pending, theirs: Option<nat>, sent: seq<nat>)
    requires Scene(net, u, pending, theirs, sent) && !pending.ItsCreation?
    ensures var e := UpdateRequest(PRODUCER, VAR, 1, []);
            Allowed(net, e) && (NetOk(Step(net, e)) ==> Scene(Step(net, e), u + 1, ItsUpdate, theirs, sent))
  {
    hide NetOk, Packet.Parse, ApiUpdate, NodeOf;
    Updated(Producer(u, pending));
    assert Step(net, UpdateRequest(PRODUCER, VAR, 1, [])).nodes.Keys == net.nodes.Keys;
  }

  lemma UpdateOnce(events: seq<Event>, u: nat, pending: Pending, theirs: Option<nat>, sent: seq<nat>)
    requires Story(events, u, pending, theirs, sent) && !pending.ItsCreation?
    ensures Story(events + [UpdateRequest(PRODUCER, VAR, 1, [])], u + 1, ItsUpdate, theirs, sent)
  {
    hide NetOk, AllAllowed, Run, Step, Scene, Allowed;
    SceneUpdate(Run(Cfgs(), events), u, pending, theirs, sent);
    Continue(Cfgs(), events, UpdateRequest(PRODUCER, VAR, 1, []));
  }

  function Updates(n: nat): seq<Event> {
    if n == 0 then [] else Updates(n - 1) + [UpdateRequest(PRODUCER, VAR, 1, [])]
  }

  lemma {:induction false} UpdateOften(events: seq<Event>, n: nat, u: nat, theirs: Option<nat>, sent: seq<nat>)
    requires Story(events, u, Nothing, theirs, sent)
    ensures Story(events + Updates(n), u + n, if n == 0 then Nothing else ItsUpdate, theirs, sent)
  {
    hide Story;
    if n == 0 {
      assert events + [] == events;
    } else {
      UpdateOften(events, n - 1, u, theirs, sent);
      UpdateOnce(events + Updates(n - 1), u + n - 1, if n == 1 then Nothing else ItsUpdate, theirs, sent);
      assert events + Updates(n - 1) + [UpdateRequest(PRODUCER, VAR, 1, [])] == events + Updates(n);
    }
  }

  lemma SceneSend(net: Network, u: nat, pending: Pending, theirs: Option<nat>, sent: seq<nat>)
    requires Scene(net, u, pending, theirs, sent) && !pending.Nothing? && (pending.ItsCreation? <==> sent == [])
    ensures var e := SendBeacon(PRODUCER, 0);
            Allowed(net, e) && (NetOk(Step(net, e)) ==> Scene(Step(net, e), u, Nothing, theirs, sent + [u]))
  {
    hide Packet.Parse, Packet.Write, Build, GenuineNode, GenuineBeacon, ProducerOk, CreatesOk, UpdatesOk, SummariesOk, RequestsOk,
         NodeOf;
    Built(Producer(u, pending));
    SomethingSent(u, pending);
    KnowsIts(Producer(u, Nothing));
    assert Step(net, SendBeacon(PRODUCER, 0)).nodes.Keys == net.nodes.Keys;
    assert NodeOk(net.nodes[PRODUCER]);
    BuiltIsReadBack(NodeOf(Producer(u, pending)), 0);
  }

  lemma SomethingSent(u: nat, pending: Pending)
    requires !pending.Nothing?
    ensures ListsSent(Producer(u, pending)) != Packet.Lists([], [], [], [], [])
    ensures After(Producer(u, pending)) == Producer(u, Nothing)
  {
  }

  lemma Send(events: seq<Event>, u: nat, pending: Pending, theirs: Option<nat>, sent: seq<nat>)
    requires Story(events, u, pending, theirs, sent) && !pending.Nothing?
    requires pending.ItsCreation? <==> sent == []
    ensures Story(events + [SendBeacon(PRODUCER, 0)], u, Nothing, theirs, sent + [u])
  {
    hide NetOk, AllAllowed, Run, Step, Scene, Allowed;
    SceneSend(Run(Cfgs(), events), u, pending, theirs, sent);
    Continue(Cfgs(), events, SendBeacon(PRODUCER, 0));
  }

  // What the receiver holds after a beacon with one element
  lemma SceneDeliver(net: Network, u: nat, theirs: Option<nat>, sent: seq<nat>, b: nat)
    requires Scene(net, u, Nothing, theirs, sent) && b < |sent| && (b == 0 <==> theirs.None?)
    ensures var e, after := Deliver(b, RECEIVER), Heard(theirs, sent[b]);
            Allowed(net, e) && (NetOk(Step(net, e)) ==> Scene(Step(net, e), u, Nothing, Some(after), sent))
  {
    hide NetOk, Packet.Parse, Process, Receive, Heard, NodeOf, ListsSent, Step, Allowed, Producer;
    var m := Producer(sent[b], if b == 0 then ItsCreation else ItsUpdate);
    var ie := if b == 0 then m.ItsCreation() else m.ItsUpdate();
    assert Packet.Parse(net.sent[b]) == Ok(ListsSent(m));
    SingleElement(sent[b], b == 0);
    ProcessOne(net.nodes[RECEIVER], ListsSent(m), ie);
    ReceiverHears(net, theirs, sent[b], ie);
    StepDeliver(net, b, RECEIVER, ListsSent(m));
  }

  lemma SingleElement(u: nat, first: bool)
    ensures var m := Producer(u, if first then ItsCreation else ItsUpdate);
            ListsSent(m) == if first then Packet.Lists([m.ItsCreation()], [], [], [], [])
                            else Packet.Lists([], [m.ItsUpdate()], [], [], [])
  {
    hide SeqNoOf;
  }

  function Heard(theirs: Option<nat>, upd: nat): nat {
    if theirs.None? || SeqNoMoreRecent(SeqNoOf(theirs.value), SeqNoOf(upd)) then upd else theirs.value
  }

  lemma ReceiverHears(net: Network, theirs: Option<nat>, upd: nat, ie: IE<Stamped>)
    requires NetOk(net) && RECEIVER in net.nodes
    requires theirs.None? ==> upd == 0 && VAR !in net.nodes[RECEIVER].db && ie == Producer(0, ItsCreation).ItsCreation()
    requires theirs.Some? ==>
               && VAR in net.nodes[RECEIVER].db && net.nodes[RECEIVER].db[VAR].producer == PRODUCER
               && net.nodes[RECEIVER].db[VAR].data.upd == theirs.value && ie == Producer(upd, ItsUpdate).ItsUpdate()
    ensures var db := Receive(net.nodes[RECEIVER], ie).db;
            VAR in db && db[VAR].producer == PRODUCER && db[VAR].data.upd == Heard(theirs, upd)
  {
    hide NodeOk, GenuineBeacon, GenuineQueue, ProducerOk, SeqNoMoreRecent, SeqNoOf, RemoveId;
    if theirs.Some? {
      VarIsGenuine(net.hist, net.nodes[RECEIVER], VAR);
      NotDeleted(net, RECEIVER, VAR);
    }
  }

  // The receiver takes an update over exactly when the sequence numbers say so
  lemma DeliverTo(events: seq<Event>, u: nat, theirs: Option<nat>, sent: seq<nat>, b: nat)
    requires Story(events, u, Nothing, theirs, sent) && b < |sent| && (b == 0 <==> theirs.None?)
    ensures Story(events + [Deliver(b, RECEIVER)], u, Nothing, Some(Heard(theirs, sent[b])), sent)
  {
    hide NetOk, AllAllowed, Run, Step, Scene, Allowed, Heard;
    SceneDeliver(Run(Cfgs(), events), u, theirs, sent, b);
    Continue(Cfgs(), events, Deliver(b, RECEIVER));
  }

  // A beacon with a single element does what the element does
  lemma ProcessOne(n: Node<Stamped>, l: Packet.Lists<Stamped>, ie: IE<Stamped>)
    requires l == Packet.Lists([ie], [], [], [], []) || l == Packet.Lists([], [ie], [], [], [])
    ensures Process(n, l) == Receive(n, ie)
  {
    hide Receive;
    ReceiveOne(n, ie);
  }

  lemma NotDeleted(net: Network, k: nat, id: nat)
    requires NetOk(net) && k in net.nodes && id in net.nodes[k].db
    ensures !net.nodes[k].db[id].toBeDeleted && net.nodes[k].self == k
  {
    hide GenuineNode, GenuineBeacon, ProducerOk;
    assert NodeOk(net.nodes[k]);
  }

  // ---------- The run ----------

  // There is a reachable state in which a receiver holds update 130, and the delivery of a beacon sent long before takes
  // it back to update 1
  lemma OldNewsIsTaken() returns (events: seq<Event>)
    ensures AllAllowed(Cfgs(), events) && AllAllowed(Cfgs(), events + [Deliver(1, RECEIVER)])
    ensures var before, after := Run(Cfgs(), events), Run(Cfgs(), events + [Deliver(1, RECEIVER)]);
            && RECEIVER in before.nodes && VAR in before.nodes[RECEIVER].db
            && before.nodes[RECEIVER].db[VAR].data.upd == 130
            && RECEIVER in after.nodes && VAR in after.nodes[RECEIVER].db
            && after.nodes[RECEIVER].db[VAR].data.upd == 1
  {
    hide Story, SeqNoMoreRecent, SeqNoOf;
    events := UpToUpdate130();
    StoryMeans(events, 130, Some(130), [0, 1, 65, 130]);
    StaleTakenForNew(1);
    DeliverTo(events, 130, Some(130), [0, 1, 65, 130], 1);
    StoryMeans(events + [Deliver(1, RECEIVER)], 130, Some(1), [0, 1, 65, 130]);
  }

  lemma StoryMeans(events: seq<Event>, u: nat, theirs: Option<nat>, sent: seq<nat>)
    requires Story(events, u, Nothing, theirs, sent) && theirs.Some?
    ensures AllAllowed(Cfgs(), events)
    ensures var net := Run(Cfgs(), events);
            && RECEIVER in net.nodes && VAR in net.nodes[RECEIVER].db
            && net.nodes[RECEIVER].db[VAR].data.upd == theirs.value
  {
    hide NetOk, AllAllowed;
  }

  lemma UpToUpdate130() returns (events: seq<Event>)
    ensures Story(events, 130, Nothing, Some(130), [0, 1, 65, 130])
  {
    hide Story, SeqNoMoreRecent, SeqNoOf;
    events := UpToUpdate65();
    UpdateOften(events, 65, 65, Some(65), [0, 1, 65]);
    events := events + Updates(65);
    Send(events, 130, ItsUpdate, Some(65), [0, 1, 65]);
    events := events + [SendBeacon(PRODUCER, 0)];
    assert [0, 1, 65] + [130] == [0, 1, 65, 130];
    DeliverTo(events, 130, Some(65), [0, 1, 65, 130], 3);
    MoreRecentWithinWindow(65, 130);
    events := events + [Deliver(3, RECEIVER)];
  }

  lemma UpToUpdate65() returns (events: seq<Event>)
    ensures Story(events, 65, Nothing, Some(65), [0, 1, 65])
  {
    hide Story, SeqNoMoreRecent, SeqNoOf;
    events := UpToUpdate1();
    UpdateOften(events, 64, 1, Some(0), [0, 1]);
    events := events + Updates(64);
    Send(events, 65, ItsUpdate, Some(0), [0, 1]);
    events := events + [SendBeacon(PRODUCER, 0)];
    assert [0, 1] + [65] == [0, 1, 65];
    DeliverTo(events, 65, Some(0), [0, 1, 65], 2);
    MoreRecentWithinWindow(0, 65);
    events := events + [Deliver(2, RECEIVER)];
  }

  // The beacon of update 1 is sent but not delivered yet
  lemma UpToUpdate1() returns (events: seq<Event>)
    ensures Story(events, 1, Nothing, Some(0), [0, 1])
  {
    hide Story;
    events := Begin();
    Send(events, 0, ItsCreation, None, []);
    events := events + [SendBeacon(PRODUCER, 0)];
    assert [] + [0] == [0];
    DeliverTo(events, 0, None, [0], 0);
    events := events + [Deliver(0, RECEIVER)];
    UpdateOnce(events, 0, Nothing, Some(0), [0]);
    events := events + [UpdateRequest(PRODUCER, VAR, 1, [])];
    Send(events, 1, ItsUpdate, Some(0), [0]);
    events := events + [SendBeacon(PRODUCER, 0)];
    assert [0] + [1] == [0, 1];
  }
}
