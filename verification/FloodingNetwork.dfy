/**
 Flooding over any topology: a node may hear anything any node has ever sent, or never hear it, in any order
 and any number of times.
 */
module FloodingNetwork {
  import opened FloodingNode

  // chain tells for each node that has a flood (source, sequence number) along which nodes it came
  datatype Network<P> = Network(
    nodes: map<nat, State<P>>,
    chain: map<(nat, nat, nat), seq<nat>>)

  datatype Event<P> =
    | Send(node: nat, payload: P)
    | Timer(node: nat)
    | Receive(node: nat, from: nat, index: nat)

  // A sequence number is not used a second time, which is to say that the 32-bit counter does not wrap
  ghost predicate Allowed<P>(net: Network<P>, e: Event<P>) {
    match e
    case Send(k, _) => k in net.nodes && (k, k, net.nodes[k].seqno) !in net.chain
    case Timer(k) => k in net.nodes && net.nodes[k].timer
    case Receive(k, m, i) => k in net.nodes && m in net.nodes && i < |net.nodes[m].sent|
  }

  // The nodes along which the flood of p came to node m
  function ChainOf<P>(net: Network<P>, m: nat, p: Flood<P>): seq<nat> {
    var key := (m, p.source, p.seqno);
    if key in net.chain then net.chain[key] else []
  }

  function Step<P>(net: Network<P>, e: Event<P>): Network<P> {
    match e
    case Send(k, payload) =>
      if k !in net.nodes then net
      else Network(net.nodes[k := Originate(net.nodes[k], payload)],
                   net.chain[(k, k, net.nodes[k].seqno) := [k]])
    case Timer(k) =>
      if k !in net.nodes || net.nodes[k].current.None? then net
      else net.(nodes := net.nodes[k := Fire(net.nodes[k])])
    case Receive(k, m, i) =>
      if k !in net.nodes || m !in net.nodes || i >= |net.nodes[m].sent| then net
      else
        var p := net.nodes[m].sent[i];
        if !Accepts(net.nodes[k], p) then net
        else Network(net.nodes[k := Hear(net.nodes[k], p)],
                     net.chain[(k, p.source, p.seqno) := ChainOf(net, m, p) + [k]])
  }

  function Start<P>(ks: set<nat>, repetitions: nat): Network<P> {
    Network(map k | k in ks :: Init(k, repetitions), map[])
  }

  function Run<P>(ks: set<nat>, repetitions: nat, events: seq<Event<P>>): Network<P> {
    if events == [] then Start(ks, repetitions)
    else Step(Run(ks, repetitions, events[..|events| - 1]), events[|events| - 1])
  }

  ghost predicate AllAllowed<P>(ks: set<nat>, repetitions: nat, events: seq<Event<P>>) {
    forall i :: 0 <= i < |events| ==> Allowed(Run(ks, repetitions, events[..i]), events[i])
  }

  // ---------- The invariant ----------

  // The nodes of a chain are different nodes of the network that all have the flood; it leads from the source
  // to the node
  ghost predicate ChainOk<P>(net: Network<P>, k: nat, s: nat, q: nat) {
    && (k, s, q) in net.chain
    && var c := net.chain[(k, s, q)];
       && c != [] && c[0] == s && c[|c| - 1] == k
       && (forall i, j :: 0 <= i < j < |c| ==> c[i] != c[j])
       && (forall i :: 0 <= i < |c| ==> c[i] in net.nodes && (c[i], s, q) in net.chain)
  }

  // A node that has a flood of another source has seen its number or a higher one
  ghost predicate SeenOk<P>(net: Network<P>, k: nat, s: nat, q: nat) {
    k in net.nodes && (k != s ==> s in net.nodes[k].lastSeen && q <= net.nodes[k].lastSeen[s])
  }

  // A copy forwarded h times has come along h + 1 nodes and carries the initial time to live less h
  ghost predicate Traced<P>(net: Network<P>, k: nat, p: Flood<P>) {
    && (k, p.source, p.seqno) in net.chain
    && p.ttl == TTL_INIT - (|net.chain[(k, p.source, p.seqno)]| - 1)
  }

  ghost predicate QueuedOnce<P>(n: State<P>) {
    forall i, j :: 0 <= i < j < |n.queued| ==>
      n.queued[i].source != n.queued[j].source || n.queued[i].seqno != n.queued[j].seqno
  }

  ghost predicate SiteOk<P>(net: Network<P>, repetitions: nat, k: nat) {
    && k in net.nodes
    && var n := net.nodes[k];
       && n.self == k && n.repetitions == repetitions && NodeOk(n) && QueuedOnce(n)
       && (forall i :: 0 <= i < |n.queued| ==> Traced(net, k, n.queued[i]))
  }

  ghost predicate NetOk<P>(net: Network<P>, repetitions: nat) {
    && (forall k :: k in net.nodes ==> SiteOk(net, repetitions, k))
    && (forall key :: key in net.chain ==>
          ChainOk(net, key.0, key.1, key.2) && SeenOk(net, key.0, key.1, key.2))
  }

  // ---------- What is sent has been queued ----------

  lemma {:induction false} RepeatedMember<P>(ps: seq<Flood<P>>, k: nat, p: Flood<P>)
    requires p in Repeated(ps, k)
    ensures p in ps
  {
    var rest, last := ps[..|ps| - 1], ps[|ps| - 1];
    if p in Repeated(rest, k) {
      RepeatedMember(rest, k, p);
    } else {
      assert p in Times(last, k);
    }
  }

  lemma SentWasQueued<P>(n: State<P>, p: Flood<P>)
    requires NodeOk(n) && p in n.sent
    ensures p in n.queued
  {
    hide Repeated, UpOk;
    if p in Repeated(n.done, n.repetitions) {
      RepeatedMember(n.done, n.repetitions, p);
    } else {
      assert p == n.current.value;
      assert p in InHand(n);
    }
  }

  // ---------- Steps keep the invariant ----------

  // Growth of the network elsewhere: histories of nodes stay, chains stay
  ghost predicate Grows<P>(net: Network<P>, net': Network<P>) {
    && net'.nodes.Keys == net.nodes.Keys
    && (forall key :: key in net.chain ==> key in net'.chain && net'.chain[key] == net.chain[key])
    && (forall k, s :: k in net.nodes && s in net.nodes[k].lastSeen ==>
          s in net'.nodes[k].lastSeen && net.nodes[k].lastSeen[s] <= net'.nodes[k].lastSeen[s])
  }

  lemma ChainGrows<P>(net: Network<P>, net': Network<P>, k: nat, s: nat, q: nat)
    requires Grows(net, net') && ChainOk(net, k, s, q) && SeenOk(net, k, s, q)
    ensures ChainOk(net', k, s, q) && SeenOk(net', k, s, q)
  {
  }

  lemma SiteGrows<P>(net: Network<P>, net': Network<P>, repetitions: nat, k: nat)
    requires Grows(net, net') && SiteOk(net, repetitions, k) && net'.nodes[k] == net.nodes[k]
    ensures SiteOk(net', repetitions, k)
  {
    hide NodeOk, QueuedOnce;
    forall i | 0 <= i < |net.nodes[k].queued| ensures Traced(net', k, net.nodes[k].queued[i]) {
      assert Traced(net, k, net.nodes[k].queued[i]);
    }
  }

  // One node k takes a step; at most one flood is new to it
  lemma StepAt<P>(net: Network<P>, net': Network<P>, repetitions: nat, k: nat)
    requires NetOk(net, repetitions) && k in net.nodes && Grows(net, net')
    requires net'.nodes == net.nodes[k := net'.nodes[k]]
    requires SiteOk(net', repetitions, k)
    requires forall key :: key in net'.chain && key !in net.chain ==>
               ChainOk(net', key.0, key.1, key.2) && SeenOk(net', key.0, key.1, key.2)
    ensures NetOk(net', repetitions)
  {
    hide NodeOk, QueuedOnce, Grows, SiteOk, ChainOk, SeenOk;
    forall x | x in net'.nodes ensures SiteOk(net', repetitions, x) {
      if x != k {
        SiteGrows(net, net', repetitions, x);
      }
    }
    forall key | key in net'.chain ensures ChainOk(net', key.0, key.1, key.2) && SeenOk(net', key.0, key.1, key.2) {
      if key in net.chain {
        ChainGrows(net, net', key.0, key.1, key.2);
      }
    }
  }

  lemma QueuedGrows<P>(net: Network<P>, net': Network<P>, repetitions: nat, k: nat, p: Flood<P>)
    requires SiteOk(net, repetitions, k) && Grows(net, net') && k in net'.nodes
    requires net'.nodes[k].self == k && net'.nodes[k].repetitions == repetitions && NodeOk(net'.nodes[k])
    requires net'.nodes[k].queued == net.nodes[k].queued + [p]
    requires (k, p.source, p.seqno) !in net.chain && Traced(net', k, p)
    ensures SiteOk(net', repetitions, k)
  {
    hide NodeOk;
    var n, m := net.nodes[k], net'.nodes[k];
    forall i | 0 <= i < |m.queued| ensures Traced(net', k, m.queued[i]) {
      if i < |n.queued| {
        assert Traced(net, k, n.queued[i]);
      }
    }
    forall i, j | 0 <= i < j < |m.queued|
      ensures m.queued[i].source != m.queued[j].source || m.queued[i].seqno != m.queued[j].seqno
    {
      if j == |n.queued| {
        assert Traced(net, k, n.queued[i]);
      }
    }
  }

  lemma SendOk<P>(net: Network<P>, repetitions: nat, e: Event<P>)
    requires NetOk(net, repetitions) && e.Send? && Allowed(net, e)
    ensures NetOk(Step(net, e), repetitions)
  {
    hide NodeOk, QueuedOnce;
    var k := e.node;
    var n, net' := net.nodes[k], Step(net, e);
    assert SiteOk(net, repetitions, k);
    OriginateOk(n, e.payload);
    var p := Flood(k, n.seqno, TTL_INIT, e.payload);
    assert net'.nodes[k].queued == n.queued + [p];
    QueuedGrows(net, net', repetitions, k, p);
    StepAt(net, net', repetitions, k);
  }

  lemma TimerOkStep<P>(net: Network<P>, repetitions: nat, e: Event<P>)
    requires NetOk(net, repetitions) && e.Timer? && Allowed(net, e)
    ensures NetOk(Step(net, e), repetitions)
  {
    hide Paced, UpOk, QueuedOnce;
    var k := e.node;
    var n, net' := net.nodes[k], Step(net, e);
    assert SiteOk(net, repetitions, k);
    FireOk(n);
    SiteAfterFire(net, net', repetitions, k);
    StepAt(net, net', repetitions, k);
  }

  lemma SiteAfterFire<P>(net: Network<P>, net': Network<P>, repetitions: nat, k: nat)
    requires SiteOk(net, repetitions, k) && k in net'.nodes && net'.chain == net.chain
    requires net.nodes[k].current.Some? && net'.nodes[k] == Fire(net.nodes[k]) && NodeOk(net'.nodes[k])
    ensures SiteOk(net', repetitions, k)
  {
    hide NodeOk;
    var n, m := net.nodes[k], net'.nodes[k];
    assert m.queued == n.queued;
    forall i | 0 <= i < |m.queued| ensures Traced(net', k, m.queued[i]) {
      assert Traced(net, k, n.queued[i]);
    }
  }

  // A packet that a node accepts comes from a node that has the flood, along a chain that leaves the node out
  lemma AcceptedIsNew<P>(net: Network<P>, repetitions: nat, k: nat, m: nat, p: Flood<P>)
    requires NetOk(net, repetitions) && k in net.nodes && m in net.nodes && p in net.nodes[m].sent
    requires Accepts(net.nodes[k], p)
    ensures Traced(net, m, p) && (k, p.source, p.seqno) !in net.chain
    ensures var c := net.chain[(m, p.source, p.seqno)]; ChainOk(net, m, p.source, p.seqno) && k !in c
  {
    hide NodeOk, QueuedOnce;
    assert SiteOk(net, repetitions, m) && SiteOk(net, repetitions, k);
    SentWasQueued(net.nodes[m], p);
    var i :| 0 <= i < |net.nodes[m].queued| && net.nodes[m].queued[i] == p;
    assert Traced(net, m, net.nodes[m].queued[i]);
    var key := (m, p.source, p.seqno);
    assert key in net.chain && ChainOk(net, key.0, key.1, key.2);
    if (k, p.source, p.seqno) in net.chain {
      HasSeen(net, repetitions, k, p.source, p.seqno);
    }
  }

  lemma HasSeen<P>(net: Network<P>, repetitions: nat, k: nat, s: nat, q: nat)
    requires NetOk(net, repetitions) && (k, s, q) in net.chain
    ensures SeenOk(net, k, s, q)
  {
    var own := (k, s, q);
    assert SeenOk(net, own.0, own.1, own.2);
  }

  lemma SiteOf<P>(net: Network<P>, repetitions: nat, k: nat)
    requires NetOk(net, repetitions) && k in net.nodes
    ensures SiteOk(net, repetitions, k)
  {
  }

  lemma HearKeeps<P>(n: State<P>, p: Flood<P>)
    requires Accepts(n, p)
    ensures Hear(n, p).lastSeen == n.lastSeen[p.source := p.seqno]
  {
  }

  lemma ReceiveOk<P>(net: Network<P>, repetitions: nat, e: Event<P>)
    requires NetOk(net, repetitions) && e.Receive? && Allowed(net, e)
    ensures NetOk(Step(net, e), repetitions)
  {
    hide NodeOk, QueuedOnce, Enqueue, Hear, NetOk, ChainOk;
    var Receive(k, m, i) := e;
    var n, net' := net.nodes[k], Step(net, e);
    var p := net.nodes[m].sent[i];
    if Accepts(n, p) {
      AcceptedIsNew(net, repetitions, k, m, p);
      SiteOf(net, repetitions, k);
      HearOk(n, p);
      HearKeeps(n, p);
      NewChainOk(net, net', k, m, p);
      SiteAfterHear(net, net', repetitions, k, p);
      StepAt(net, net', repetitions, k);
    }
  }

  lemma NewChainOk<P>(net: Network<P>, net': Network<P>, k: nat, m: nat, p: Flood<P>)
    requires Grows(net, net') && k in net.nodes && ChainOk(net, m, p.source, p.seqno)
    requires k !in net.chain[(m, p.source, p.seqno)]
    requires net'.chain == net.chain[(k, p.source, p.seqno) := net.chain[(m, p.source, p.seqno)] + [k]]
    requires p.source in net'.nodes[k].lastSeen && net'.nodes[k].lastSeen[p.source] == p.seqno
    ensures ChainOk(net', k, p.source, p.seqno) && SeenOk(net', k, p.source, p.seqno)
  {
  }

  lemma SiteAfterHear<P>(net: Network<P>, net': Network<P>, repetitions: nat, k: nat, p: Flood<P>)
    requires SiteOk(net, repetitions, k) && k in net'.nodes && Grows(net, net')
    requires Accepts(net.nodes[k], p) && net'.nodes[k] == Hear(net.nodes[k], p) && NodeOk(net'.nodes[k])
    requires (k, p.source, p.seqno) !in net.chain && (k, p.source, p.seqno) in net'.chain
    requires p.ttl == TTL_INIT - (|net'.chain[(k, p.source, p.seqno)]| - 2)
    ensures SiteOk(net', repetitions, k)
  {
    hide NodeOk;
    var n, m := net.nodes[k], net'.nodes[k];
    if p.ttl > 0 {
      assert m.queued == n.queued + [p.(ttl := p.ttl - 1)];
      QueuedGrows(net, net', repetitions, k, p.(ttl := p.ttl - 1));
    } else {
      assert m.queued == n.queued;
      forall i | 0 <= i < |m.queued| ensures Traced(net', k, m.queued[i]) {
        assert Traced(net, k, n.queued[i]);
      }
    }
  }

  lemma StepOk<P>(net: Network<P>, repetitions: nat, e: Event<P>)
    requires NetOk(net, repetitions) && Allowed(net, e)
    ensures NetOk(Step(net, e), repetitions)
  {
    hide NetOk, Step, Allowed;
    match e
    case Send(_, _) => SendOk(net, repetitions, e);
    case Timer(_) => TimerOkStep(net, repetitions, e);
    case Receive(_, _, _) => ReceiveOk(net, repetitions, e);
  }

  lemma AllowedPrefix<P>(ks: set<nat>, repetitions: nat, events: seq<Event<P>>, n: nat)
    requires AllAllowed(ks, repetitions, events) && n <= |events|
    ensures AllAllowed(ks, repetitions, events[..n])
  {
    hide Allowed, Run;
    forall i | 0 <= i < n ensures Allowed(Run(ks, repetitions, events[..n][..i]), events[..n][i]) {
      assert events[..n][..i] == events[..i];
    }
  }

  lemma StartOk<P>(ks: set<nat>, repetitions: nat)
    requires repetitions > 0
    ensures NetOk(Start<P>(ks, repetitions), repetitions)
  {
  }

  // In every run without wrap-around, every queued copy is traced along a chain of different nodes, numbers are
  // handed up rising for each source, and packets are sent as often as required in their order
  lemma {:induction false} RunOk<P>(ks: set<nat>, repetitions: nat, events: seq<Event<P>>)
    requires repetitions > 0 && AllAllowed(ks, repetitions, events)
    ensures NetOk(Run(ks, repetitions, events), repetitions)
  {
    hide NetOk, Step, Allowed;
    if events == [] {
      StartOk<P>(ks, repetitions);
    } else {
      var n := |events| - 1;
      AllowedPrefix(ks, repetitions, events, n);
      RunOk(ks, repetitions, events[..n]);
      StepOk(Run(ks, repetitions, events[..n]), repetitions, events[n]);
    }
  }

  // ---------- Time to live ----------

  lemma {:induction false} DistinctIn(c: seq<nat>, s: set<nat>)
    requires forall i, j :: 0 <= i < j < |c| ==> c[i] != c[j]
    requires forall i :: 0 <= i < |c| ==> c[i] in s
    ensures |c| <= |s|
  {
    if c != [] {
      var last, rest := c[|c| - 1], c[..|c| - 1];
      DistinctIn(rest, s - {last});
      assert |s - {last}| == |s| - 1;
    }
  }

  // With at most 65536 nodes the time to live never stops a first reception, so what is handed up is always
  // forwarded and the reduced time to live never wraps
  lemma TtlNeverStops<P>(ks: set<nat>, repetitions: nat, events: seq<Event<P>>, k: nat, m: nat, p: Flood<P>)
    requires repetitions > 0 && AllAllowed(ks, repetitions, events) && |ks| <= 0x1_0000
    requires var net := Run(ks, repetitions, events);
             k in net.nodes && m in net.nodes && p in net.nodes[m].sent && Accepts(net.nodes[k], p)
    ensures p.ttl > 0
  {
    hide Run, AllAllowed, NetOk, Accepts;
    var net := Run(ks, repetitions, events);
    RunOk(ks, repetitions, events);
    AcceptedIsNew(net, repetitions, k, m, p);
    var c := net.chain[(m, p.source, p.seqno)];
    NodesOfRun(ks, repetitions, events);
    DistinctIn(c + [k], ks);
  }

  // In every run without wrap-around of at most 65536 nodes, a delivered packet that is another node's and higher than all
  // of that node's packets handed up before is handed up and queued for forwarding, and any other one is ignored
  lemma NewsSpreads<P>(ks: set<nat>, repetitions: nat, events: seq<Event<P>>, k: nat, m: nat, i: nat)
    requires repetitions > 0 && AllAllowed(ks, repetitions, events) && |ks| <= 0x1_0000
    requires Allowed(Run(ks, repetitions, events), Receive(k, m, i))
    ensures var net, net' := Run(ks, repetitions, events), Run(ks, repetitions, events + [Receive(k, m, i)]);
            var n, p := net.nodes[k], net.nodes[m].sent[i];
            && k in net'.nodes
            && (News(n, p) ==>
                  && p.ttl > 0 && net'.nodes[k].up == n.up + [p]
                  && net'.nodes[k].queued == n.queued + [p.(ttl := p.ttl - 1)])
            && (!News(n, p) ==> net'.nodes == net.nodes)
  {
    hide Run, AllAllowed, NetOk, NodeOk, Accepts, Hear, News;
    var e := Receive(k, m, i);
    var net := Run(ks, repetitions, events);
    RunOk(ks, repetitions, events);
    SiteOf(net, repetitions, k);
    var n, p := net.nodes[k], net.nodes[m].sent[i];
    HearExactly(n, p);
    UpOkOf(n);
    AcceptsNews(n, p);
    if Accepts(n, p) {
      TtlNeverStops(ks, repetitions, events, k, m, p);
    }
    RunMore(ks, repetitions, events, e);
  }

  lemma UpOkOf<P>(n: State<P>)
    requires NodeOk(n)
    ensures UpOk(n)
  {
  }

  lemma RunMore<P>(ks: set<nat>, repetitions: nat, events: seq<Event<P>>, e: Event<P>)
    ensures Run(ks, repetitions, events + [e]) == Step(Run(ks, repetitions, events), e)
  {
    hide Step;
    assert (events + [e])[..|events|] == events;
  }

  lemma {:induction false} NodesOfRun<P>(ks: set<nat>, repetitions: nat, events: seq<Event<P>>)
    ensures Run(ks, repetitions, events).nodes.Keys == ks
  {
    hide Originate, Fire, Hear, Accepts;
    if events != [] {
      NodesOfRun(ks, repetitions, events[..|events| - 1]);
    }
  }

  // ---------- How often a flood is sent ----------

  function TotalSent<P>(net: Network<P>, list: seq<nat>, s: nat, q: nat): nat
    requires forall i :: 0 <= i < |list| ==> list[i] in net.nodes
  {
    if list == [] then 0 else CountOf(net.nodes[list[0]].sent, s, q) + TotalSent(net, list[1..], s, q)
  }

  lemma {:induction false} NotCounted<P>(ps: seq<Flood<P>>, s: nat, q: nat)
    requires forall i :: 0 <= i < |ps| ==> ps[i].source != s || ps[i].seqno != q
    ensures CountOf(ps, s, q) == 0
  {
    if ps != [] {
      NotCounted(ps[..|ps| - 1], s, q);
    }
  }

  lemma {:induction false} CountedOnce<P>(ps: seq<Flood<P>>, s: nat, q: nat)
    requires forall i, j :: 0 <= i < j < |ps| ==> ps[i].source != ps[j].source || ps[i].seqno != ps[j].seqno
    ensures CountOf(ps, s, q) <= 1
  {
    if ps != [] {
      var last := ps[|ps| - 1];
      if last.source == s && last.seqno == q {
        NotCounted(ps[..|ps| - 1], s, q);
      } else {
        CountedOnce(ps[..|ps| - 1], s, q);
      }
    }
  }

  // One flood is sent at most as many times altogether as there are nodes, times the repetitions
  lemma FloodIsBounded<P>(ks: set<nat>, repetitions: nat, events: seq<Event<P>>, list: seq<nat>, s: nat, q: nat)
    requires repetitions > 0 && AllAllowed(ks, repetitions, events)
    requires forall i :: 0 <= i < |list| ==> list[i] in Run(ks, repetitions, events).nodes
    ensures TotalSent(Run(ks, repetitions, events), list, s, q) <= |list| * repetitions
  {
    hide Run, AllAllowed;
    RunOk(ks, repetitions, events);
    SumIsBounded(Run(ks, repetitions, events), repetitions, list, s, q);
  }

  lemma {:induction false} SumIsBounded<P>(net: Network<P>, repetitions: nat, list: seq<nat>, s: nat, q: nat)
    requires NetOk(net, repetitions) && forall i :: 0 <= i < |list| ==> list[i] in net.nodes
    ensures TotalSent(net, list, s, q) <= |list| * repetitions
  {
    hide NetOk, CountOf;
    if list != [] {
      SumIsBounded(net, repetitions, list[1..], s, q);
      NodeIsBounded(net, repetitions, list[0], s, q);
      Distribute(repetitions, |list| - 1, 1);
    }
  }

  lemma NodeIsBounded<P>(net: Network<P>, repetitions: nat, k: nat, s: nat, q: nat)
    requires NetOk(net, repetitions) && k in net.nodes
    ensures CountOf(net.nodes[k].sent, s, q) <= repetitions
  {
    hide CountOf, NodeOk;
    assert SiteOk(net, repetitions, k);
    var n := net.nodes[k];
    SentPerQueued(n, s, q);
    CountedOnce(n.queued, s, q);
    if CountOf(n.queued, s, q) == 0 {
      assert repetitions * 0 == 0;
    }
  }

  // ---------- Runs in which the sequence numbers may wrap ----------

  // Whatever the run, wrapped counters included, every node keeps its own invariant
  lemma {:induction false} NodesOfRunOk<P>(ks: set<nat>, repetitions: nat, events: seq<Event<P>>, k: nat)
    requires repetitions > 0 && k in ks
    ensures k in Run(ks, repetitions, events).nodes && NodeOk(Run(ks, repetitions, events).nodes[k])
  {
    hide NodeOk, Originate, Fire, Hear, Accepts;
    NodesOfRun(ks, repetitions, events);
    if events == [] {
      InitOk<P>(k, repetitions);
    } else {
      var before, e := Run(ks, repetitions, events[..|events| - 1]), events[|events| - 1];
      NodesOfRunOk(ks, repetitions, events[..|events| - 1], k);
      var n := before.nodes[k];
      match e {
        case Send(_, payload) => OriginateOk(n, payload);
        case Timer(_) => if n.current.Some? { FireOk(n); }
        case Receive(_, m, i) =>
          if m in before.nodes && i < |before.nodes[m].sent| {
            HearOk(n, before.nodes[m].sent[i]);
          }
      }
    }
  }

  lemma InitOk<P>(k: nat, repetitions: nat)
    requires repetitions > 0
    ensures NodeOk(Init<P>(k, repetitions))
  {
  }

  // A node hands up the packets of one source with rising numbers, hence each at most once, in every run
  lemma HandedUpRising<P>(ks: set<nat>, repetitions: nat, events: seq<Event<P>>, k: nat)
    requires repetitions > 0 && k in ks
    ensures k in Run(ks, repetitions, events).nodes
    ensures var up := Run(ks, repetitions, events).nodes[k].up;
            forall i, j :: 0 <= i < j < |up| && up[i].source == up[j].source ==> up[i].seqno < up[j].seqno
  {
    hide Run;
    NodesOfRunOk(ks, repetitions, events, k);
  }

  function CountFrom<P>(ps: seq<Flood<P>>, s: nat): nat {
    if ps == [] then 0 else CountFrom(ps[..|ps| - 1], s) + if ps[|ps| - 1].source == s then 1 else 0
  }

  lemma {:induction false} RisingIsShort<P>(up: seq<Flood<P>>, s: nat, bound: nat)
    requires forall i, j :: 0 <= i < j < |up| && up[i].source == s && up[j].source == s ==> up[i].seqno < up[j].seqno
    requires forall i :: 0 <= i < |up| && up[i].source == s ==> up[i].seqno < bound
    ensures CountFrom(up, s) <= bound
  {
    if up != [] {
      var last := up[|up| - 1];
      RisingIsShort(up[..|up| - 1], s, if last.source == s then last.seqno else bound);
    }
  }

  // So a source that keeps sending after its counter has wrapped is not heard again: over a whole run a node hands
  // up at most 2^32 packets of one source, however many floods that source starts
  lemma OneRoundIsAll<P>(ks: set<nat>, repetitions: nat, events: seq<Event<P>>, k: nat, s: nat)
    requires repetitions > 0 && k in ks
    ensures k in Run(ks, repetitions, events).nodes
    ensures CountFrom(Run(ks, repetitions, events).nodes[k].up, s) <= SEQNO_MODULUS
  {
    hide Run;
    HandedUpRising(ks, repetitions, events, k);
    RisingIsShort(Run(ks, repetitions, events).nodes[k].up, s, SEQNO_MODULUS);
  }

  // A node that has handed up the last number of a round ignores its source from then on, in every run
  lemma {:induction false} SilentAfterLastNumber<P>(ks: set<nat>, repetitions: nat, events: seq<Event<P>>,
                                                    more: seq<Event<P>>, k: nat, s: nat)
    requires k in ks && k in Run(ks, repetitions, events).nodes
    requires s in Run(ks, repetitions, events).nodes[k].lastSeen
    requires Run(ks, repetitions, events).nodes[k].lastSeen[s] == SEQNO_MODULUS - 1
    ensures k in Run(ks, repetitions, events + more).nodes
    ensures var n := Run(ks, repetitions, events + more).nodes[k];
            && s in n.lastSeen && n.lastSeen[s] == SEQNO_MODULUS - 1
            && CountFrom(n.up, s) == CountFrom(Run(ks, repetitions, events).nodes[k].up, s)
  {
    hide CountFrom, Accepts, Hear, Fire, Originate;
    if more == [] {
      assert events + more == events;
    } else {
      var rest := more[..|more| - 1];
      SilentAfterLastNumber(ks, repetitions, events, rest, k, s);
      assert (events + more)[..|events + more| - 1] == events + rest;
      var before := Run(ks, repetitions, events + rest);
      var e := more[|more| - 1];
      StepKeepsSilence(before, e, k, s);
    }
  }

  lemma StepKeepsSilence<P>(net: Network<P>, e: Event<P>, k: nat, s: nat)
    requires k in net.nodes && s in net.nodes[k].lastSeen && net.nodes[k].lastSeen[s] == SEQNO_MODULUS - 1
    ensures k in Step(net, e).nodes
    ensures var n := Step(net, e).nodes[k];
            && s in n.lastSeen && n.lastSeen[s] == SEQNO_MODULUS - 1
            && CountFrom(n.up, s) == CountFrom(net.nodes[k].up, s)
  {
    if e.Receive? && e.node == k && e.from in net.nodes && e.index < |net.nodes[e.from].sent| {
      var n, p := net.nodes[k], net.nodes[e.from].sent[e.index];
      if Accepts(n, p) {
        assert p.source != s;
        assert (n.up + [p])[..|n.up|] == n.up;
      }
    }
  }
}
