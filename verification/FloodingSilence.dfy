/**
 A run in which a source uses up its sequence numbers: its neighbour hears the last number of the round, and then nothing
 any more, although the next flood reaches it.
 */
module FloodingSilence {
  import opened FloodingNode
  import opened FloodingNetwork

  const SOURCE := 0
  const HEARER := 1

  function Pair(): set<nat> {
    {SOURCE, HEARER}
  }

  // One flood from its origin until it has been sent
  function OneFlood<P>(payload: P): seq<Event<P>> {
    [Send(SOURCE, payload), Timer(SOURCE), Timer(SOURCE)]
  }

  function Floods<P>(n: nat, payload: P): seq<Event<P>> {
    if n == 0 then [] else Floods(n - 1, payload) + OneFlood(payload)
  }

  // A source between two floods
  ghost predicate Resting<P>(n: State<P>) {
    n.self == SOURCE && n.repetitions == 1 && n.current.None? && n.queue == []
  }

  // What one flood makes of it
  lemma OneFloodSends<P>(n: State<P>, payload: P)
    requires Resting(n)
    ensures Originate(n, payload).current.Some? && Originate(n, payload).timer
    ensures var m := Fire(Originate(n, payload));
            && m.current.Some? && m.timer && Resting(Fire(m))
            && Fire(m).sent == n.sent + [Flood(SOURCE, n.seqno, TTL_INIT, payload)]
            && Fire(m).seqno == (n.seqno + 1) % SEQNO_MODULUS
  {
    var p := Flood(SOURCE, n.seqno, TTL_INIT, payload);
    assert [p][0] == p && [] + [p] == [p] && [p][1..] == [];
  }

  lemma More<P>(events: seq<Event<P>>, e: Event<P>)
    ensures Run(Pair(), 1, events + [e]) == Step(Run(Pair(), 1, events), e)
    ensures AllAllowed(Pair(), 1, events) && Allowed(Run(Pair(), 1, events), e) ==> AllAllowed(Pair(), 1, events + [e])
  {
    hide Step, Allowed;
    var more := events + [e];
    assert more[..|events|] == events;
    if AllAllowed(Pair(), 1, events) && Allowed(Run(Pair(), 1, events), e) {
      forall i | 0 <= i < |more| ensures Allowed(Run(Pair(), 1, more[..i]), more[i]) {
        assert more[..i] == events[..i] || i == |events|;
      }
    }
  }

  // One more flood in a run whose source rests
  lemma FloodOnce<P>(events: seq<Event<P>>, payload: P)
    requires var net := Run(Pair(), 1, events); SOURCE in net.nodes && Resting(net.nodes[SOURCE])
    ensures var net, net' := Run(Pair(), 1, events), Run(Pair(), 1, events + OneFlood(payload));
            var n := net.nodes[SOURCE];
            && net'.nodes.Keys == net.nodes.Keys && Resting(net'.nodes[SOURCE])
            && net'.nodes[SOURCE].sent == n.sent + [Flood(SOURCE, n.seqno, TTL_INIT, payload)]
            && net'.nodes[SOURCE].seqno == (n.seqno + 1) % SEQNO_MODULUS
            && (HEARER in net.nodes ==> net'.nodes[HEARER] == net.nodes[HEARER])
            && net'.chain.Keys == net.chain.Keys + {(SOURCE, SOURCE, n.seqno as nat)}
    ensures AllAllowed(Pair(), 1, events)
            && (SOURCE, SOURCE, Run(Pair(), 1, events).nodes[SOURCE].seqno as nat) !in Run(Pair(), 1, events).chain ==>
              AllAllowed(Pair(), 1, events + OneFlood(payload))
  {
    hide Run, AllAllowed, Originate, Fire, Resting;
    var net := Run(Pair(), 1, events);
    OneFloodSends(net.nodes[SOURCE], payload);
    More(events, Send(SOURCE, payload));
    More(events + [Send(SOURCE, payload)], Timer(SOURCE));
    More(events + [Send(SOURCE, payload)] + [Timer(SOURCE)], Timer(SOURCE));
    assert events + [Send(SOURCE, payload)] + [Timer(SOURCE)] + [Timer(SOURCE)] == events + OneFlood(payload);
  }

  // The source has sent the first n numbers and rests; its neighbour has heard nothing
  ghost predicate HasSent<P>(net: Network<P>, n: nat, payload: P)
    requires n <= SEQNO_MODULUS
  {
    && net.nodes.Keys == Pair() && Resting(net.nodes[SOURCE]) && net.nodes[HEARER] == Init(HEARER, 1)
    && net.nodes[SOURCE].seqno == n % SEQNO_MODULUS && |net.nodes[SOURCE].sent| == n
    && (forall i :: 0 <= i < n ==> net.nodes[SOURCE].sent[i] == Flood(SOURCE, i, TTL_INIT, payload))
    && (forall key :: key in net.chain ==> key.2 < n)
  }

  lemma HasSentMore<P>(net: Network<P>, net': Network<P>, n: nat, payload: P)
    requires n < SEQNO_MODULUS && HasSent(net, n, payload)
    requires net'.nodes.Keys == net.nodes.Keys && Resting(net'.nodes[SOURCE])
    requires net'.nodes[SOURCE].sent == net.nodes[SOURCE].sent + [Flood(SOURCE, n, TTL_INIT, payload)]
    requires net'.nodes[SOURCE].seqno == (n + 1) % SEQNO_MODULUS && net'.nodes[HEARER] == net.nodes[HEARER]
    requires net'.chain.Keys == net.chain.Keys + {(SOURCE, SOURCE, n)}
    ensures HasSent(net', n + 1, payload)
  {
    hide Resting;
  }

  lemma {:induction false} FloodsAreSent<P>(n: nat, payload: P)
    requires n <= SEQNO_MODULUS
    ensures AllAllowed(Pair(), 1, Floods(n, payload)) && HasSent(Run(Pair(), 1, Floods(n, payload)), n, payload)
  {
    hide AllAllowed, Resting, Run;
    if n > 0 {
      FloodsAreSent(n - 1, payload);
      FloodOnce(Floods(n - 1, payload), payload);
      HasSentMore(Run(Pair(), 1, Floods(n - 1, payload)), Run(Pair(), 1, Floods(n, payload)), n - 1, payload);
    } else {
      NothingYet<P>();
    }
  }

  lemma NothingYet<P>()
    ensures AllAllowed<P>(Pair(), 1, [])
    ensures var net := Run<P>(Pair(), 1, []);
            net.nodes == map[SOURCE := Init(SOURCE, 1), HEARER := Init(HEARER, 1)] && net.chain == map[]
            && Resting(net.nodes[SOURCE])
  {
  }

  // There is a run without wrap-around that brings the last number to a neighbour; one flood later the neighbour is
  // reached by a packet it has never heard, and does not hand it up
  lemma LastNumberSilences<P>(x: P, y: P) returns (events: seq<Event<P>>, more: seq<Event<P>>)
    ensures AllAllowed(Pair(), 1, events)
    ensures var net, net' := Run(Pair(), 1, events), Run(Pair(), 1, events + more + [Receive(HEARER, SOURCE, SEQNO_MODULUS)]);
            && HEARER in net.nodes && SOURCE in net.nodes[HEARER].lastSeen
            && net.nodes[HEARER].lastSeen[SOURCE] == SEQNO_MODULUS - 1 && |net.nodes[HEARER].up| == 1
            && SOURCE in net'.nodes && |net'.nodes[SOURCE].sent| == SEQNO_MODULUS + 1
            && net'.nodes[SOURCE].sent[SEQNO_MODULUS] == Flood(SOURCE, 0, TTL_INIT, y)
            && HEARER in net'.nodes && net'.nodes[HEARER].up == net.nodes[HEARER].up
  {
    hide AllAllowed, Run, Floods, Resting, OneFlood;
    var all := Floods(SEQNO_MODULUS, x);
    FloodsAreSent(SEQNO_MODULUS, x);
    var receive: Event<P> := Receive(HEARER, SOURCE, SEQNO_MODULUS - 1);
    More(all, receive);
    events := all + [receive];
    var net := Run(Pair(), 1, events);
    HearsFirst(Run(Pair(), 1, all).nodes[HEARER], Flood(SOURCE, SEQNO_MODULUS - 1, TTL_INIT, x));
    more := OneFlood(y);
    FloodOnce(events, y);
    More(events + more, Receive(HEARER, SOURCE, SEQNO_MODULUS));
  }

  lemma HearsFirst<P>(n: State<P>, p: Flood<P>)
    requires n == Init(HEARER, 1) && p.source == SOURCE
    ensures Accepts(n, p)
    ensures var m := Hear(n, p); m.up == [p] && SOURCE in m.lastSeen && m.lastSeen[SOURCE] == p.seqno && m.self == HEARER
  {
  }
}
