/**
 One node of the flooding protocol: a packet is handed up and queued for forwarding when its source has not
 been heard with an equal or higher sequence number before; queued packets are sent a fixed number of times,
 one after the other, paced by a timer.
 */
module FloodingNode {
  import opened Wrappers

  const TTL_INIT := 0xFFFF
  const SEQNO_MODULUS := 0x1_0000_0000

  type SeqNo = q: int | 0 <= q < SEQNO_MODULUS

  datatype Flood<P> = Flood(source: nat, seqno: SeqNo, ttl: nat, payload: P)

  // The state of a node, with what it has handed up, sent, queued and finished with so far
  datatype State<P> = State(
    self: nat, repetitions: nat,
    lastSeen: map<nat, SeqNo>, queue: seq<Flood<P>>, current: Option<Flood<P>>, toGo: nat, timer: bool, seqno: SeqNo,
    up: seq<Flood<P>>, sent: seq<Flood<P>>, queued: seq<Flood<P>>, done: seq<Flood<P>>)

  function Init<P>(self: nat, repetitions: nat): State<P> {
    State(self, repetitions, map[], [], None, 0, false, 0, [], [], [], [])
  }

  // ---------- What the handlers do ----------

  // Takes the next packet from the queue unless one is being worked on
  function WorkOnQueue<P>(n: State<P>): State<P> {
    if n.current.Some? || n.queue == [] then n
    else n.(current := Some(n.queue[0]), queue := n.queue[1..], toGo := n.repetitions, timer := true)
  }

  function Enqueue<P>(n: State<P>, p: Flood<P>): State<P> {
    WorkOnQueue(n.(queue := n.queue + [p], queued := n.queued + [p]))
  }

  function Originate<P>(n: State<P>, payload: P): State<P> {
    Enqueue(n.(seqno := (n.seqno + 1) % SEQNO_MODULUS), Flood(n.self, n.seqno, TTL_INIT, payload))
  }

  predicate Accepts<P>(n: State<P>, p: Flood<P>) {
    p.source != n.self && !(p.source in n.lastSeen && n.lastSeen[p.source] >= p.seqno)
  }

  function Hear<P>(n: State<P>, p: Flood<P>): State<P> {
    if !Accepts(n, p) then n
    else
      var m := n.(lastSeen := n.lastSeen[p.source := p.seqno], up := n.up + [p]);
      if p.ttl <= 0 then m else Enqueue(m, p.(ttl := p.ttl - 1))
  }

  // The timer fires: the current packet is sent once more, or the next one is taken up
  function Fire<P>(n: State<P>): State<P>
    requires n.current.Some?
  {
    if n.toGo > 0 then
      n.(toGo := n.toGo - 1, sent := n.sent + [n.current.value], timer := true)
    else
      WorkOnQueue(n.(current := None, done := n.done + [n.current.value], timer := false))
  }

  // ---------- The invariant of a node ----------

  function Times<P>(p: Flood<P>, k: nat): (r: seq<Flood<P>>)
    ensures |r| == k
  {
    seq(k, _ => p)
  }

  // Each packet k times, in order
  function Repeated<P>(ps: seq<Flood<P>>, k: nat): seq<Flood<P>> {
    if ps == [] then [] else Repeated(ps[..|ps| - 1], k) + Times(ps[|ps| - 1], k)
  }

  function InHand<P>(n: State<P>): seq<Flood<P>> {
    if n.current.Some? then [n.current.value] else []
  }

  // What was queued is done, in hand or still queued, in this order; what is done has been sent exactly as often
  // as required, in this order, and what is in hand as often as it is not to be sent any more
  ghost predicate Paced<P>(n: State<P>) {
    && n.queued == n.done + InHand(n) + n.queue
    && n.sent == Repeated(n.done, n.repetitions)
                 + (if n.current.Some? && n.toGo <= n.repetitions then Times(n.current.value, n.repetitions - n.toGo) else [])
  }

  // The timer runs exactly while a packet is in hand, and none is left in the queue otherwise
  ghost predicate TimerOk<P>(n: State<P>) {
    && (n.timer <==> n.current.Some?)
    && (n.current.Some? ==> n.toGo <= n.repetitions)
    && (n.current.None? ==> n.queue == [])
  }

  // Sequence numbers handed up rise for each source, and the one seen last of a source is the last one handed up
  ghost predicate UpOk<P>(n: State<P>) {
    Rising(n) && SeenIsUp(n)
  }

  ghost predicate Rising<P>(n: State<P>) {
    && (forall i, j :: 0 <= i < j < |n.up| && n.up[i].source == n.up[j].source ==> n.up[i].seqno < n.up[j].seqno)
    && (forall i :: 0 <= i < |n.up| ==>
          n.up[i].source != n.self && n.up[i].source in n.lastSeen && n.up[i].seqno <= n.lastSeen[n.up[i].source])
  }

  ghost predicate SeenIsUp<P>(n: State<P>) {
    forall s :: s in n.lastSeen ==> exists i :: 0 <= i < |n.up| && n.up[i].source == s && n.up[i].seqno == n.lastSeen[s]
  }

  ghost predicate NodeOk<P>(n: State<P>) {
    n.repetitions > 0 && TimerOk(n) && Paced(n) && UpOk(n)
  }

  lemma SameUp<P>(n: State<P>, m: State<P>)
    requires UpOk(n) && m.up == n.up && m.lastSeen == n.lastSeen && m.self == n.self
    ensures UpOk(m)
  {
  }

  lemma WorkOnQueueOk<P>(n: State<P>)
    requires n.repetitions > 0 && Paced(n) && UpOk(n)
    requires (n.timer <==> n.current.Some?) && (n.current.Some? ==> n.toGo <= n.repetitions)
    ensures NodeOk(WorkOnQueue(n))
  {
    hide UpOk, Repeated;
    SameUp(n, WorkOnQueue(n));
    if n.current.None? && n.queue != [] {
      var m := WorkOnQueue(n);
      assert n.queue == [n.queue[0]] + n.queue[1..];
      assert m.done + InHand(m) + m.queue == n.done + InHand(n) + n.queue;
      assert Times(m.current.value, 0) == [];
    }
  }

  lemma EnqueueOk<P>(n: State<P>, p: Flood<P>)
    requires NodeOk(n)
    ensures NodeOk(Enqueue(n, p))
  {
    hide UpOk, Repeated, WorkOnQueue;
    var m := n.(queue := n.queue + [p], queued := n.queued + [p]);
    SameUp(n, m);
    assert m.queued == n.done + InHand(n) + (n.queue + [p]);
    WorkOnQueueOk(m);
  }

  lemma OriginateOk<P>(n: State<P>, payload: P)
    requires NodeOk(n)
    ensures NodeOk(Originate(n, payload))
  {
    hide UpOk, Repeated, Enqueue;
    var m := n.(seqno := (n.seqno + 1) % SEQNO_MODULUS);
    SameUp(n, m);
    EnqueueOk(m, Flood(n.self, n.seqno, TTL_INIT, payload));
  }

  lemma HeardUpOk<P>(n: State<P>, m: State<P>, p: Flood<P>)
    requires UpOk(n) && p.source != n.self && (p.source in n.lastSeen ==> n.lastSeen[p.source] < p.seqno)
    requires m == n.(lastSeen := n.lastSeen[p.source := p.seqno], up := n.up + [p])
    ensures UpOk(m)
  {
    hide SeenIsUp;
    HeardSeen(n, m, p);
  }

  lemma HeardSeen<P>(n: State<P>, m: State<P>, p: Flood<P>)
    requires SeenIsUp(n) && m == n.(lastSeen := n.lastSeen[p.source := p.seqno], up := n.up + [p])
    ensures SeenIsUp(m)
  {
    forall s | s in m.lastSeen
      ensures exists i :: 0 <= i < |m.up| && m.up[i].source == s && m.up[i].seqno == m.lastSeen[s]
    {
      if s == p.source {
        assert m.up[|n.up|] == p;
      } else {
        var i :| 0 <= i < |n.up| && n.up[i].source == s && n.up[i].seqno == n.lastSeen[s];
        assert m.up[i] == n.up[i];
      }
    }
  }

  // ---------- What a node does with a packet it hears ----------

  // The packet is another node's, and higher than all of that node's packets handed up so far
  ghost predicate News<P>(n: State<P>, p: Flood<P>) {
    p.source != n.self && forall i :: 0 <= i < |n.up| && n.up[i].source == p.source ==> n.up[i].seqno < p.seqno
  }

  // News, and nothing else, is handed up, and put behind what has been queued, with the time to live reduced, unless that
  // is zero already; everything else changes nothing at all
  lemma HearExactly<P>(n: State<P>, p: Flood<P>)
    requires NodeOk(n)
    ensures var m := Hear(n, p);
            && (News(n, p) ==>
                  && m.up == n.up + [p]
                  && m.queued == n.queued + (if p.ttl > 0 then [p.(ttl := p.ttl - 1)] else [])
                  && m.done == n.done && m.sent == n.sent && m.seqno == n.seqno)
            && (!News(n, p) ==> m == n)
  {
    hide TimerOk, Paced;
    AcceptsNews(n, p);
  }

  lemma AcceptsNews<P>(n: State<P>, p: Flood<P>)
    requires UpOk(n)
    ensures Accepts(n, p) <==> News(n, p)
  {
    if p.source in n.lastSeen {
      var i :| 0 <= i < |n.up| && n.up[i].source == p.source && n.up[i].seqno == n.lastSeen[p.source];
      assert n.up[i].seqno < p.seqno <==> n.lastSeen[p.source] < p.seqno;
    }
  }

  // The number seen last of a source is the last one handed up, and there is one exactly if something was
  lemma SeenLast<P>(n: State<P>, s: nat)
    requires NodeOk(n)
    ensures s in n.lastSeen <==> exists i :: 0 <= i < |n.up| && n.up[i].source == s
    ensures s in n.lastSeen ==>
              exists i :: 0 <= i < |n.up| && n.up[i].source == s && n.up[i].seqno == n.lastSeen[s]
                          && forall j :: i < j < |n.up| ==> n.up[j].source != s
  {
    hide TimerOk, Paced;
    if s in n.lastSeen {
      var i :| 0 <= i < |n.up| && n.up[i].source == s && n.up[i].seqno == n.lastSeen[s];
      assert forall j :: i < j < |n.up| ==> n.up[j].source != s;
    }
  }

  lemma HearOk<P>(n: State<P>, p: Flood<P>)
    requires NodeOk(n)
    ensures NodeOk(Hear(n, p))
  {
    hide UpOk, Repeated, Enqueue;
    if Accepts(n, p) {
      var m := n.(lastSeen := n.lastSeen[p.source := p.seqno], up := n.up + [p]);
      HeardUpOk(n, m, p);
      if p.ttl > 0 {
        EnqueueOk(m, p.(ttl := p.ttl - 1));
      }
    }
  }

  lemma FireOk<P>(n: State<P>)
    requires NodeOk(n) && n.current.Some?
    ensures NodeOk(Fire(n))
  {
    hide UpOk, Repeated, WorkOnQueue;
    var c := n.current.value;
    if n.toGo > 0 {
      SameUp(n, Fire(n));
      assert Times(c, n.repetitions - n.toGo) + [c] == Times(c, n.repetitions - (n.toGo - 1));
      SentOnceMore(Repeated(n.done, n.repetitions), Times(c, n.repetitions - n.toGo), c);
    } else {
      var m := n.(current := None, done := n.done + [c], timer := false);
      SameUp(n, m);
      RepeatedSnoc(n.done, c, n.repetitions);
      assert m.done + InHand(m) + m.queue == n.done + InHand(n) + n.queue;
      assert m.sent + [] == m.sent;
      WorkOnQueueOk(m);
    }
  }

  lemma SentOnceMore<P>(a: seq<Flood<P>>, b: seq<Flood<P>>, c: Flood<P>)
    ensures (a + b) + [c] == a + (b + [c])
  {
  }

  lemma RepeatedSnoc<P>(ps: seq<Flood<P>>, p: Flood<P>, k: nat)
    ensures Repeated(ps + [p], k) == Repeated(ps, k) + Times(p, k)
  {
    assert (ps + [p])[..|ps|] == ps;
  }

  // ---------- Everything queued is sent ----------

  // A packet in hand that has been sent fewer times than required is sent once more; otherwise it is done with
  lemma FireExactly<P>(n: State<P>)
    requires NodeOk(n) && n.current.Some?
    ensures var m, k := Fire(n), |n.done|;
            && m.queued == n.queued && k < |n.queued| && m.up == n.up && m.lastSeen == n.lastSeen
            && if |n.sent| < |Repeated(n.done, n.repetitions)| + n.repetitions then
                 m.sent == n.sent + [n.queued[k]] && m.done == n.done
               else
                 m.sent == n.sent && m.done == n.done + [n.queued[k]]
  {
    hide UpOk, Repeated;
  }

  // How often the timer has to fire until nothing is in hand
  function ToFire<P>(n: State<P>): nat {
    |n.queue| * (n.repetitions + 1) + if n.current.Some? then n.toGo + 1 else 0
  }

  function FireOften<P>(n: State<P>, times: nat): State<P> {
    if times == 0 then n
    else
      var m := FireOften(n, times - 1);
      if m.current.Some? then Fire(m) else m
  }

  lemma FireCounts<P>(n: State<P>)
    requires NodeOk(n) && n.current.Some?
    ensures ToFire(Fire(n)) == ToFire(n) - 1
  {
    hide UpOk, Paced;
    if n.toGo == 0 && n.queue != [] {
      Distribute(n.repetitions + 1, |n.queue| - 1, 1);
    }
  }

  lemma {:induction false} FiringDrains<P>(n: State<P>, times: nat)
    requires NodeOk(n) && times <= ToFire(n)
    ensures var m := FireOften(n, times);
            NodeOk(m) && ToFire(m) == ToFire(n) - times && m.queued == n.queued && m.repetitions == n.repetitions
  {
    hide NodeOk, Fire;
    if times > 0 {
      var m := FireOften(n, times - 1);
      FiringDrains(n, times - 1);
      InHandUntilDrained(m);
      FireOk(m);
      FireCounts(m);
      FireExactly(m);
      FireKeepsRepetitions(m);
    }
  }

  lemma FireKeepsRepetitions<P>(n: State<P>)
    requires n.current.Some?
    ensures Fire(n).repetitions == n.repetitions
  {
  }

  lemma InHandUntilDrained<P>(n: State<P>)
    requires NodeOk(n)
    ensures n.current.Some? <==> ToFire(n) > 0
  {
    hide UpOk, Paced;
  }

  // As the timer goes on firing, each packet that was queued has been sent as often as required, in order
  lemma EverythingIsSent<P>(n: State<P>)
    requires NodeOk(n)
    ensures var m := FireOften(n, ToFire(n));
            m.queued == n.queued && m.sent == Repeated(n.queued, n.repetitions) && m.current.None?
  {
    hide UpOk, Repeated, FireOften, ToFire;
    var m := FireOften(n, ToFire(n));
    FiringDrains(n, ToFire(n));
    InHandUntilDrained(m);
    assert m.done + [] + [] == m.done;
    assert Repeated(m.done, m.repetitions) + [] == Repeated(m.done, m.repetitions);
  }

  // ---------- Counting what is sent ----------

  function CountOf<P>(ps: seq<Flood<P>>, source: nat, seqno: nat): nat {
    if ps == [] then 0
    else CountOf(ps[..|ps| - 1], source, seqno)
         + if ps[|ps| - 1].source == source && ps[|ps| - 1].seqno == seqno then 1 else 0
  }

  lemma {:induction false} CountConcat<P>(a: seq<Flood<P>>, b: seq<Flood<P>>, source: nat, seqno: nat)
    ensures CountOf(a + b, source, seqno) == CountOf(a, source, seqno) + CountOf(b, source, seqno)
  {
    if b == [] {
      assert a + b == a;
    } else {
      CountConcat(a, b[..|b| - 1], source, seqno);
      assert (a + b)[..|a + b| - 1] == a + b[..|b| - 1];
    }
  }

  lemma {:induction false} CountTimes<P>(p: Flood<P>, k: nat, source: nat, seqno: nat)
    ensures CountOf(Times(p, k), source, seqno) == if p.source == source && p.seqno == seqno then k else 0
  {
    if k > 0 {
      assert Times(p, k)[..k - 1] == Times(p, k - 1);
      CountTimes(p, k - 1, source, seqno);
    }
  }

  function Hit<P>(p: Flood<P>, source: nat, seqno: nat): nat {
    if p.source == source && p.seqno == seqno then 1 else 0
  }

  lemma CountLast<P>(ps: seq<Flood<P>>, source: nat, seqno: nat)
    requires ps != []
    ensures CountOf(ps, source, seqno) == CountOf(ps[..|ps| - 1], source, seqno) + Hit(ps[|ps| - 1], source, seqno)
  {
  }

  lemma Distribute(k: nat, c: nat, d: nat)
    ensures k * (c + d) == k * c + k * d
  {
  }

  lemma {:induction false} CountRepeated<P>(ps: seq<Flood<P>>, k: nat, source: nat, seqno: nat)
    ensures CountOf(Repeated(ps, k), source, seqno) == k * CountOf(ps, source, seqno)
  {
    if ps == [] {
      NothingCounted<P>(k, source, seqno);
    } else {
      hide CountOf, Times;
      var rest, last := ps[..|ps| - 1], ps[|ps| - 1];
      CountRepeated(rest, k, source, seqno);
      CountConcat(Repeated(rest, k), Times(last, k), source, seqno);
      CountTimes(last, k, source, seqno);
      CountLast(ps, source, seqno);
      Distribute(k, CountOf(rest, source, seqno), Hit(last, source, seqno));
    }
  }

  lemma NothingCounted<P>(k: nat, source: nat, seqno: nat)
    ensures CountOf<P>([], source, seqno) == 0 && Repeated<P>([], k) == []
    ensures k * CountOf<P>([], source, seqno) == 0
  {
  }

  // A node sends a flood at most as often as required for each time it has queued it, and exactly that often
  // once it has nothing in hand
  lemma SentPerQueued<P>(n: State<P>, source: nat, seqno: nat)
    requires NodeOk(n)
    ensures CountOf(n.sent, source, seqno) <= n.repetitions * CountOf(n.queued, source, seqno)
    ensures n.current.None? ==> CountOf(n.sent, source, seqno) == n.repetitions * CountOf(n.queued, source, seqno)
  {
    hide CountOf, Times, Repeated, UpOk;
    var k := n.repetitions;
    CountRepeated(n.done, k, source, seqno);
    if n.current.Some? {
      var c := n.current.value;
      CountConcat(n.done + [c], n.queue, source, seqno);
      CountConcat(n.done, [c], source, seqno);
      CountConcat(Repeated(n.done, k), Times(c, k - n.toGo), source, seqno);
      CountTimes(c, k - n.toGo, source, seqno);
      OneCounted(c, source, seqno);
      Distribute(k, CountOf(n.done, source, seqno), Hit(c, source, seqno));
      Distribute(k, CountOf(n.done, source, seqno) + Hit(c, source, seqno), CountOf(n.queue, source, seqno));
      AtMost(k, CountOf(n.queue, source, seqno));
      assert k * Hit(c, source, seqno) == if Hit(c, source, seqno) == 1 then k else 0;
    } else {
      assert n.queued == n.done;
      assert n.sent == Repeated(n.done, k);
    }
  }

  lemma AtMost(k: nat, c: nat)
    ensures k * c >= 0
  {
  }

  lemma OneCounted<P>(c: Flood<P>, source: nat, seqno: nat)
    ensures CountOf([c], source, seqno) == Hit(c, source, seqno)
  {
    assert [c][..0] == [];
  }
}
