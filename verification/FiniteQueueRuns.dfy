/**
 Runs of the finite queue with one producer and one consumer, each of which may wait. A waiting task is woken by
 the other one's next success and may then run at any later time; it may also give up at any time.
 */
module FiniteQueueRuns {
  import opened FiniteQueueSpec

  datatype Producer = Free | Waits(payload: Payload) | Woken(payload: Payload)

  datatype Consumer = Ready | Asleep(wanted: Wanted) | Roused(wanted: Wanted)

  // left lists the payloads that have left the queue, with true for those handed to the consumer
  datatype System = System(
    q: Snapshot, producer: Producer, consumer: Consumer,
    accepted: seq<Payload>, left: seq<(Payload, bool)>, raised: bool)

  datatype Event =
    | PushWaiting(p: Payload)
    | PushResumes
    | PushGivesUp
    | PushAtOnce(p: Payload)
    | PushForced(p: Payload)
    | TakeWaiting(w: Wanted)
    | TakeResumes
    | TakeGivesUp
    | TakeAtOnce(w: Wanted)
    | ResetQueue

  function Start(c: Shape): System {
    System(Snapshot([], c.buffers, false), Free, Ready, [], [], false)
  }

  // Each task does one thing at a time, and a waiting one goes on only after it has been woken
  predicate Enabled(s: System, e: Event) {
    match e
    case PushWaiting(_) => s.producer.Free?
    case PushAtOnce(_) => s.producer.Free?
    case PushForced(_) => s.producer.Free?
    case PushResumes => s.producer.Woken?
    case PushGivesUp => !s.producer.Free?
    case TakeWaiting(_) => s.consumer.Ready?
    case TakeAtOnce(_) => s.consumer.Ready?
    case TakeResumes => s.consumer.Roused?
    case TakeGivesUp => !s.consumer.Ready?
    case ResetQueue => s.producer.Free?
  }

  function Tagged(ps: seq<Payload>, taken: bool): (r: seq<(Payload, bool)>)
    ensures |r| == |ps|
  {
    seq(|ps|, i requires 0 <= i < |ps| => (ps[i], taken))
  }

  function AfterPush(s: System, p: Payload, r: (Snapshot, Outcome)): System {
    match r.1
    case Done => s.(q := r.0, producer := Free, accepted := s.accepted + [p],
                    consumer := if s.consumer.Asleep? then Roused(s.consumer.wanted) else s.consumer)
    case Waiting => s.(q := r.0, producer := Waits(p))
    case _ => s.(q := r.0, producer := Free, raised := s.raised || r.1.Exception())
  }

  function AfterTake(s: System, w: Wanted, r: (Snapshot, Answer)): System {
    match r.1.outcome
    case Done =>
      if w.Look? then s.(q := r.0, consumer := Ready)
      else s.(q := r.0, consumer := Ready, left := s.left + Tagged(r.1.payloads, true),
              producer := if s.producer.Waits? then Woken(s.producer.payload) else s.producer)
    case Waiting => s.(q := r.0, consumer := Asleep(w))
    case _ => s.(q := r.0, consumer := Ready, raised := s.raised || r.1.outcome.Exception())
  }

  // What the forced push or the reset discards
  function Discarded(s: System, after: Snapshot, n: nat): System
    requires n <= |s.q.stored|
  {
    s.(q := after, left := s.left + Tagged(s.q.stored[..n], false))
  }

  function Step(c: Shape, s: System, e: Event): System {
    if !Enabled(s, e) then s
    else
      match e
      case PushWaiting(p) => AfterPush(s, p, PushWait(c, s.q, p))
      case PushResumes => AfterPush(s, s.producer.payload, PushFree(c, s.q, s.producer.payload))
      case PushGivesUp => s.(producer := Free)
      case PushAtOnce(p) => AfterPush(s, p, PushNoWait(c, s.q, p))
      case PushForced(p) =>
        var dropped := if |s.q.stored| == c.cap && s.q.stored != [] then 1 else 0;
        AfterPush(Discarded(s, s.q, dropped), p, PushForce(c, s.q, p))
      case TakeWaiting(w) => AfterTake(s, w, TakeWait(s.q, w))
      case TakeResumes => AfterTake(s, s.consumer.wanted, Retrieved(s.q, s.consumer.wanted))
      case TakeGivesUp => s.(consumer := Ready)
      case TakeAtOnce(w) => AfterTake(s, w, TakeNoWait(s.q, w))
      case ResetQueue => Discarded(s, Reset(c, s.q), |s.q.stored|)
  }

  function Run(c: Shape, events: seq<Event>): System {
    if events == [] then Start(c) else Step(c, Run(c, events[..|events| - 1]), events[|events| - 1])
  }

  // ---------- Safety ----------

  // The two exceptions to the flag's meaning are left out: the reset of a queue that holds something, and the
  // forced push of nothing into a full queue of capacity one. So are handlers that write too much.
  predicate Sound(c: Shape, s: System, e: Event) {
    match e
    case PushWaiting(p) => |p| <= c.size
    case PushAtOnce(p) => |p| <= c.size
    case PushForced(p) => |p| <= c.size && (p == [] ==> c.cap > 1 || |s.q.stored| != c.cap)
    case ResetQueue => s.q.stored == []
    case _ => true
  }

  predicate AllSound(c: Shape, events: seq<Event>) {
    forall i :: 0 <= i < |events| ==> Sound(c, Run(c, events[..i]), events[i])
  }

  function Untagged(l: seq<(Payload, bool)>): (r: seq<Payload>)
    ensures |r| == |l|
  {
    seq(|l|, i requires 0 <= i < |l| => l[i].0)
  }

  // First in, first out: what has been accepted has left in this order or is still stored in this order
  ghost predicate Fifo(s: System) {
    Untagged(s.left) + s.q.stored == s.accepted
  }

  // A payload of at most the buffer size is at hand while the producer waits; it waits only while the consumer can
  // retrieve something, and the other way round
  ghost predicate TasksOk(c: Shape, s: System) {
    && (!s.producer.Free? ==> |s.producer.payload| <= c.size)
    && (s.producer.Waits? ==> s.q.stored != [])
    && (s.producer.Woken? ==> |s.q.stored| < c.cap)
    && (s.consumer.Asleep? ==> s.q.stored == [])
    && (s.consumer.Roused? ==> s.q.stored != [])
  }

  ghost predicate SystemOk(c: Shape, s: System) {
    && Within(c, s.q) && AllThere(c, s.q) && FlagOk(s.q)
    && TasksOk(c, s) && Fifo(s) && !s.raised
  }

  lemma UntaggedMore(l: seq<(Payload, bool)>, ps: seq<Payload>, taken: bool)
    ensures Untagged(l + Tagged(ps, taken)) == Untagged(l) + ps
  {
  }

  lemma MoveOut(l: seq<Payload>, stored: seq<Payload>, n: nat)
    requires n <= |stored|
    ensures (l + stored[..n]) + stored[n..] == l + stored
  {
    assert stored == stored[..n] + stored[n..];
  }

  lemma PushKeepsOk(c: Shape, s: System, e: Event)
    requires SystemOk(c, s) && Sound(c, s, e) && Enabled(s, e)
    requires e.PushWaiting? || e.PushResumes? || e.PushAtOnce?
    ensures SystemOk(c, Step(c, s, e))
  {
    var s' := Step(c, s, e);
    if s'.accepted != s.accepted {
      var p := if e.PushResumes? then s.producer.payload else e.p;
      assert s'.q.stored == s.q.stored + [p];
      assert Untagged(s.left) + (s.q.stored + [p]) == (Untagged(s.left) + s.q.stored) + [p];
    }
  }

  lemma ForceKeepsOk(c: Shape, s: System, e: Event)
    requires SystemOk(c, s) && Sound(c, s, e) && Enabled(s, e) && e.PushForced?
    ensures SystemOk(c, Step(c, s, e))
  {
    var n := if |s.q.stored| == c.cap then 1 else 0;
    UntaggedMore(s.left, s.q.stored[..n], false);
    MoveOut(Untagged(s.left), s.q.stored, n);
    var s' := Step(c, s, e);
    if e.p != [] {
      assert s'.q.stored == s.q.stored[n..] + [e.p];
      assert Untagged(s'.left) + (s.q.stored[n..] + [e.p]) == (Untagged(s'.left) + s.q.stored[n..]) + [e.p];
    } else {
      assert s'.q.stored == s.q.stored[n..];
    }
  }

  lemma TakeKeepsOk(c: Shape, s: System, e: Event)
    requires SystemOk(c, s) && Enabled(s, e)
    requires e.TakeWaiting? || e.TakeResumes? || e.TakeAtOnce?
    ensures SystemOk(c, Step(c, s, e))
  {
    hide Untagged, Tagged;
    var w := if e.TakeResumes? then s.consumer.wanted else e.w;
    var n := if s.q.stored == [] || w.Look? then 0 else if w.All? then |s.q.stored| else 1;
    UntaggedMore(s.left, s.q.stored[..n], true);
    MoveOut(Untagged(s.left), s.q.stored, n);
    TakeKeepsFlag(s.q, w);
    assert s.q.stored[..|s.q.stored|] == s.q.stored;
    assert Step(c, s, e).q.stored == s.q.stored[n..];
  }

  lemma StepKeepsOk(c: Shape, s: System, e: Event)
    requires SystemOk(c, s) && Sound(c, s, e)
    ensures SystemOk(c, Step(c, s, e))
  {
    if Enabled(s, e) {
      match e {
        case PushForced(_) => ForceKeepsOk(c, s, e);
        case PushGivesUp =>
        case TakeGivesUp =>
        case ResetQueue =>
          UntaggedMore(s.left, s.q.stored[..0], false);
          assert s.left + Tagged(s.q.stored[..0], false) == s.left;
        case PushWaiting(_) => PushKeepsOk(c, s, e);
        case PushResumes => PushKeepsOk(c, s, e);
        case PushAtOnce(_) => PushKeepsOk(c, s, e);
        case TakeWaiting(_) => TakeKeepsOk(c, s, e);
        case TakeResumes => TakeKeepsOk(c, s, e);
        case TakeAtOnce(_) => TakeKeepsOk(c, s, e);
      }
    }
  }

  // In every run without the exceptions: no ring buffer is ever found empty or full, no buffer is lost, the flag
  // says whether there is data, the order is first in first out, and the two tasks never both wait
  lemma {:induction false} RunIsSafe(c: Shape, events: seq<Event>)
    requires 1 <= c.cap <= c.buffers && AllSound(c, events)
    ensures SystemOk(c, Run(c, events))
    ensures var s := Run(c, events); !(s.producer.Waits? && s.consumer.Asleep?)
  {
    hide Step, Sound;
    if events != [] {
      var n := |events| - 1;
      forall i | 0 <= i < n ensures Sound(c, Run(c, events[..n][..i]), events[..n][i]) {
        assert events[..n][..i] == events[..i];
      }
      RunIsSafe(c, events[..n]);
      StepKeepsOk(c, Run(c, events[..n]), events[n]);
    } else {
      assert Untagged([]) + [] == [];
    }
  }

  // ---------- Nothing is refused or withheld in vain ----------

  // What each event does, told by what has been accepted and what has left so far: the difference is what is stored, and
  // the next payload to leave is the one accepted after those that have left
  ghost predicate DoesItsPart(c: Shape, s: System, e: Event, t: System)
    requires 1 <= c.cap && Enabled(s, e)
  {
    var stored, next := |s.accepted| - |s.left|, |s.left|;
    && 0 <= stored <= c.cap
    && match e
       case PushAtOnce(p) =>
         t.accepted == s.accepted + (if p != [] && stored < c.cap then [p] else []) && t.left == s.left && t.producer.Free?
       case PushWaiting(p) =>
         && t.accepted == s.accepted + (if p != [] && stored == 0 then [p] else []) && t.left == s.left
         && t.producer == if stored == 0 then Free else Waits(p)
       case PushResumes =>
         var p := s.producer.payload;
         t.accepted == s.accepted + (if p != [] then [p] else []) && t.left == s.left && t.producer.Free?
       case PushForced(p) =>
         && t.accepted == s.accepted + (if p != [] then [p] else [])
         && t.left == s.left + (if stored == c.cap then [(s.accepted[next], false)] else [])
       case PushGivesUp => t == s.(producer := Free)
       case TakeGivesUp => t == s.(consumer := Ready)
       case ResetQueue => t.accepted == s.accepted && t.left == s.left
       case TakeWaiting(w) => GetsOldest(s, w, t) && t.consumer == if stored == 0 then Asleep(w) else Ready
       case TakeResumes => GetsOldest(s, s.consumer.wanted, t) && t.consumer.Ready?
       case TakeAtOnce(w) => GetsOldest(s, w, t) && t.consumer.Ready?
  }

  // The oldest payload, or all of them, leave, and a waiting producer is woken
  ghost predicate GetsOldest(s: System, w: Wanted, t: System)
    requires |s.left| <= |s.accepted|
  {
    var stored, next := |s.accepted| - |s.left|, |s.left|;
    var n := if stored == 0 || w.Look? then 0 else if w.All? then stored else 1;
    && t.accepted == s.accepted && t.left == s.left + Tagged(s.accepted[next..next + n], true)
    && t.producer == if n > 0 && s.producer.Waits? then Woken(s.producer.payload) else s.producer
  }

  lemma StoredIsTheRest(s: System)
    requires Fifo(s)
    ensures |s.left| <= |s.accepted| && s.q.stored == s.accepted[|s.left|..]
  {
  }

  lemma PushDoesItsPart(c: Shape, s: System, e: Event)
    requires SystemOk(c, s) && Sound(c, s, e) && Enabled(s, e)
    requires e.PushWaiting? || e.PushResumes? || e.PushAtOnce? || e.PushForced?
    ensures DoesItsPart(c, s, e, Step(c, s, e))
  {
    hide Untagged, PushWait, PushNoWait, PushFree, PushForce;
    StoredIsTheRest(s);
    var p := if e.PushResumes? then s.producer.payload else e.p;
    if p == [] {
      PushesOfNothingOrTooMuch(c, s.q, p);
    } else {
      PushesExactly(c, s.q, p);
    }
    if e.PushForced? {
      var n := if |s.q.stored| == c.cap then 1 else 0;
      assert Tagged(s.q.stored[..n], false) == if n == 1 then [(s.accepted[|s.left|], false)] else [];
    }
  }

  lemma TakeDoesItsPart(c: Shape, s: System, e: Event)
    requires SystemOk(c, s) && Enabled(s, e)
    requires e.TakeWaiting? || e.TakeResumes? || e.TakeAtOnce?
    ensures DoesItsPart(c, s, e, Step(c, s, e))
  {
    hide Untagged, Tagged, TakeNoWait, TakeWait, Retrieved;
    StoredIsTheRest(s);
    var w := if e.TakeResumes? then s.consumer.wanted else e.w;
    var next, n := |s.left|, if s.q.stored == [] || w.Look? then 0 else if w.All? then |s.q.stored| else 1;
    AnswersExactly(s.q, w);
    assert s.accepted[next..next + n] == s.q.stored[..n];
    NothingTagged(s.left, s.accepted[next..next]);
  }

  lemma NothingTagged(l: seq<(Payload, bool)>, ps: seq<Payload>)
    ensures ps == [] ==> l + Tagged(ps, true) == l
  {
  }

  lemma AnswersExactly(s: Snapshot, w: Wanted)
    requires FlagOk(s)
    ensures s.stored == [] ==> TakeNoWait(s, w).1.outcome == Nothing && TakeWait(s, w).1.outcome == Waiting
    ensures s.stored != [] ==>
              && TakeNoWait(s, w) == TakeWait(s, w) == Retrieved(s, w) && Retrieved(s, w).1.outcome == Done
              && (!w.Look? ==> Retrieved(s, w).1.payloads == s.stored[..if w.All? then |s.stored| else 1])
  {
    hide TakeNoWait, TakeWait, Retrieved;
    TakesExactly(s, w);
    if s.stored != [] {
      assert [s.stored[0]] == s.stored[..1] && s.stored[..|s.stored|] == s.stored;
    }
  }

  // In every such run each push that may be made is accepted exactly if there is room for it, or, if it waits, exactly if
  // the queue is empty, and each retrieval gets the oldest payloads that have not left exactly if there are any
  lemma EveryEventDoesItsPart(c: Shape, events: seq<Event>, e: Event)
    requires 1 <= c.cap <= c.buffers && AllSound(c, events) && Sound(c, Run(c, events), e)
    ensures var s := Run(c, events);
            Enabled(s, e) ==> DoesItsPart(c, s, e, Run(c, events + [e]))
  {
    hide SystemOk, DoesItsPart, Step, Sound;
    var s := Run(c, events);
    RunIsSafe(c, events);
    assert (events + [e])[..|events|] == events;
    if Enabled(s, e) {
      match e {
        case PushGivesUp => OthersDoTheirPart(c, s, e);
        case TakeGivesUp => OthersDoTheirPart(c, s, e);
        case ResetQueue => OthersDoTheirPart(c, s, e);
        case PushWaiting(_) => PushDoesItsPart(c, s, e);
        case PushResumes => PushDoesItsPart(c, s, e);
        case PushAtOnce(_) => PushDoesItsPart(c, s, e);
        case PushForced(_) => PushDoesItsPart(c, s, e);
        case _ => TakeDoesItsPart(c, s, e);
      }
    }
  }

  lemma OthersDoTheirPart(c: Shape, s: System, e: Event)
    requires SystemOk(c, s) && Sound(c, s, e) && Enabled(s, e)
    requires e.PushGivesUp? || e.TakeGivesUp? || e.ResetQueue?
    ensures DoesItsPart(c, s, e, Step(c, s, e))
  {
    StoredIsTheRest(s);
    assert s.left + Tagged(s.q.stored[..0], false) == s.left;
  }

  // ---------- Waiting for data instead of for fullness ----------

  ghost predicate AtMostOne(s: System) {
    && |s.q.stored| <= 1 && FlagOk(s.q) && (s.producer.Woken? ==> s.q.stored == [])
  }

  // A producer that only ever waits never has more than one payload in the queue, whatever the queue could hold:
  // the other buffers are of no use to it. No condition is put on the payloads or on the consumer.
  lemma {:induction false} WaitingPushHoldsOne(c: Shape, events: seq<Event>)
    requires 1 <= c.cap <= c.buffers
    requires forall i :: 0 <= i < |events| ==> !events[i].PushAtOnce? && !events[i].PushForced?
    requires forall i :: 0 <= i < |events| ==> !events[i].ResetQueue?
    ensures AtMostOne(Run(c, events))
  {
    if events != [] {
      hide Run, Step;
      var n := |events| - 1;
      WaitingPushHoldsOne(c, events[..n]);
      RunStep(c, events);
      OnlyOneStep(c, Run(c, events[..n]), events[n]);
    }
  }

  lemma RunStep(c: Shape, events: seq<Event>)
    requires events != []
    ensures Run(c, events) == Step(c, Run(c, events[..|events| - 1]), events[|events| - 1])
  {
  }

  lemma OnlyOneStep(c: Shape, s: System, e: Event)
    requires 1 <= c.cap && AtMostOne(s) && !e.PushAtOnce? && !e.PushForced? && !e.ResetQueue?
    ensures AtMostOne(Step(c, s, e))
  {
  }

  // ---------- Nothing is dropped by the pushes that do not force ----------

  predicate NeverForced(events: seq<Event>) {
    forall i :: 0 <= i < |events| ==> !events[i].PushForced? && !events[i].ResetQueue?
  }

  lemma TakenStep(c: Shape, s: System, e: Event)
    requires !e.PushForced? && !e.ResetQueue? && forall i :: 0 <= i < |s.left| ==> s.left[i].1
    ensures forall i :: 0 <= i < |Step(c, s, e).left| ==> Step(c, s, e).left[i].1
  {
  }

  lemma {:induction false} AllTaken(c: Shape, events: seq<Event>)
    requires NeverForced(events)
    ensures forall i :: 0 <= i < |Run(c, events).left| ==> Run(c, events).left[i].1
  {
    if events != [] {
      hide Run, Step;
      AllTaken(c, events[..|events| - 1]);
      RunStep(c, events);
      TakenStep(c, Run(c, events[..|events| - 1]), events[|events| - 1]);
    }
  }

  // Without forced pushes the consumer gets exactly what was accepted, once each and in order, up to what is still
  // stored
  lemma ConsumerGetsAll(c: Shape, events: seq<Event>)
    requires 1 <= c.cap <= c.buffers && AllSound(c, events) && NeverForced(events)
    ensures var s := Run(c, events);
            |s.q.stored| <= |s.accepted| && s.left == Tagged(s.accepted[..|s.accepted| - |s.q.stored|], true)
  {
    hide Run, AllSound, NeverForced;
    RunIsSafe(c, events);
    AllTaken(c, events);
    var s := Run(c, events);
    assert s.accepted[..|s.accepted| - |s.q.stored|] == Untagged(s.left);
  }

  // ---------- A buffer that is reset before it is written ----------

  // The events on a buffer whose producer resets it, then pushes and waits, while the consumer never waits
  predicate Overwriting(e: Event) {
    match e
    case ResetQueue => true
    case PushWaiting(_) => true
    case PushResumes => true
    case PushGivesUp => true
    case TakeAtOnce(w) => !w.All?
    case _ => false
  }

  // The flag says there is data, there is none, and the producer has not been woken
  ghost predicate Stuck(s: System) {
    s.q.hasData && s.q.stored == [] && !s.producer.Woken?
  }

  // A reset of a buffer that holds a payload is final: no later payload is ever accepted or handed over, and every
  // retrieval ends in an exception, which wakes nobody
  lemma {:induction false} StuckForEver(c: Shape, before: seq<Event>, after: seq<Event>)
    requires Stuck(Run(c, before)) && forall i :: 0 <= i < |after| ==> Overwriting(after[i])
    ensures Stuck(Run(c, before + after))
    ensures Run(c, before + after).accepted == Run(c, before).accepted
    ensures Run(c, before + after).left == Run(c, before).left
    ensures TakeNoWait(Run(c, before + after).q, First).1.outcome == NoBuffer
    ensures TakeNoWait(Run(c, before + after).q, Look).1.outcome == NoBuffer
  {
    if after == [] {
      assert before + after == before;
    } else {
      hide Run, Step;
      var rest := after[..|after| - 1];
      StuckForEver(c, before, rest);
      assert (before + after)[..|before + after| - 1] == before + rest;
      RunStep(c, before + after);
      StuckStep(c, Run(c, before + rest), after[|after| - 1]);
    }
  }

  lemma StuckStep(c: Shape, s: System, e: Event)
    requires Stuck(s) && Overwriting(e)
    ensures Stuck(Step(c, s, e)) && Step(c, s, e).accepted == s.accepted && Step(c, s, e).left == s.left
  {
    assert s.left + [] == s.left;
  }

  // A buffer whose consumer only looks accepts one payload, and none after it
  lemma {:induction false} LookedAtOnlyOnce(c: Shape, events: seq<Event>)
    requires forall i :: 0 <= i < |events| ==>
               Overwriting(events[i]) && (events[i].TakeAtOnce? ==> events[i].w.Look?)
    ensures |Run(c, events).accepted| <= 1
    ensures OnceAccepted(Run(c, events))
  {
    if events != [] {
      hide Run, Step;
      LookedAtOnlyOnce(c, events[..|events| - 1]);
      RunStep(c, events);
      OnceAcceptedStep(c, Run(c, events[..|events| - 1]), events[|events| - 1]);
    }
  }

  ghost predicate OnceAccepted(s: System) {
    && |s.accepted| <= 1 && (s.accepted != [] ==> s.q.hasData) && !s.producer.Woken?
  }

  lemma OnceAcceptedStep(c: Shape, s: System, e: Event)
    requires OnceAccepted(s) && Overwriting(e) && (e.TakeAtOnce? ==> e.w.Look?)
    ensures OnceAccepted(Step(c, s, e))
  {
  }
}
