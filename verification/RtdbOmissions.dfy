/**
 What a beacon leaves out, and why: the exact conditions under which the sections of a beacon are empty or end early,
 in terms of the node the beacon is built from.
 */
module RtdbOmissions {
  import opened Wrappers
  import opened RtdbTypes
  import opened RtdbNode
  import Packing = RtdbPacking
  import Packet = RtdbPacket
  import Rounds = RtdbSummaries

  // A beacon carries a prefix of the queue of creates and one of the queue of updates, and leaves out the rest of each
  // only because the next record did not fit
  lemma LeavesOutWhatDoesNotFit<D>(n: Node<D>, initLen: int) returns (c: nat, u: nat)
    requires NodeOk(n)
    ensures c <= |n.createQ| && u <= |n.updateQ|
    ensures var l, max := Build(n, initLen).1, n.cfg.maxPacketSize;
            var size1 := initLen + HEADER_LEN + TotalLen(l.creates);
            && l.creates == Packing.Elements(n.createQ[..c]) && l.updates == Packing.Elements(n.updateQ[..u])
            && (c < |n.createQ| ==> size1 + n.createQ[c].ie.Len() > max)
            && (u < |n.updateQ| ==> size1 + HEADER_LEN + TotalLen(l.updates) + n.updateQ[u].ie.Len() > max)
  {
    hide SummariesOk, RequestsOk, TotalLen, Packing.Outcome, Packing.Elements, PlanOf;
    PlanIs(n, initLen);
    c := Packing.PrefixIsSent(CREATE_VARIABLES, n.db, n.createQ, initLen, n.cfg.maxPacketSize);
    u := Packing.PrefixIsSent(UPDATES, n.db, n.updateQ, PlanOf(n, initLen).size1, n.cfg.maxPacketSize);
  }

  // Create requests have one repetition, so two for the same variable do not cut their section short: it ends only with
  // the queue or before a request that does not fit
  lemma CreateRequestsFill<D>(n: Node<D>, initLen: int) returns (size: int)
    requires NodeOk(n)
    ensures var room := n.cfg.maxPacketSize - size - HEADER_LEN;
            var k := Packing.Taken(REQUEST_VAR_CREATES, n.db, n.reqCreateQ, room, None);
            && Build(n, initLen).1.createReqs == Packing.Sent(REQUEST_VAR_CREATES, n.db, n.reqCreateQ, k)
            && (k < |n.reqCreateQ| ==>
                  size + HEADER_LEN + TotalLen(Build(n, initLen).1.createReqs) + n.reqCreateQ[k].ie.Len() > n.cfg.maxPacketSize)
  {
    hide CreatesOk, UpdatesOk, SummariesOk, TotalLen, PlanOf, Packing.Taken, Packing.Outcome, Packing.Sent;
    PlanIs(n, initLen);
    size := PlanOf(n, initLen).size3;
    RequestsSent(n.db, n.reqCreateQ, size, n.cfg.maxPacketSize);
    Packing.TakenIsMaximalOnce(REQUEST_VAR_CREATES, n.db, n.reqCreateQ, n.cfg.maxPacketSize - size - HEADER_LEN);
  }

  lemma RequestsSent<D>(db: map<nat, Variable<D>>, q: seq<Queued<D>>, size: int, max: int)
    ensures Packing.Outcome(REQUEST_VAR_CREATES, db, q, size, max, false).sent
         == Packing.Sent(REQUEST_VAR_CREATES, db, q,
                         Packing.Taken(REQUEST_VAR_CREATES, db, q, max - size - HEADER_LEN, None))
  {
    hide Packing.Taken, Packing.Live;
  }

  // ---------- The update queue is emptied ----------

  // Every update waiting goes into the beacon, behind the creates, and is not put back
  ghost predicate EmptiesUpdates<D>(n: Node<D>, size1: int) {
    || n.updateQ == []
    || ((forall i :: 0 <= i < |n.updateQ| ==> n.updateQ[i].rep <= 1)
        && size1 + HEADER_LEN + TotalLen(Packing.Elements(n.updateQ)) <= n.cfg.maxPacketSize)
  }

  lemma {:induction false} RequeuedNothing<D>(q: seq<Queued<D>>)
    ensures Packing.Requeued(q) == [] <==> forall i :: 0 <= i < |q| ==> q[i].rep <= 1
  {
    if q != [] {
      RequeuedNothing(q[1..]);
      assert forall i :: 1 <= i < |q| ==> q[i] == q[1..][i - 1];
      assert q[0].rep > 1 ==> |Packing.Requeued(q)| > 0;
    }
  }

  lemma DistinctNeverRepeat<D>(section: IEType, q: seq<Queued<D>>, j: nat)
    requires Packing.DistinctIds(q) && j < |q|
    ensures !Packing.Repeats(section, q, j)
  {
  }

  lemma LenGrows<D>(q: seq<Queued<D>>, j: nat)
    requires j < |q|
    ensures TotalLen(Packing.Elements(q[..j + 1])) <= TotalLen(Packing.Elements(q))
  {
    var a, b := Packing.Elements(q[..j + 1]), Packing.Elements(q[j + 1..]);
    assert a + b == Packing.Elements(q);
    TotalLenConcat(a, b);
  }

  // A section of distinct live elements leaves nothing in its queue exactly when all of them fit and none is put back
  lemma SectionEmptiesExactly<D>(section: IEType, db: map<nat, Variable<D>>, q: seq<Queued<D>>, size: int, max: int)
    requires Packing.DistinctIds(q) && forall i :: 0 <= i < |q| ==> !Packing.Dead(section, db, q[i].ie)
    ensures Packing.Outcome(section, db, q, size, max, false).queue == [] <==>
            || q == []
            || ((forall i :: 0 <= i < |q| ==> q[i].rep <= 1)
                && size + HEADER_LEN + TotalLen(Packing.Elements(q)) <= max)
  {
    hide Packing.Outcome, Packing.Dead, Packing.Repeats, TotalLen, Packing.Requeued, Packing.Elements;
    var k := Packing.SentExactly(section, db, q, size, max);
    RequeuedNothing(q[..k]);
    if q != [] {
      var last := |q| - 1;
      assert q[..last + 1] == q;
      DistinctNeverRepeat(section, q, if k < |q| then k else last);
      if k < |q| {
        assert q[k..] != [];
        LenGrows(q, k);
      } else {
        assert q[..k] == q && q[k..] == [];
        assert Packing.GoesIn(section, q, size, max, last);
      }
    }
  }

  lemma UpdatesEmptiedExactly<D>(n: Node<D>, initLen: int)
    requires NodeOk(n)
    ensures var (m, l) := Build(n, initLen);
            m.updateQ == [] <==> EmptiesUpdates(n, initLen + HEADER_LEN + TotalLen(l.creates))
  {
    hide SummariesOk, RequestsOk, TotalLen, Packing.Outcome, Packing.Elements, PlanOf;
    PlanIs(n, initLen);
    SectionEmptiesExactly(UPDATES, n.db, n.updateQ, PlanOf(n, initLen).size1, n.cfg.maxPacketSize);
  }

  // ---------- The mark that cut the updates short is not cleared before the summaries ----------

  // How many summaries have room behind size bytes
  function SummariesThatFit<D>(n: Node<D>, size: int): (k: nat)
    ensures k <= |n.summaryQ|
  {
    Rounds.Taken(n.db, n.summaryQ, n.cfg.maxNumSummaries, n.cfg.maxPacketSize - size - HEADER_LEN)
  }

  lemma SomeSummaryFits<D>(n: Node<D>, size: int)
    requires NodeOk(n)
    ensures SummariesThatFit(n, size) > 0 <==>
            && n.summaryQ != [] && n.cfg.maxNumSummaries > 0
            && size + HEADER_LEN + Rounds.SUMMARY_LEN < n.cfg.maxPacketSize
  {
    hide CreatesOk, UpdatesOk, RequestsOk;
    if n.summaryQ != [] {
      assert n.summaryQ[0] in n.summaryQ;
    }
  }

  // As many as are known, as many as are allowed, or so many that one more would not leave a byte free
  lemma AsManyAsFit<D>(n: Node<D>, size: int)
    requires NodeOk(n)
    ensures var k, max := SummariesThatFit(n, size), n.cfg.maxPacketSize;
            && (k > 0 ==> k <= n.cfg.maxNumSummaries && size + HEADER_LEN + Rounds.SUMMARY_LEN * k < max)
            && (k < |n.summaryQ| ==>
                  k >= n.cfg.maxNumSummaries || size + HEADER_LEN + Rounds.SUMMARY_LEN * (k + 1) >= max)
  {
    hide CreatesOk, UpdatesOk, RequestsOk, Rounds.Taken, Rounds.LiveIds;
    var k, slots, room := SummariesThatFit(n, size), n.cfg.maxNumSummaries, n.cfg.maxPacketSize - size - HEADER_LEN;
    assert forall x :: x in n.summaryQ[..k] ==> x in n.summaryQ;
    Rounds.LiveIdsAll(n.db, n.summaryQ[..k]);
    Rounds.TakenFits(n.db, n.summaryQ, slots, room);
    Rounds.TakenIsMaximal(n.db, n.summaryQ, slots, room);
  }

  // Where the update section ended early: exactly when something is left in the queue and there was room to begin
  lemma PlannedSummaries<D>(n: Node<D>, initLen: int)
    ensures var p, max := PlanOf(n, initLen), n.cfg.maxPacketSize;
            && p.rotated == (if p.updates.stop then 0 else SummariesThatFit(n, p.size2))
            && p.ids == Rounds.LiveIds(n.db, n.summaryQ[..p.rotated])
            && (p.updates.stop ==> p.updates.queue != [])
            && (!p.updates.stop && p.updates.queue != [] ==> p.size1 >= max)
  {
    hide TotalLen, Packing.Fill, Rounds.LiveIds, Rounds.Taken;
    PlanIs(n, initLen);
    StopMeans(UPDATES, n.db, n.updateQ, PlanOf(n, initLen).size1, n.cfg.maxPacketSize);
  }

  lemma StopMeans<D>(section: IEType, db: map<nat, Variable<D>>, q: seq<Queued<D>>, size: int, max: int)
    ensures var f := Packing.Outcome(section, db, q, size, max, false);
            && (f.stop ==> f.queue != [])
            && (!f.stop && f.queue != [] ==> size >= max)
  {
  }

  // A beacon announces as many variables as fit, in the order of the queue, if the queue of updates has been emptied
  // completely, and none otherwise
  lemma SummariesOnlyAfterUpdates<D>(n: Node<D>, initLen: int) returns (k: nat)
    requires NodeOk(n)
    ensures k <= |n.summaryQ|
    ensures var (m, l) := Build(n, initLen);
            var size1 := initLen + HEADER_LEN + TotalLen(l.creates);
            && k == SummariesThatFit(n, size1 + HEADER_LEN + TotalLen(l.updates))
            && (m.updateQ == [] <==> EmptiesUpdates(n, size1))
            && |l.summaries| == (if m.updateQ == [] then k else 0)
            && (k > 0 ==>
                  && k <= n.cfg.maxNumSummaries
                  && size1 + HEADER_LEN + TotalLen(l.updates) + HEADER_LEN + Rounds.SUMMARY_LEN * k < n.cfg.maxPacketSize)
            && (k < |n.summaryQ| ==>
                  || k >= n.cfg.maxNumSummaries
                  || size1 + HEADER_LEN + TotalLen(l.updates) + HEADER_LEN + Rounds.SUMMARY_LEN * (k + 1)
                     >= n.cfg.maxPacketSize)
            && (forall i :: 0 <= i < |l.summaries| ==>
                  n.summaryQ[i] in n.db && l.summaries[i] == Summary(n.summaryQ[i], n.db[n.summaryQ[i]].seqNo))
            && (l.summaries != [] <==>
                  EmptiesUpdates(n, size1) && n.summaryQ != [] && n.cfg.maxNumSummaries > 0
                  && size1 + HEADER_LEN + TotalLen(l.updates) + HEADER_LEN + Rounds.SUMMARY_LEN < n.cfg.maxPacketSize)
  {
    hide CreatesOk, UpdatesOk, RequestsOk, TotalLen, Packing.Outcome, EmptiesUpdates, SummariesThatFit, PlanOf;
    UpdatesEmptiedExactly(n, initLen);
    PlanIs(n, initLen);
    AnnouncedIds(n, initLen);
    var p := PlanOf(n, initLen);
    SomeSummaryFits(n, p.size2);
    AsManyAsFit(n, p.size2);
    k := SummariesThatFit(n, p.size2);
  }

  lemma AnnouncedIds<D>(n: Node<D>, initLen: int)
    requires NodeOk(n)
    ensures var p := PlanOf(n, initLen);
            p.ids == if p.updates.queue == [] then n.summaryQ[..SummariesThatFit(n, p.size2)] else []
  {
    hide CreatesOk, UpdatesOk, RequestsOk, TotalLen, Packing.Outcome, Rounds.Taken, PlanOf, Rounds.LiveIds;
    var p := PlanOf(n, initLen);
    PlanIs(n, initLen);
    PlannedSummaries(n, initLen);
    SomeSummaryFits(n, p.size2);
    Rounds.LiveIdsAll(n.db, n.summaryQ[..p.rotated]);
  }

  // One update with repetitions left keeps all summaries out, whatever room there is
  lemma RepeatedUpdateSilences<D>(n: Node<D>, initLen: int, i: nat)
    requires NodeOk(n) && i < |n.updateQ| && n.updateQ[i].rep > 1
    ensures Build(n, initLen).1.summaries == []
  {
    hide NodeOk, PlanOf;
    var k := SummariesOnlyAfterUpdates(n, initLen);
  }

  // So a node that updates a variable of two or more repetitions before each of its beacons never sends a summary
  lemma UpdatingSilences<D>(n: Node<D>, id: nat, len: nat, data: D, initLen: int)
    requires NodeOk(n)
    ensures var (m, rc) := ApiUpdate(n, id, len, data);
            rc == RC_OK && n.db[id].repCnt > 1 ==> Build(m, initLen).1.summaries == []
  {
    hide NodeOk, Build;
    var (m, rc) := ApiUpdate(n, id, len, data);
    ApiUpdateOk(n, id, len, data);
    if rc == RC_OK && n.db[id].repCnt > 1 {
      RepeatedUpdateSilences(m, initLen, |m.updateQ| - 1);
    }
  }

  // ---------- The mark that cut the create requests short is not cleared before the update requests ----------

  // It does no harm: when a create request does not fit, neither does the longer update request
  lemma MarkIsHarmless<D>(n: Node<D>, initLen: int)
    requires NodeOk(n)
    ensures var p, max := PlanOf(n, initLen), n.cfg.maxPacketSize;
            var cleared := Packing.Outcome(REQUEST_VAR_UPDATES, n.db, n.reqUpdateQ, p.size4, max, false);
            && p.updateReqs.sent == cleared.sent && p.updateReqs.queue == cleared.queue
            && (p.createReqs.stop <==> p.createReqs.queue != [])
            && (p.createReqs.stop ==> p.size4 + ID_LEN > max)
  {
    hide CreatesOk, UpdatesOk, SummariesOk, PlanOf, Packing.Taken;
    var p, max := PlanOf(n, initLen), n.cfg.maxPacketSize;
    PlanIs(n, initLen);
    CutForRoom(n, p.size3);
    if p.createReqs.stop {
      NoRoomForAny(n, p.size4);
    }
  }

  // The create requests, of one repetition each: none of those sent is put back
  lemma CreateRequestSection<D>(n: Node<D>, size: int)
    requires RequestsOk(n)
    ensures var q, max := n.reqCreateQ, n.cfg.maxPacketSize;
            var k := Packing.Taken(REQUEST_VAR_CREATES, n.db, q, max - size - HEADER_LEN, None);
            var f := Packing.Outcome(REQUEST_VAR_CREATES, n.db, q, size, max, false);
            && f.sent == Packing.Sent(REQUEST_VAR_CREATES, n.db, q, k) && f.queue == q[k..] && f.stop == (f.queue != [])
            && |f.sent| == |Packing.Live(REQUEST_VAR_CREATES, n.db, q[..k])| && TotalLen(f.sent) == ID_LEN * |f.sent|
  {
    hide TotalLen, Packing.Taken, Packing.Live, Packing.Dead, Packing.Requeued;
    var q := n.reqCreateQ;
    var k := Packing.Taken(REQUEST_VAR_CREATES, n.db, q, n.cfg.maxPacketSize - size - HEADER_LEN, None);
    var live := Packing.Live(REQUEST_VAR_CREATES, n.db, q[..k]);
    forall i | 0 <= i < |live| ensures live[i].ie.ReqCreate? && live[i].rep <= 1 {
      Packing.LiveMember(REQUEST_VAR_CREATES, n.db, q[..k], live[i]);
    }
    RequestsLen(Packing.Elements(live));
    RequeuedNothing(live);
  }

  // They end early only for lack of room
  lemma CutForRoom<D>(n: Node<D>, size: int)
    requires RequestsOk(n)
    ensures var max := n.cfg.maxPacketSize;
            var f := Packing.Outcome(REQUEST_VAR_CREATES, n.db, n.reqCreateQ, size, max, false);
            && (f.stop <==> f.queue != [])
            && (f.stop ==> size + HEADER_LEN + TotalLen(f.sent) + ID_LEN > max)
  {
    hide TotalLen, Packing.Taken, Packing.Outcome, Packing.Sent, Packing.Dead, Packing.Live;
    CreateRequestSection(n, size);
    Packing.TakenIsMaximalOnce(REQUEST_VAR_CREATES, n.db, n.reqCreateQ, n.cfg.maxPacketSize - size - HEADER_LEN);
  }

  lemma NoRoomForAny<D>(n: Node<D>, size: int)
    requires NodeOk(n) && size + ID_LEN > n.cfg.maxPacketSize
    ensures var f := Packing.Outcome(REQUEST_VAR_UPDATES, n.db, n.reqUpdateQ, size, n.cfg.maxPacketSize, false);
            f.sent == [] && f.queue == n.reqUpdateQ
  {
    hide CreatesOk, UpdatesOk, SummariesOk;
    var q := n.reqUpdateQ;
    if q != [] {
      assert q[0].ie.ReqUpdate?;
      assert Packing.Taken(REQUEST_VAR_UPDATES, n.db, q, n.cfg.maxPacketSize - size - HEADER_LEN, None) == 0;
    }
    assert q[..0] == [];
  }

  lemma {:induction false} LiveUpTo<D>(section: IEType, db: map<nat, Variable<D>>, q: seq<Queued<D>>, k: nat)
    requires k <= |q|
    ensures |Packing.Live(section, db, q[..k])| <= |Packing.Live(section, db, q)|
    ensures k < |q| && !Packing.Dead(section, db, q[k].ie) ==>
              |Packing.Live(section, db, q[..k])| < |Packing.Live(section, db, q)|
  {
    hide Packing.Dead;
    if k > 0 {
      LiveUpTo(section, db, q[1..], k - 1);
      assert q[..k][1..] == q[1..][..k - 1];
    }
  }

  lemma {:induction false} RequestsLen<D>(list: seq<IE<D>>)
    requires forall i :: 0 <= i < |list| ==> list[i].ReqCreate?
    ensures TotalLen(list) == ID_LEN * |list|
  {
    if list != [] {
      RequestsLen(list[1..]);
    }
  }

  // The create requests that are sent are those for unknown variables at the front of the queue
  lemma CreateRequestsOut<D>(n: Node<D>, size: int)
    requires RequestsOk(n)
    ensures var max := n.cfg.maxPacketSize;
            var live := |Packing.Live(REQUEST_VAR_CREATES, n.db, n.reqCreateQ)|;
            var f := Packing.Outcome(REQUEST_VAR_CREATES, n.db, n.reqCreateQ, size, max, false);
            && (f.queue == [] <==> live == 0 || size + HEADER_LEN + ID_LEN * live <= max)
            && |f.sent| <= live && TotalLen(f.sent) == ID_LEN * |f.sent|
            && (f.queue == [] ==> |f.sent| == live)
  {
    hide TotalLen, Packing.Taken, Packing.Live, Packing.Dead, Packing.Outcome, Packing.Sent;
    var q, room := n.reqCreateQ, n.cfg.maxPacketSize - size - HEADER_LEN;
    var k := Packing.Taken(REQUEST_VAR_CREATES, n.db, q, room, None);
    CreateRequestSection(n, size);
    Packing.TakenFits(REQUEST_VAR_CREATES, n.db, q, room, None);
    Packing.TakenIsMaximalOnce(REQUEST_VAR_CREATES, n.db, q, room);
    LiveUpTo(REQUEST_VAR_CREATES, n.db, q, k);
    assert k == |q| ==> q[..k] == q && q[k..] == [];
    assert k < |q| ==> q[k..] != [];
  }

  // The requests for variables a database does not have
  function ForUnknown<D>(db: map<nat, Variable<D>>, q: seq<Queued<D>>): (r: seq<IE<D>>)
    ensures forall x :: x in r ==> x.Id() !in db
  {
    if q == [] then []
    else (if q[0].ie.Id() !in db then [q[0].ie] else []) + ForUnknown(db, q[1..])
  }

  lemma {:induction false} UnknownAreWanted<D>(db: map<nat, Variable<D>>, q: seq<Queued<D>>)
    ensures Packing.Wanted(REQUEST_VAR_CREATES, db, q) == ForUnknown(db, q)
  {
    if q != [] {
      UnknownAreWanted(db, q[1..]);
    }
  }

  // A beacon carries the create requests for exactly the unknown variables among the first k of the queue, in order, and
  // all k leave the queue; the next one is kept only because it is for an unknown variable and does not fit
  lemma CreateRequestsSent<D>(n: Node<D>, initLen: int) returns (k: nat)
    requires NodeOk(n)
    ensures k <= |n.reqCreateQ|
    ensures var (m, l) := Build(n, initLen);
            && (forall i :: 0 <= i < |l.createReqs| ==> l.createReqs[i].ReqCreate? && l.createReqs[i].Id() !in n.db)
            && l.createReqs == ForUnknown(n.db, n.reqCreateQ[..k])
            && m.reqCreateQ == n.reqCreateQ[k..]
            && (k < |n.reqCreateQ| ==>
                  && n.reqCreateQ[k].ie.Id() !in n.db
                  && SizeBeforeUpdateRequests(l, initLen) + ID_LEN > n.cfg.maxPacketSize)
  {
    hide CreatesOk, UpdatesOk, SummariesOk, TotalLen, PlanOf, Packing.Outcome, Packing.Taken, Packing.Sent, From;
    PlanIs(n, initLen);
    BuiltFrom(n, initLen);
    var p, max := PlanOf(n, initLen), n.cfg.maxPacketSize;
    var room := max - p.size3 - HEADER_LEN;
    k := Packing.Taken(REQUEST_VAR_CREATES, n.db, n.reqCreateQ, room, None);
    CreateRequestSection(n, p.size3);
    Packing.TakenIsMaximalOnce(REQUEST_VAR_CREATES, n.db, n.reqCreateQ, room);
    SentIsWanted(REQUEST_VAR_CREATES, n.db, n.reqCreateQ, k);
    UnknownAreWanted(n.db, n.reqCreateQ[..k]);
    AreRequests(n, p.createReqs.sent);
  }

  lemma SentIsWanted<D>(section: IEType, db: map<nat, Variable<D>>, q: seq<Queued<D>>, k: nat)
    requires k <= |q|
    ensures Packing.Sent(section, db, q, k) == Packing.Wanted(section, db, q[..k])
  {
    Packing.LiveIsWanted(section, db, q[..k]);
  }

  lemma AreRequests<D>(n: Node<D>, list: seq<IE<D>>)
    requires RequestsOk(n) && From(list, n.reqCreateQ)
    ensures forall i :: 0 <= i < |list| ==> list[i].ReqCreate?
  {
  }

  // How much of the queue of update requests a beacon carries: all requests before the first one that does not fit behind
  // the other sections, or that repeats the variable of the first request with repetitions left
  lemma UpdateRequestsSent<D>(n: Node<D>, initLen: int) returns (k: nat)
    requires NodeOk(n)
    ensures k <= |n.reqUpdateQ|
    ensures var (m, l) := Build(n, initLen);
            && Packing.SentUpTo(REQUEST_VAR_UPDATES, n.reqUpdateQ, SizeBeforeUpdateRequests(l, initLen),
                                n.cfg.maxPacketSize, k)
            && l.updateReqs == Packing.Elements(n.reqUpdateQ[..k])
            && m.reqUpdateQ == n.reqUpdateQ[k..] + Packing.Requeued(n.reqUpdateQ[..k])
  {
    hide CreatesOk, UpdatesOk, SummariesOk, TotalLen, PlanOf, Packing.Outcome, Packing.SentUpTo;
    PlanIs(n, initLen);
    MarkIsHarmless(n, initLen);
    k := Packing.SentExactly(REQUEST_VAR_UPDATES, n.db, n.reqUpdateQ, PlanOf(n, initLen).size4, n.cfg.maxPacketSize);
  }

  function SizeBeforeCreateRequests<D>(l: Packet.Lists<D>, initLen: int): int {
    initLen + HEADER_LEN + TotalLen(l.creates) + HEADER_LEN + TotalLen(l.updates) + HEADER_LEN + TotalLen(l.summaries)
  }

  function SizeBeforeUpdateRequests<D>(l: Packet.Lists<D>, initLen: int): int {
    SizeBeforeCreateRequests(l, initLen) + HEADER_LEN + TotalLen(l.createReqs)
  }

  lemma FirstGoesIn<D>(q: seq<Queued<D>>, size: int, max: int, k: nat)
    requires Packing.SentUpTo(REQUEST_VAR_UPDATES, q, size, max, k)
    requires forall i :: 0 <= i < |q| ==> q[i].ie.ReqUpdate?
    ensures k > 0 <==> q != [] && size + HEADER_LEN + ID_LEN + SEQ_NO_LEN <= max
  {
    if q != [] {
      assert q[..1] == [q[0]] && Packing.Elements([q[0]]) == [q[0].ie] && [q[0].ie][1..] == [];
      assert TotalLen(Packing.Elements(q[..0 + 1])) == ID_LEN + SEQ_NO_LEN;
      assert Packing.GoesIn(REQUEST_VAR_UPDATES, q, size, max, 0)
        <==> size + HEADER_LEN + ID_LEN + SEQ_NO_LEN <= max;
    }
  }

  // A beacon carries update requests exactly when there are any and one of them fits behind all create requests for
  // unknown variables, and then no create request is left over
  lemma UpdateRequestsExactly<D>(n: Node<D>, initLen: int)
    requires NodeOk(n)
    ensures var (m, l) := Build(n, initLen);
            var max, size3 := n.cfg.maxPacketSize, SizeBeforeCreateRequests(l, initLen);
            var live := |Packing.Live(REQUEST_VAR_CREATES, n.db, n.reqCreateQ)|;
            && (m.reqCreateQ == [] <==> live == 0 || size3 + HEADER_LEN + ID_LEN * live <= max)
            && (l.updateReqs != [] <==>
                  n.reqUpdateQ != []
                  && size3 + HEADER_LEN + ID_LEN * live + HEADER_LEN + ID_LEN + SEQ_NO_LEN <= max)
            && (l.updateReqs != [] ==> m.reqCreateQ == [])
  {
    hide CreatesOk, UpdatesOk, SummariesOk, TotalLen, PlanOf, Packing.Outcome, Packing.SentUpTo, Packing.Live;
    PlanIs(n, initLen);
    MarkIsHarmless(n, initLen);
    CreateRequestsOut(n, PlanOf(n, initLen).size3);
    var k := UpdateRequestsSent(n, initLen);
    FirstGoesIn(n.reqUpdateQ, PlanOf(n, initLen).size4, n.cfg.maxPacketSize, k);
    var p, l := PlanOf(n, initLen), Build(n, initLen).1;
    assert p.size3 == SizeBeforeCreateRequests(l, initLen) && p.size4 == SizeBeforeUpdateRequests(l, initLen);
  }

  // In particular a request that repeats the variable of the first one with repetitions left keeps itself and all behind
  // it out of the beacon, whatever room there is
  lemma DuplicateRequestKeepsOthersOut<D>(n: Node<D>, initLen: int, j: nat)
    requires NodeOk(n) && j < |n.reqUpdateQ| && Packing.Repeats(REQUEST_VAR_UPDATES, n.reqUpdateQ, j)
    ensures |Build(n, initLen).1.updateReqs| <= j
  {
    hide NodeOk, Packing.Repeats, Build;
    var k := UpdateRequestsSent(n, initLen);
    assert j < k ==> Packing.GoesIn(REQUEST_VAR_UPDATES, n.reqUpdateQ,
                       SizeBeforeUpdateRequests(Build(n, initLen).1, initLen), n.cfg.maxPacketSize, j);
  }
}
