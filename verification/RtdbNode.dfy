/**
 One node of the real-time database: its variables, its queues, and what the two API requests, the building
 of a beacon and the reception of a beacon do to them.
 */
module RtdbNode {
  import opened Wrappers
  import opened RtdbTypes
  import opened RtdbSerial
  import Packing = RtdbPacking
  import Packet = RtdbPacket
  import Rounds = RtdbSummaries

  // What an application is told when a variable is learnt or changes
  datatype Indication<D> = Indication(id: nat, len: nat, data: D)

  datatype Node<D> = Node(
    self: nat,
    cfg: Config,
    db: map<nat, Variable<D>>,
    createQ: seq<Queued<D>>,
    updateQ: seq<Queued<D>>,
    summaryQ: seq<nat>,
    reqUpdateQ: seq<Queued<D>>,
    reqCreateQ: seq<Queued<D>>,
    told: seq<Indication<D>>)

  datatype ResponseCode =
    | RC_OK | RC_VARIABLE_EXISTS | RC_VARIABLE_DESCRIPTION_TOO_LONG | RC_VALUE_TOO_LONG
    | RC_WRONG_REPETITION_NUMBER | RC_VARIABLE_DOES_NOT_EXIST | RC_VARIABLE_IS_NOT_PRODUCER
    | RC_VARIABLE_BEING_DELETED

  // ---------- Elements made from a variable ----------

  function SpecOf<D>(v: Variable<D>): VarSpec {
    VarSpec(v.id, v.producer, v.descr, v.repCnt)
  }

  function UpdateOf<D>(v: Variable<D>): VarUpdate<D> {
    VarUpdate(v.id, v.seqNo, v.len, v.data)
  }

  // The description length is kept in 16 bits
  function Stored(descr: string): string {
    descr[..|descr| % 0x1_0000]
  }

  function RemoveId<D>(q: seq<Queued<D>>, id: nat): seq<Queued<D>> {
    if q == [] then []
    else (if q[0].ie.Id() != id then [q[0]] else []) + RemoveId(q[1..], id)
  }

  // ---------- API requests ----------

  function ApiCreate<D>(n: Node<D>, id: nat, descr: string, len: nat, data: D, repCnt: nat): (Node<D>, ResponseCode) {
    if id in n.db then (n, RC_VARIABLE_EXISTS)
    else if |descr| % 0x1_0000 > n.cfg.maxDescriptionLen then (n, RC_VARIABLE_DESCRIPTION_TOO_LONG)
    else if len > n.cfg.maxVariableLen then (n, RC_VALUE_TOO_LONG)
    else if repCnt > n.cfg.maxRepetitions then (n, RC_WRONG_REPETITION_NUMBER)
    else
      var v := Variable(id, n.self, repCnt, Stored(descr), len, data, 1, false);
      (n.(db := n.db[id := v],
          createQ := n.createQ + [Queued(Create(SpecOf(v), UpdateOf(v)), repCnt)],
          summaryQ := n.summaryQ + [id]),
       RC_OK)
  }

  function ApiUpdate<D>(n: Node<D>, id: nat, len: nat, data: D): (Node<D>, ResponseCode) {
    if id !in n.db then (n, RC_VARIABLE_DOES_NOT_EXIST)
    else if n.db[id].producer != n.self then (n, RC_VARIABLE_IS_NOT_PRODUCER)
    else if n.db[id].toBeDeleted then (n, RC_VARIABLE_BEING_DELETED)
    else if len > n.cfg.maxVariableLen then (n, RC_VALUE_TOO_LONG)
    else
      var v := n.db[id].(len := len, data := data, seqNo := NextSeqNo(n.db[id].seqNo));
      (n.(db := n.db[id := v],
          updateQ := RemoveId(n.updateQ, id) + [Queued(Update(UpdateOf(v).(id := id)), v.repCnt)]),
       RC_OK)
  }

  // ---------- Building a beacon ----------

  // The five sections and the sizes before each of them
  datatype Plan<D> = Plan(
    creates: Packing.Filled<D>, updates: Packing.Filled<D>, rotated: nat, ids: seq<nat>,
    createReqs: Packing.Filled<D>, updateReqs: Packing.Filled<D>,
    size1: int, size2: int, size3: int, size4: int)

  function PlanOf<D>(n: Node<D>, initLen: int): (p: Plan<D>)
    ensures p.rotated <= |n.summaryQ| && p.ids == Rounds.LiveIds(n.db, n.summaryQ[..p.rotated])
    ensures forall x :: x in p.ids ==> x in n.db
  {
    var max := n.cfg.maxPacketSize;
    var creates := Packing.Outcome(CREATE_VARIABLES, n.db, n.createQ, initLen, max, false);
    var size1 := initLen + HEADER_LEN + TotalLen(creates.sent);
    var updates := Packing.Outcome(UPDATES, n.db, n.updateQ, size1, max, false);
    var size2 := size1 + HEADER_LEN + TotalLen(updates.sent);
    // what cut the updates short is not cleared: it also suppresses the summaries
    var k := if updates.stop then 0 else Rounds.Taken(n.db, n.summaryQ, n.cfg.maxNumSummaries, max - size2 - HEADER_LEN);
    var ids := Rounds.LiveIds(n.db, n.summaryQ[..k]);
    var size3 := size2 + HEADER_LEN + TotalLen(Rounds.SummariesOf(n.db, ids));
    var createReqs := Packing.Outcome(REQUEST_VAR_CREATES, n.db, n.reqCreateQ, size3, max, false);
    var size4 := size3 + HEADER_LEN + TotalLen(createReqs.sent);
    // nor is what cut the create requests short, which suppresses the update requests
    var updateReqs := Packing.Outcome(REQUEST_VAR_UPDATES, n.db, n.reqUpdateQ, size4, max, createReqs.stop);
    Plan(creates, updates, k, ids, createReqs, updateReqs, size1, size2, size3, size4)
  }

  function ListsOf<D>(n: Node<D>, p: Plan<D>): Packet.Lists<D>
    requires forall x :: x in p.ids ==> x in n.db
  {
    Packet.Lists(p.creates.sent, p.updates.sent, Rounds.SummariesOf(n.db, p.ids), p.createReqs.sent, p.updateReqs.sent)
  }

  function Build<D>(n: Node<D>, initLen: int): (Node<D>, Packet.Lists<D>) {
    var p := PlanOf(n, initLen);
    (n.(createQ := p.creates.queue, updateQ := p.updates.queue, summaryQ := n.summaryQ[p.rotated..] + p.ids,
        reqCreateQ := p.createReqs.queue, reqUpdateQ := p.updateReqs.queue),
     ListsOf(n, p))
  }

  // Filling the sections one after the other, each behind the sizes of the ones before, is what the plan says
  lemma PlannedBySections<D>(n: Node<D>, initLen: int, p: Plan<D>)
    requires p.size1 == initLen + HEADER_LEN + TotalLen(p.creates.sent)
    requires p.size2 == p.size1 + HEADER_LEN + TotalLen(p.updates.sent)
    requires p.size4 == p.size3 + HEADER_LEN + TotalLen(p.createReqs.sent)
    requires p.creates == Packing.Outcome(CREATE_VARIABLES, n.db, n.createQ, initLen, n.cfg.maxPacketSize, false)
    requires p.updates == Packing.Outcome(UPDATES, n.db, n.updateQ, p.size1, n.cfg.maxPacketSize, false)
    requires p.rotated == if p.updates.stop then 0
                          else Rounds.Taken(n.db, n.summaryQ, n.cfg.maxNumSummaries, n.cfg.maxPacketSize - p.size2 - HEADER_LEN)
    requires p.ids == Rounds.LiveIds(n.db, n.summaryQ[..p.rotated])
    requires (forall x :: x in p.ids ==> x in n.db)
             && p.size3 == p.size2 + HEADER_LEN + TotalLen(Rounds.SummariesOf(n.db, p.ids))
    requires p.createReqs == Packing.Outcome(REQUEST_VAR_CREATES, n.db, n.reqCreateQ, p.size3, n.cfg.maxPacketSize, false)
    requires p.updateReqs == Packing.Outcome(REQUEST_VAR_UPDATES, n.db, n.reqUpdateQ, p.size4, n.cfg.maxPacketSize,
                                             p.createReqs.stop)
    ensures p == PlanOf(n, initLen)
  {
    hide TotalLen, Packing.Outcome, Rounds.Taken, Rounds.LiveIds;
  }

  // ---------- Receiving a beacon ----------

  function ReceiveCreate<D>(n: Node<D>, ie: IE<D>): Node<D>
    requires ie.Create?
  {
    var id := ie.spec.id;
    if id in n.db then n
    else
      var v := Variable(id, ie.spec.producer, ie.spec.repCnt, ie.spec.descr, ie.update.len, ie.update.data,
                        ie.update.seqNo, false);
      n.(db := n.db[id := v],
         told := n.told + [Indication(id, v.len, v.data)],
         createQ := n.createQ + [Queued(Create(SpecOf(v), UpdateOf(v)), v.repCnt)],
         reqCreateQ := RemoveId(n.reqCreateQ, id),
         summaryQ := n.summaryQ + [id])
  }

  function ReceiveUpdate<D>(n: Node<D>, ie: IE<D>): Node<D>
    requires ie.Update?
  {
    var id := ie.upd.id;
    if id in n.db then
      var v := n.db[id];
      if !v.toBeDeleted && v.producer != n.self && SeqNoMoreRecent(v.seqNo, ie.upd.seqNo) then
        n.(db := n.db[id := v.(len := ie.upd.len, data := ie.upd.data, seqNo := ie.upd.seqNo)],
           told := n.told + [Indication(id, ie.upd.len, ie.upd.data)],
           updateQ := RemoveId(n.updateQ, id) + [Queued(ie, v.repCnt)],
           reqUpdateQ := RemoveId(n.reqUpdateQ, id))
      else n
    else
      n.(reqCreateQ := n.reqCreateQ + [Queued(ReqCreate(id), 1)])
  }

  // The current entry of a variable goes to the end of the queue of updates
  function Reissue<D>(n: Node<D>, id: nat): Node<D>
    requires id in n.db
  {
    var v := n.db[id];
    n.(updateQ := RemoveId(n.updateQ, id) + [Queued(Update(UpdateOf(v).(id := id)), v.repCnt)])
  }

  function ReceiveSummary<D>(n: Node<D>, ie: IE<D>): Node<D>
    requires ie.Summary?
  {
    var id := ie.sumId;
    if id in n.db then
      var v := n.db[id];
      if !v.toBeDeleted && v.producer != n.self && ie.sumSeqNo != v.seqNo then
        if SeqNoMoreRecent(v.seqNo, ie.sumSeqNo) then
          n.(reqUpdateQ := n.reqUpdateQ + [Queued(ReqUpdate(id, v.seqNo), v.repCnt)])
        else
          Reissue(n, id)
      else n
    else
      n.(reqCreateQ := n.reqCreateQ + [Queued(ReqCreate(id), 1)])
  }

  function ReceiveReqCreate<D>(n: Node<D>, ie: IE<D>): Node<D>
    requires ie.ReqCreate?
  {
    var id := ie.reqCreateId;
    if id in n.db && !n.db[id].toBeDeleted then
      var v := n.db[id];
      n.(createQ := RemoveId(n.createQ, id)
                    + [Queued(Create(SpecOf(v).(id := id), UpdateOf(v).(id := id)), v.repCnt)])
    else n
  }

  function ReceiveReqUpdate<D>(n: Node<D>, ie: IE<D>): Node<D>
    requires ie.ReqUpdate?
  {
    var id := ie.reqUpdateId;
    if id in n.db && !n.db[id].toBeDeleted then Reissue(n, id) else n
  }

  function Receive<D>(n: Node<D>, ie: IE<D>): Node<D> {
    match ie
    case Create(_, _) => ReceiveCreate(n, ie)
    case Update(_) => ReceiveUpdate(n, ie)
    case Summary(_, _) => ReceiveSummary(n, ie)
    case ReqCreate(_) => ReceiveReqCreate(n, ie)
    case ReqUpdate(_, _) => ReceiveReqUpdate(n, ie)
  }

  // Elements are processed one after the other
  function ReceiveAll<D>(n: Node<D>, list: seq<IE<D>>): Node<D> {
    if list == [] then n else Receive(ReceiveAll(n, list[..|list| - 1]), list[|list| - 1])
  }

  // Creates first, then updates, summaries, create requests and update requests
  function Process<D>(n: Node<D>, l: Packet.Lists<D>): Node<D> {
    ReceiveAll(ReceiveAll(ReceiveAll(ReceiveAll(ReceiveAll(n,
      l.creates), l.updates), l.summaries), l.createReqs), l.updateReqs)
  }

  // ---------- The invariant of a node ----------

  // Every create waiting to be sent describes a known variable, no two of them the same one
  ghost predicate CreatesOk<D>(n: Node<D>) {
    && Packing.DistinctIds(n.createQ)
    && (forall i :: 0 <= i < |n.createQ| ==>
          var ie := n.createQ[i].ie;
          ie.Create? && ie.spec.id in n.db && ie.spec == SpecOf(n.db[ie.spec.id]) && ie.update.id == ie.spec.id)
  }

  // Every update waiting to be sent is the current entry of its variable, no two are of the same variable
  ghost predicate UpdatesOk<D>(n: Node<D>) {
    && Packing.DistinctIds(n.updateQ)
    && (forall i :: 0 <= i < |n.updateQ| ==>
          var ie := n.updateQ[i].ie;
          ie.Update? && ie.upd.id in n.db && ie.upd == UpdateOf(n.db[ie.upd.id]))
  }

  // The summary queue is a permutation of the known variables
  ghost predicate SummariesOk<D>(n: Node<D>) {
    Rounds.Distinct(n.summaryQ) && forall x :: x in n.summaryQ <==> x in n.db
  }

  ghost predicate RequestsOk<D>(n: Node<D>) {
    && (forall i :: 0 <= i < |n.reqUpdateQ| ==> n.reqUpdateQ[i].ie.ReqUpdate? && n.reqUpdateQ[i].ie.Id() in n.db)
    && (forall i :: 0 <= i < |n.reqCreateQ| ==> n.reqCreateQ[i].ie.ReqCreate? && n.reqCreateQ[i].rep == 1)
  }

  // No operation marks a variable for deletion
  ghost predicate NodeOk<D>(n: Node<D>) {
    && (forall id :: id in n.db ==> n.db[id].id == id && !n.db[id].toBeDeleted)
    && CreatesOk(n) && UpdatesOk(n) && SummariesOk(n) && RequestsOk(n)
  }

  function Fresh<D>(self: nat, cfg: Config): (n: Node<D>)
    ensures NodeOk(n)
  {
    Node(self, cfg, map[], [], [], [], [], [], [])
  }

  // ---------- Every step keeps the invariant ----------

  lemma {:induction false} RemoveIdMember<D>(q: seq<Queued<D>>, id: nat, x: Queued<D>)
    ensures x in RemoveId(q, id) <==> x in q && x.ie.Id() != id
  {
    if q != [] {
      RemoveIdMember(q[1..], id, x);
      assert x in q <==> x == q[0] || x in q[1..];
    }
  }

  lemma {:induction false} RemoveIdDistinct<D>(q: seq<Queued<D>>, id: nat)
    requires Packing.DistinctIds(q)
    ensures Packing.DistinctIds(RemoveId(q, id))
  {
    if q != [] {
      var rest := RemoveId(q[1..], id);
      RemoveIdDistinct(q[1..], id);
      forall i | 0 <= i < |rest| ensures rest[i].ie.Id() != q[0].ie.Id() {
        RemoveIdMember(q[1..], id, rest[i]);
        var j :| 0 <= j < |q[1..]| && q[1..][j] == rest[i];
        assert q[j + 1] == rest[i];
      }
    }
  }

  // Replacing the element of a variable, or adding one, at the end of a queue
  lemma Superseded<D>(q: seq<Queued<D>>, id: nat, x: Queued<D>)
    requires x.ie.Id() == id
    ensures var r := RemoveId(q, id) + [x];
            && r[|r| - 1] == x
            && (forall i :: 0 <= i < |r| - 1 ==> r[i] in q && r[i].ie.Id() != id)
            && (Packing.DistinctIds(q) ==> Packing.DistinctIds(r))
  {
    var p := RemoveId(q, id);
    forall i | 0 <= i < |p| ensures p[i] in q && p[i].ie.Id() != id {
      RemoveIdMember(q, id, p[i]);
    }
    if Packing.DistinctIds(q) {
      RemoveIdDistinct(q, id);
    }
  }

  // The elements of the create queue are those of variables with unchanged specifications
  lemma SameSpecs<D>(n: Node<D>, m: Node<D>)
    requires CreatesOk(n) && m.createQ == n.createQ
    requires forall id :: id in n.db ==> id in m.db && SpecOf(m.db[id]) == SpecOf(n.db[id])
    ensures CreatesOk(m)
  {
  }

  // Changing the value of one variable and putting it at the end of the update queue
  lemma NewValueOk<D>(n: Node<D>, m: Node<D>, id: nat, v: Variable<D>, rep: int)
    requires NodeOk(n) && id in n.db && SpecOf(v) == SpecOf(n.db[id]) && v.toBeDeleted == n.db[id].toBeDeleted
    requires m.db == n.db[id := v]
    requires m.updateQ == RemoveId(n.updateQ, id) + [Queued(Update(UpdateOf(v)), rep)]
    requires m.createQ == n.createQ && m.summaryQ == n.summaryQ
    requires m.reqCreateQ == n.reqCreateQ
    requires m.reqUpdateQ == n.reqUpdateQ || m.reqUpdateQ == RemoveId(n.reqUpdateQ, id)
    ensures NodeOk(m)
  {
    SameSpecs(n, m);
    assert v.id == id;
    Superseded(n.updateQ, id, Queued(Update(UpdateOf(v)), rep));
    forall i | 0 <= i < |m.updateQ|
      ensures var ie := m.updateQ[i].ie; ie.Update? && ie.upd.id in m.db && ie.upd == UpdateOf(m.db[ie.upd.id])
    {
      if i < |m.updateQ| - 1 {
        assert m.updateQ[i] in n.updateQ;
      }
    }
    forall i | 0 <= i < |m.reqUpdateQ| ensures m.reqUpdateQ[i] in n.reqUpdateQ {
      RemoveIdMember(n.reqUpdateQ, id, m.reqUpdateQ[i]);
    }
  }

  lemma ReissueOk<D>(n: Node<D>, id: nat)
    requires NodeOk(n) && id in n.db
    ensures NodeOk(Reissue(n, id))
  {
    assert n.db == n.db[id := n.db[id]];
    NewValueOk(n, Reissue(n, id), id, n.db[id], n.db[id].repCnt);
  }

  // Adding a variable with its create element and its place in the summary queue
  lemma NewVariableOk<D>(n: Node<D>, m: Node<D>, v: Variable<D>, rep: int)
    requires NodeOk(n) && v.id !in n.db && !v.toBeDeleted
    requires m.db == n.db[v.id := v]
    requires m.createQ == n.createQ + [Queued(Create(SpecOf(v), UpdateOf(v)), rep)]
    requires m.summaryQ == n.summaryQ + [v.id]
    requires m.updateQ == n.updateQ && m.reqUpdateQ == n.reqUpdateQ
    requires m.reqCreateQ == n.reqCreateQ || m.reqCreateQ == RemoveId(n.reqCreateQ, v.id)
    ensures NodeOk(m)
  {
    assert CreatesOk(m);
    assert UpdatesOk(m);
    assert SummariesOk(m);
    forall i | 0 <= i < |m.reqCreateQ| ensures m.reqCreateQ[i] in n.reqCreateQ {
      RemoveIdMember(n.reqCreateQ, v.id, m.reqCreateQ[i]);
    }
  }

  lemma ApiCreateOk<D>(n: Node<D>, id: nat, descr: string, len: nat, data: D, repCnt: nat)
    requires NodeOk(n)
    ensures NodeOk(ApiCreate(n, id, descr, len, data, repCnt).0)
  {
    var (m, rc) := ApiCreate(n, id, descr, len, data, repCnt);
    if rc == RC_OK {
      NewVariableOk(n, m, Variable(id, n.self, repCnt, Stored(descr), len, data, 1, false), repCnt);
    }
  }

  lemma ApiUpdateOk<D>(n: Node<D>, id: nat, len: nat, data: D)
    requires NodeOk(n)
    ensures NodeOk(ApiUpdate(n, id, len, data).0)
  {
    var (m, rc) := ApiUpdate(n, id, len, data);
    if rc == RC_OK {
      NewValueOk(n, m, id, m.db[id], m.db[id].repCnt);
    }
  }

  lemma ReceiveReqCreateOk<D>(n: Node<D>, ie: IE<D>)
    requires NodeOk(n) && ie.ReqCreate?
    ensures NodeOk(ReceiveReqCreate(n, ie))
  {
    var id, m := ie.reqCreateId, ReceiveReqCreate(n, ie);
    if m != n {
      var v := n.db[id];
      var x := Queued(Create(SpecOf(v), UpdateOf(v)), v.repCnt);
      Superseded(n.createQ, id, x);
      forall i | 0 <= i < |m.createQ|
        ensures var e := m.createQ[i].ie;
                e.Create? && e.spec.id in m.db && e.spec == SpecOf(m.db[e.spec.id]) && e.update.id == e.spec.id
      {
        if i < |m.createQ| - 1 {
          assert m.createQ[i] in n.createQ;
        }
      }
    }
  }

  lemma ReceiveOk<D>(n: Node<D>, ie: IE<D>)
    requires NodeOk(n)
    ensures NodeOk(Receive(n, ie))
  {
    match ie
    case Create(spec, update) =>
      if spec.id !in n.db {
        var v := Variable(spec.id, spec.producer, spec.repCnt, spec.descr, update.len, update.data, update.seqNo, false);
        NewVariableOk(n, Receive(n, ie), v, v.repCnt);
      }
    case Update(upd) =>
      if upd.id in n.db {
        var v := n.db[upd.id];
        NewValueOk(n, n.(db := n.db[upd.id := v.(len := upd.len, data := upd.data, seqNo := upd.seqNo)],
                         updateQ := RemoveId(n.updateQ, upd.id) + [Queued(ie, v.repCnt)],
                         reqUpdateQ := RemoveId(n.reqUpdateQ, upd.id)),
                   upd.id, v.(len := upd.len, data := upd.data, seqNo := upd.seqNo), v.repCnt);
      }
    case Summary(id, _) =>
      if id in n.db {
        ReissueOk(n, id);
      }
    case ReqCreate(_) =>
      ReceiveReqCreateOk(n, ie);
    case ReqUpdate(id, _) =>
      if id in n.db {
        ReissueOk(n, id);
      }
  }

  lemma {:induction false} ReceiveAllOk<D>(n: Node<D>, list: seq<IE<D>>)
    requires NodeOk(n)
    ensures NodeOk(ReceiveAll(n, list))
  {
    if list != [] {
      ReceiveAllOk(n, list[..|list| - 1]);
      ReceiveOk(ReceiveAll(n, list[..|list| - 1]), list[|list| - 1]);
    }
  }

  lemma ProcessOk<D>(n: Node<D>, l: Packet.Lists<D>)
    requires NodeOk(n)
    ensures NodeOk(Process(n, l))
  {
    ReceiveAllOk(n, l.creates);
    var n1 := ReceiveAll(n, l.creates);
    ReceiveAllOk(n1, l.updates);
    var n2 := ReceiveAll(n1, l.updates);
    ReceiveAllOk(n2, l.summaries);
    var n3 := ReceiveAll(n2, l.summaries);
    ReceiveAllOk(n3, l.createReqs);
    ReceiveAllOk(ReceiveAll(n3, l.createReqs), l.updateReqs);
  }

  // ---------- Building keeps the invariant and stays within the packet ----------

  ghost predicate From<D>(list: seq<IE<D>>, q: seq<Queued<D>>) {
    forall i :: 0 <= i < |list| ==> list[i] in Packing.Ies(q)
  }

  // What every section keeps of its queue
  lemma PlanKeeps<D>(n: Node<D>, initLen: int)
    ensures var p := PlanOf(n, initLen);
            && (Packing.DistinctIds(n.createQ) ==> Packing.DistinctIds(p.creates.queue))
            && (Packing.DistinctIds(n.updateQ) ==> Packing.DistinctIds(p.updates.queue))
            && Packing.Ies(p.creates.queue) <= Packing.Ies(n.createQ)
            && Packing.Ies(p.updates.queue) <= Packing.Ies(n.updateQ)
            && Packing.Ies(p.createReqs.queue) <= Packing.Ies(n.reqCreateQ)
            && ((forall i :: 0 <= i < |n.reqCreateQ| ==> n.reqCreateQ[i].rep == 1) ==>
                  forall i :: 0 <= i < |p.createReqs.queue| ==> p.createReqs.queue[i].rep == 1)
            && Packing.Ies(p.updateReqs.queue) <= Packing.Ies(n.reqUpdateQ)
  {
    var p, max := PlanOf(n, initLen), n.cfg.maxPacketSize;
    hide TotalLen, Packing.Outcome, Rounds.Taken, Packing.Ies, Packing.DistinctIds;
    if Packing.DistinctIds(n.createQ) {
      Packing.FillKeeps(CREATE_VARIABLES, n.db, n.createQ, initLen, max, false);
    }
    if Packing.DistinctIds(n.updateQ) {
      Packing.FillKeeps(UPDATES, n.db, n.updateQ, p.size1, max, false);
    }
    Packing.FillNothingNew(CREATE_VARIABLES, n.db, n.createQ, initLen, max, false);
    Packing.FillNothingNew(UPDATES, n.db, n.updateQ, p.size1, max, false);
    Packing.FillNothingNew(REQUEST_VAR_CREATES, n.db, n.reqCreateQ, p.size3, max, false);
    Packing.FillNothingNew(REQUEST_VAR_UPDATES, n.db, n.reqUpdateQ, p.size4, max, p.createReqs.stop);
  }

  lemma PlanSends<D>(n: Node<D>, initLen: int)
    ensures var p := PlanOf(n, initLen);
            && From(p.creates.sent, n.createQ) && From(p.updates.sent, n.updateQ)
            && From(p.createReqs.sent, n.reqCreateQ) && From(p.updateReqs.sent, n.reqUpdateQ)
  {
    var p, max := PlanOf(n, initLen), n.cfg.maxPacketSize;
    hide TotalLen, Packing.Outcome, Rounds.Taken, Packing.Ies;
    Packing.FillNothingNew(CREATE_VARIABLES, n.db, n.createQ, initLen, max, false);
    Packing.FillNothingNew(UPDATES, n.db, n.updateQ, p.size1, max, false);
    Packing.FillNothingNew(REQUEST_VAR_CREATES, n.db, n.reqCreateQ, p.size3, max, false);
    Packing.FillNothingNew(REQUEST_VAR_UPDATES, n.db, n.reqUpdateQ, p.size4, max, p.createReqs.stop);
  }

  lemma BuildOk<D>(n: Node<D>, initLen: int)
    requires NodeOk(n)
    ensures NodeOk(Build(n, initLen).0)
  {
    PlanKeeps(n, initLen);
    Rounds.AnnouncingKeeps(n.db, n.summaryQ, PlanOf(n, initLen).rotated);
    hide PlanOf;
    KeepsAll(n, Build(n, initLen).0, PlanOf(n, initLen));
  }

  lemma KeepsAll<D>(n: Node<D>, m: Node<D>, p: Plan<D>)
    requires NodeOk(n) && m.db == n.db
    requires m.createQ == p.creates.queue && m.updateQ == p.updates.queue
    requires m.reqCreateQ == p.createReqs.queue && m.reqUpdateQ == p.updateReqs.queue
    requires Packing.DistinctIds(m.createQ) && Packing.Ies(m.createQ) <= Packing.Ies(n.createQ)
    requires Packing.DistinctIds(m.updateQ) && Packing.Ies(m.updateQ) <= Packing.Ies(n.updateQ)
    requires Packing.Ies(m.reqUpdateQ) <= Packing.Ies(n.reqUpdateQ)
    requires forall i :: 0 <= i < |m.reqCreateQ| ==> m.reqCreateQ[i].rep == 1
    requires Packing.Ies(m.reqCreateQ) <= Packing.Ies(n.reqCreateQ)
    requires Rounds.Distinct(m.summaryQ)
    requires forall x :: x in m.summaryQ ==> x in n.summaryQ
    requires forall x :: x in n.summaryQ && !DropNonExistent(n.db, x) ==> x in m.summaryQ
    ensures NodeOk(m)
  {
    hide CreatesOk, UpdatesOk, RequestsOk, Packing.DistinctIds, Packing.Ies;
    KeepsCreates(n, m);
    KeepsUpdates(n, m);
    KeepsRequests(n, m);
  }

  lemma KeepsCreates<D>(n: Node<D>, m: Node<D>)
    requires CreatesOk(n) && m.db == n.db
    requires Packing.DistinctIds(m.createQ) && Packing.Ies(m.createQ) <= Packing.Ies(n.createQ)
    ensures CreatesOk(m)
  {
    forall i | 0 <= i < |m.createQ|
      ensures var ie := m.createQ[i].ie;
              ie.Create? && ie.spec.id in m.db && ie.spec == SpecOf(m.db[ie.spec.id]) && ie.update.id == ie.spec.id
    {
      assert m.createQ[i].ie in Packing.Ies(m.createQ);
    }
  }

  lemma KeepsUpdates<D>(n: Node<D>, m: Node<D>)
    requires UpdatesOk(n) && m.db == n.db
    requires Packing.DistinctIds(m.updateQ) && Packing.Ies(m.updateQ) <= Packing.Ies(n.updateQ)
    ensures UpdatesOk(m)
  {
    forall i | 0 <= i < |m.updateQ|
      ensures var ie := m.updateQ[i].ie; ie.Update? && ie.upd.id in m.db && ie.upd == UpdateOf(m.db[ie.upd.id])
    {
      assert m.updateQ[i].ie in Packing.Ies(m.updateQ);
    }
  }

  lemma KeepsRequests<D>(n: Node<D>, m: Node<D>)
    requires RequestsOk(n) && m.db == n.db
    requires Packing.Ies(m.reqUpdateQ) <= Packing.Ies(n.reqUpdateQ)
    requires forall i :: 0 <= i < |m.reqCreateQ| ==> m.reqCreateQ[i].rep == 1
    requires Packing.Ies(m.reqCreateQ) <= Packing.Ies(n.reqCreateQ)
    ensures RequestsOk(m)
  {
    forall i | 0 <= i < |m.reqUpdateQ| ensures m.reqUpdateQ[i].ie.ReqUpdate? && m.reqUpdateQ[i].ie.Id() in m.db {
      assert m.reqUpdateQ[i].ie in Packing.Ies(m.reqUpdateQ);
    }
    forall i | 0 <= i < |m.reqCreateQ| ensures m.reqCreateQ[i].ie.ReqCreate? && m.reqCreateQ[i].rep == 1 {
      assert m.reqCreateQ[i].ie in Packing.Ies(m.reqCreateQ);
    }
  }

  // What a beacon carries comes from the queues and the database, section by section
  lemma BuiltFrom<D>(n: Node<D>, initLen: int)
    requires NodeOk(n)
    ensures var l := Build(n, initLen).1;
            && From(l.creates, n.createQ) && From(l.updates, n.updateQ)
            && From(l.createReqs, n.reqCreateQ) && From(l.updateReqs, n.reqUpdateQ)
            && (forall i :: 0 <= i < |l.summaries| ==>
                  var s := l.summaries[i];
                  s.Summary? && s.sumId in n.db && s.sumSeqNo == n.db[s.sumId].seqNo)
            && l.Typed()
  {
    PlanSends(n, initLen);
    hide PlanOf;
    AllTyped(n, Build(n, initLen).1);
  }

  lemma AllTyped<D>(n: Node<D>, l: Packet.Lists<D>)
    requires NodeOk(n)
    requires From(l.creates, n.createQ) && From(l.updates, n.updateQ)
    requires From(l.createReqs, n.reqCreateQ) && From(l.updateReqs, n.reqUpdateQ)
    requires Packet.AllOf(SUMMARIES, l.summaries)
    ensures l.Typed()
  {
    var s := l.InOrder();
    assert Packet.AllOf(Packet.ORDER[0], s[0]);
    assert Packet.AllOf(Packet.ORDER[1], s[1]);
    assert Packet.AllOf(Packet.ORDER[2], s[2]);
    assert Packet.AllOf(Packet.ORDER[3], s[3]);
    assert Packet.AllOf(Packet.ORDER[4], s[4]);
  }

  lemma SectionFits<D>(section: IEType, db: map<nat, Variable<D>>, q: seq<Queued<D>>, size: int, maxSize: int,
                       stopIn: bool)
    ensures FitsBehind(Packing.Outcome(section, db, q, size, maxSize, stopIn).sent, size, maxSize)
  {
    hide TotalLen, Packing.Taken, Packing.Live;
    var room := maxSize - size - HEADER_LEN;
    Packing.TakenFits(section, db, q, room, None);
    EmptyLen(Packing.Outcome(section, db, q, size, maxSize, stopIn).sent);
  }

  // A beacon together with what precedes it never exceeds the allowed size, unless what precedes it does so
  // alone, in which case the beacon is empty; and it never has more summaries than allowed. So the first of
  // the two checks at the end fires exactly for an excessive initial length, the second never does.
  lemma BuildFits<D>(n: Node<D>, initLen: int)
    ensures var l := Build(n, initLen).1;
            && (initLen <= n.cfg.maxPacketSize ==> Packet.ByteLen(Packet.Write(l)) + initLen <= n.cfg.maxPacketSize)
            && (initLen > n.cfg.maxPacketSize ==> l == Packet.Lists([], [], [], [], []))
            && (l.summaries == [] || |l.summaries| <= n.cfg.maxNumSummaries)
  {
    PlanFits(n, initLen);
    Packet.ByteLenWrite(Build(n, initLen).1);
    hide PlanOf, TotalLen, Packet.ByteLen, Packet.Write;
    SectionsAddUp(Build(n, initLen).1, initLen, n.cfg.maxPacketSize);
  }

  // A list that is not empty fits behind size bytes and its header
  ghost predicate FitsBehind<D>(list: seq<IE<D>>, size: int, max: int) {
    list == [] || (size + HEADER_LEN + TotalLen(list) <= max && TotalLen(list) > 0)
  }

  ghost predicate AllFit<D>(l: Packet.Lists<D>, initLen: int, max: int) {
    var size1 := initLen + HEADER_LEN + TotalLen(l.creates);
    var size2 := size1 + HEADER_LEN + TotalLen(l.updates);
    var size3 := size2 + HEADER_LEN + TotalLen(l.summaries);
    var size4 := size3 + HEADER_LEN + TotalLen(l.createReqs);
    && FitsBehind(l.creates, initLen, max) && FitsBehind(l.updates, size1, max)
    && FitsBehind(l.summaries, size2, max) && FitsBehind(l.createReqs, size3, max)
    && FitsBehind(l.updateReqs, size4, max)
  }

  lemma PlanIs<D>(n: Node<D>, initLen: int)
    ensures var p, max := PlanOf(n, initLen), n.cfg.maxPacketSize;
            && p.creates == Packing.Outcome(CREATE_VARIABLES, n.db, n.createQ, initLen, max, false)
            && p.updates == Packing.Outcome(UPDATES, n.db, n.updateQ, p.size1, max, false)
            && p.createReqs == Packing.Outcome(REQUEST_VAR_CREATES, n.db, n.reqCreateQ, p.size3, max, false)
            && p.updateReqs == Packing.Outcome(REQUEST_VAR_UPDATES, n.db, n.reqUpdateQ, p.size4, max, p.createReqs.stop)
            && ListsOf(n, p) == Packet.Lists(p.creates.sent, p.updates.sent, Rounds.SummariesOf(n.db, p.ids),
                                             p.createReqs.sent, p.updateReqs.sent)
            && p.size1 == initLen + HEADER_LEN + TotalLen(p.creates.sent)
            && p.size2 == p.size1 + HEADER_LEN + TotalLen(p.updates.sent)
            && p.size3 == p.size2 + HEADER_LEN + TotalLen(Rounds.SummariesOf(n.db, p.ids))
            && p.size4 == p.size3 + HEADER_LEN + TotalLen(p.createReqs.sent)
  {
    hide TotalLen, Packing.Outcome, Rounds.Taken, Rounds.LiveIds;
  }

  // The two sections of records, the second behind some size
  lemma RecordSections<D>(n: Node<D>, initLen: int) returns (size: int)
    ensures var (m, l) := Build(n, initLen);
            var creates := Packing.Outcome(CREATE_VARIABLES, n.db, n.createQ, initLen, n.cfg.maxPacketSize, false);
            var updates := Packing.Outcome(UPDATES, n.db, n.updateQ, size, n.cfg.maxPacketSize, false);
            && l.creates == creates.sent && m.createQ == creates.queue
            && l.updates == updates.sent && m.updateQ == updates.queue
            && m.db == n.db
  {
    PlanIs(n, initLen);
    hide PlanOf, Packing.Outcome;
    size := PlanOf(n, initLen).size1;
  }

  lemma PlanFits<D>(n: Node<D>, initLen: int)
    ensures var l := ListsOf(n, PlanOf(n, initLen));
            && AllFit(l, initLen, n.cfg.maxPacketSize)
            && (l.summaries == [] || |l.summaries| <= n.cfg.maxNumSummaries)
  {
    var p, max := PlanOf(n, initLen), n.cfg.maxPacketSize;
    SummariesFit(n, p, initLen);
    PlanIs(n, initLen);
    hide *;
    SectionFits(CREATE_VARIABLES, n.db, n.createQ, initLen, max, false);
    SectionFits(UPDATES, n.db, n.updateQ, p.size1, max, false);
    SectionFits(REQUEST_VAR_CREATES, n.db, n.reqCreateQ, p.size3, max, false);
    SectionFits(REQUEST_VAR_UPDATES, n.db, n.reqUpdateQ, p.size4, max, p.createReqs.stop);
    AllFitBySizes(ListsOf(n, p), p, Rounds.SummariesOf(n.db, p.ids), initLen, max);
  }

  lemma AllFitBySizes<D>(l: Packet.Lists<D>, p: Plan<D>, summaries: seq<IE<D>>, initLen: int, max: int)
    requires l == Packet.Lists(p.creates.sent, p.updates.sent, summaries, p.createReqs.sent, p.updateReqs.sent)
    requires p.size1 == initLen + HEADER_LEN + TotalLen(p.creates.sent)
    requires p.size2 == p.size1 + HEADER_LEN + TotalLen(p.updates.sent)
    requires p.size3 == p.size2 + HEADER_LEN + TotalLen(summaries)
    requires p.size4 == p.size3 + HEADER_LEN + TotalLen(p.createReqs.sent)
    requires FitsBehind(l.creates, initLen, max) && FitsBehind(l.updates, p.size1, max)
    requires FitsBehind(l.summaries, p.size2, max) && FitsBehind(l.createReqs, p.size3, max)
    requires FitsBehind(l.updateReqs, p.size4, max)
    ensures AllFit(l, initLen, max)
  {
    hide TotalLen, FitsBehind;
  }

  lemma SectionsAddUp<D>(l: Packet.Lists<D>, initLen: int, max: int)
    requires AllFit(l, initLen, max)
    ensures var bytes := Packet.SectionLen(l.creates) + Packet.SectionLen(l.updates) + Packet.SectionLen(l.summaries)
                         + Packet.SectionLen(l.createReqs) + Packet.SectionLen(l.updateReqs);
            && (initLen <= max ==> bytes + initLen <= max)
            && (initLen > max ==> l == Packet.Lists([], [], [], [], []))
  {
    hide TotalLen;
  }

  lemma SummariesFit<D>(n: Node<D>, p: Plan<D>, initLen: int)
    requires p == PlanOf(n, initLen)
    ensures var list := Rounds.SummariesOf(n.db, p.ids);
            && (list == [] || |list| <= n.cfg.maxNumSummaries)
            && FitsBehind(list, p.size2, n.cfg.maxPacketSize)
  {
    hide TotalLen, Packing.Outcome, Rounds.Taken, Rounds.LiveIds;
    if p.updates.stop {
      assert n.summaryQ[..p.rotated] == [];
    } else {
      Rounds.TakenFits(n.db, n.summaryQ, n.cfg.maxNumSummaries, n.cfg.maxPacketSize - p.size2 - HEADER_LEN);
    }
    Rounds.SummariesLen(Rounds.SummariesOf(n.db, p.ids));
  }

  // The sections of a beacon are short enough for the 16-bit lengths in their headers, so a beacon is read
  // back as what was put into it
  lemma BuiltIsReadBack<D>(n: Node<D>, initLen: nat)
    requires NodeOk(n) && n.cfg.maxPacketSize < Packet.LEN_MODULUS
    ensures var l := Build(n, initLen).1;
            Packet.Parse(Packet.Write(l)) ==
            if l == Packet.Lists([], [], [], [], []) then Err(Packet.EmptyPacket) else Ok(l)
  {
    var l := Build(n, initLen).1;
    BuiltFrom(n, initLen);
    BuildFits(n, initLen);
    hide Build;
    FitsWhenShort(l);
    if l == Packet.Lists([], [], [], [], []) {
      assert Packet.Fits(l);
    }
    Packet.ParseUndoesWrite(l);
  }

  lemma EmptyLen<D>(list: seq<IE<D>>)
    ensures list == [] <==> TotalLen(list) == 0
  {
  }

  lemma FitsWhenShort<D>(l: Packet.Lists<D>)
    requires Packet.ByteLen(Packet.Write(l)) < Packet.LEN_MODULUS || l == Packet.Lists([], [], [], [], [])
    ensures Packet.Fits(l)
  {
    Packet.ByteLenWrite(l);
    hide TotalLen, Packet.ByteLen, Packet.Write;
    EmptyLen(l.creates);
    EmptyLen(l.updates);
    EmptyLen(l.summaries);
    EmptyLen(l.createReqs);
    EmptyLen(l.updateReqs);
    var s := l.InOrder();
    assert s[0] == l.creates && s[1] == l.updates && s[2] == l.summaries;
    assert s[3] == l.createReqs && s[4] == l.updateReqs;
  }

  // A beacon names a variable at most once among its creates, once among its updates, once among its summaries
  lemma BeaconNamesOnce<D>(n: Node<D>, initLen: int, id: nat)
    requires NodeOk(n)
    ensures var l := Build(n, initLen).1;
            && Packing.Named(l.creates, id) <= 1
            && Packing.Named(l.updates, id) <= 1
            && Packing.Named(l.summaries, id) <= 1
  {
    hide Build, Packing.Outcome, Packing.Named, RequestsOk, SummariesOk;
    var max := n.cfg.maxPacketSize;
    var size := RecordSections(n, initLen);
    Packing.SentOnce(CREATE_VARIABLES, n.db, n.createQ, initLen, max, false, id);
    Packing.SentOnce(UPDATES, n.db, n.updateQ, size, max, false, id);
    AnnouncedOnce(n, initLen, id);
  }

  lemma AnnouncedOnce<D>(n: Node<D>, initLen: int, id: nat)
    requires SummariesOk(n)
    ensures Packing.Named(Build(n, initLen).1.summaries, id) <= 1
  {
    hide Packing.Outcome, TotalLen, Packing.Named, Rounds.Taken, Rounds.LiveIds;
    var p := PlanOf(n, initLen);
    Rounds.LiveIdsDistinct(n.db, n.summaryQ[..p.rotated]);
    SummariesNamedOnce(Rounds.SummariesOf(n.db, p.ids), id);
  }

  lemma {:induction false} SummariesNamedOnce<D>(list: seq<IE<D>>, id: nat)
    requires forall i, j :: 0 <= i < j < |list| ==> list[i].Id() != list[j].Id()
    ensures Packing.Named(list, id) <= 1
    ensures (forall i :: 0 <= i < |list| ==> list[i].Id() != id) ==> Packing.Named(list, id) == 0
  {
    if list != [] {
      SummariesNamedOnce(list[1..], id);
      assert forall i :: 1 <= i < |list| ==> list[i] == list[1..][i - 1];
    }
  }
}
