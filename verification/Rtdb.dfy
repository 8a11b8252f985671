/**
 The real-time database module of one node: its variables are objects that are updated in place, its queues
 are rotated and filtered by loops. Every operation is proved to do what the functions of RtdbNode say.
 */
module Rtdb {
  import opened Wrappers
  import opened RtdbTypes
  import opened RtdbSerial
  import opened RtdbNode
  import Packing = RtdbPacking
  import Packet = RtdbPacket
  import Rounds = RtdbSummaries

  class RTDBVariable<D> {
    const id: nat
    const producer: nat
    const repCnt: nat
    const descr: string
    var len: nat
    var data: D
    var seqNo: SeqNoT
    var toBeDeleted: bool

    function Value(): Variable<D>
      reads this
    {
      Variable(id, producer, repCnt, descr, len, data, seqNo, toBeDeleted)
    }

    constructor (producer: nat, id: nat, repCnt: nat, descr: string, len: nat, data: D, seqNo: SeqNoT)
      ensures Value() == Variable(id, producer, repCnt, descr, len, data, seqNo, false)
    {
      this.id, this.producer, this.repCnt, this.descr := id, producer, repCnt, descr;
      this.len, this.data, this.seqNo, this.toBeDeleted := len, data, seqNo, false;
    }

    // A new value from the producer: the sequence number advances and skips zero
    method Update(data: D, len: nat)
      modifies this
      ensures Value() == old(Value()).(len := len, data := data, seqNo := NextSeqNo(old(seqNo)))
    {
      this.data := data;
      this.len := len;
      seqNo := (seqNo + 1) % 256;
      if seqNo == 0 {
        seqNo := (seqNo + 1) % 256;
      }
    }

    // A value received from elsewhere, with its sequence number
    method UpdateTo(data: D, len: nat, seqNo: SeqNoT)
      modifies this
      ensures Value() == old(Value()).(len := len, data := data, seqNo := seqNo)
    {
      this.data := data;
      this.len := len;
      this.seqNo := seqNo;
    }
  }

  datatype BeaconError = BeaconTooLarge | TooManySummaries

  // The *QRemoveID loops: everything is moved to a temporary queue, except the elements of one variable, and
  // then moved back
  method QueueRemoveId<D>(q: seq<Queued<D>>, id: nat) returns (r: seq<Queued<D>>)
    ensures r == RemoveId(q, id)
  {
    var temp := [];
    var rest := q;
    while rest != []
      invariant temp + RemoveId(rest, id) == RemoveId(q, id)
    {
      var u := rest[0];
      rest := rest[1..];
      if u.ie.Id() != id {
        temp := temp + [u];
      }
    }
    r := [];
    ghost var all := temp;
    while temp != []
      invariant r + temp == all
    {
      r := r + [temp[0]];
      temp := temp[1..];
    }
  }

  // Appends a header and the elements, one by one, unless there are none
  method AppendSection<D>(pkt: seq<Packet.Chunk<D>>, kind: IEType, list: seq<IE<D>>, typeLen: int)
    returns (pkt': seq<Packet.Chunk<D>>)
    requires typeLen == HEADER_LEN + TotalLen(list)
    ensures pkt' == pkt + Packet.Section(kind, list)
  {
    pkt' := pkt;
    if list != [] {
      pkt' := pkt' + [Packet.Header(kind, (typeLen - HEADER_LEN) % Packet.LEN_MODULUS)];
      var rest := list;
      while rest != []
        invariant pkt' + Packet.Elements(rest) == pkt + Packet.Section(kind, list)
      {
        pkt' := pkt' + [Packet.Element(rest[0])];
        rest := rest[1..];
      }
    }
  }

  class RTDB<D> {
    const ourId: nat
    const cfg: Config
    var varDB: map<nat, RTDBVariable<D>>
    var createQ: seq<Queued<D>>
    var summaryQ: seq<nat>
    var updateQ: seq<Queued<D>>
    var reqUpdateQ: seq<Queued<D>>
    var reqCreateQ: seq<Queued<D>>
    // the indications sent to the application so far
    var told: seq<Indication<D>>

    // the values of the variable objects
    ghost var db: map<nat, Variable<D>>

    // Different variables are different objects, and db tells their values
    ghost predicate Linked()
      reads `varDB, `db, varDB.Values
    {
      && (forall i, j :: i in varDB && j in varDB && i != j ==> varDB[i] != varDB[j])
      && db.Keys == varDB.Keys
      && (forall id :: id in varDB ==> varDB[id].Value() == db[id])
    }

    function DB(): (m: map<nat, Variable<D>>)
      reads `varDB, `db, varDB.Values
      ensures Linked() ==> m == db
    {
      map id | id in varDB :: varDB[id].Value()
    }

    ghost function State(): Node<D>
      reads this
    {
      Node(ourId, cfg, db, createQ, updateQ, summaryQ, reqUpdateQ, reqCreateQ, told)
    }

    ghost predicate Valid()
      reads this, varDB.Values
    {
      Linked() && NodeOk(State())
    }

    constructor (ourId: nat, cfg: Config)
      ensures Valid() && State() == Fresh(ourId, cfg)
    {
      this.ourId, this.cfg := ourId, cfg;
      varDB, db := map[], map[];
      createQ, summaryQ, updateQ, reqUpdateQ, reqCreateQ, told := [], [], [], [], [], [];
    }

    lemma At(id: nat)
      requires Linked()
      ensures id in varDB <==> id in db
      ensures id in varDB ==> varDB[id].Value() == db[id]
    {
    }

    // Puts a new variable object into the database
    method AddVariable(v: RTDBVariable<D>)
      requires Linked() && v.id !in varDB && v !in varDB.Values
      modifies `varDB, `db
      ensures Linked()
      ensures varDB == old(varDB)[v.id := v] && db == old(db)[v.id := v.Value()]
    {
      db := db[v.id := v.Value()];
      varDB := varDB[v.id := v];
      assert forall i :: i in varDB && i != v.id ==> varDB[i] in old(varDB).Values;
    }

    // A new variable object in the database
    method NewVariable(producer: nat, id: nat, repCnt: nat, descr: string, len: nat, data: D, seqNo: SeqNoT)
      requires Linked() && id !in varDB
      modifies `varDB, `db
      ensures Linked() && fresh(varDB.Values - old(varDB.Values))
      ensures db == old(db)[id := Variable(id, producer, repCnt, descr, len, data, seqNo, false)]
    {
      var v := new RTDBVariable<D>(producer, id, repCnt, descr, len, data, seqNo);
      AddVariable(v);
      assert varDB.Values <= old(varDB.Values) + {v};
    }

    // Stores a new value in the object of a variable, with the next or with a given sequence number
    method ChangeVariable(id: nat, data: D, len: nat, seqNo: Option<SeqNoT>)
      requires Linked() && id in varDB
      modifies `db, varDB.Values
      ensures Linked()
      ensures var v := old(db[id]);
              db == old(db)[id := v.(len := len, data := data,
                                     seqNo := if seqNo.Some? then seqNo.value else NextSeqNo(v.seqNo))]
    {
      match seqNo {
        case None => varDB[id].Update(data, len);
        case Some(s) => varDB[id].UpdateTo(data, len, s);
      }
      db := db[id := varDB[id].Value()];
    }

    method HandleApiCreateReq(id: nat, descr: string, varLen: nat, data: D, repCnt: nat) returns (rc: ResponseCode)
      requires Valid()
      modifies `varDB, `db, `createQ, `summaryQ
      ensures Valid() && fresh(varDB.Values - old(varDB.Values))
      ensures (State(), rc) == ApiCreate(old(State()), id, descr, varLen, data, repCnt)
    {
      hide Linked, NodeOk;
      ApiCreateOk(State(), id, descr, varLen, data, repCnt);
      At(id);
      var descrLen := |descr| % 0x1_0000;
      if id in varDB {
        rc := RC_VARIABLE_EXISTS;
      } else if descrLen > cfg.maxDescriptionLen {
        rc := RC_VARIABLE_DESCRIPTION_TOO_LONG;
      } else if varLen > cfg.maxVariableLen {
        rc := RC_VALUE_TOO_LONG;
      } else if repCnt > cfg.maxRepetitions {
        rc := RC_WRONG_REPETITION_NUMBER;
      } else {
        NewVariable(ourId, id, repCnt, descr[..descrLen], varLen, data, 1);
        var spec := VarSpec(id, ourId, descr[..descrLen], repCnt);
        var update := VarUpdate(id, 1, varLen, data);
        createQ := createQ + [Queued(Create(spec, update), repCnt)];
        summaryQ := summaryQ + [id];
        rc := RC_OK;
      }
    }

    // Puts the current value of a variable at the end of the queue of updates, replacing any older one
    method Requeue(id: nat)
      requires Linked() && id in varDB
      modifies `updateQ
      ensures Linked()
      ensures updateQ == RemoveId(old(updateQ), id) + [Queued(Update(UpdateOf(db[id]).(id := id)), db[id].repCnt)]
    {
      var v := varDB[id];
      updateQ := QueueRemoveId(updateQ, id);
      updateQ := updateQ + [Queued(Update(VarUpdate(id, v.seqNo, v.len, v.data)), v.repCnt)];
    }

    method HandleApiUpdateReq(id: nat, varLen: nat, data: D) returns (rc: ResponseCode)
      requires Valid()
      modifies `updateQ, `db, varDB.Values
      ensures Valid()
      ensures (State(), rc) == ApiUpdate(old(State()), id, varLen, data)
    {
      hide Linked, NodeOk, RemoveId;
      ApiUpdateOk(State(), id, varLen, data);
      At(id);
      if id !in varDB {
        rc := RC_VARIABLE_DOES_NOT_EXIST;
      } else if varDB[id].producer != ourId {
        rc := RC_VARIABLE_IS_NOT_PRODUCER;
      } else if varDB[id].toBeDeleted {
        rc := RC_VARIABLE_BEING_DELETED;
      } else if varLen > cfg.maxVariableLen {
        rc := RC_VALUE_TOO_LONG;
      } else {
        ChangeVariable(id, data, varLen, None);
        Requeue(id);
        rc := RC_OK;
      }
    }

    lemma SummariesReady()
      requires Valid()
      ensures Rounds.Distinct(summaryQ)
      ensures forall room: int, stop: bool :: !Rounds.Starves(db, summaryQ, cfg.maxNumSummaries, room, stop)
    {
      if summaryQ != [] {
        assert summaryQ[0] in summaryQ && !DropNonExistent(db, summaryQ[0]);
      }
    }

    // Fills the five sections in their order, each behind the bytes used so far
    method FillAll(initLen: nat)
      returns (l: Packet.Lists<D>, createLen: int, updateLen: int, summaryLen: int, createReqLen: int, updateReqLen: int)
      requires Valid()
      modifies `createQ, `updateQ, `summaryQ, `reqCreateQ, `reqUpdateQ
      ensures (State(), l) == Build(old(State()), initLen)
      ensures createLen == HEADER_LEN + TotalLen(l.creates) && updateLen == HEADER_LEN + TotalLen(l.updates)
      ensures summaryLen == HEADER_LEN + TotalLen(l.summaries)
      ensures createReqLen == HEADER_LEN + TotalLen(l.createReqs) && updateReqLen == HEADER_LEN + TotalLen(l.updateReqs)
    {
      hide Linked, NodeOk, TotalLen, Packing.Outcome, Rounds.Taken, Rounds.LiveIds, Rounds.Starves,
           PlanOf;
      var db := DB();
      SummariesReady();
      ghost var n := State();
      var max := cfg.maxPacketSize;
      var stop, creates, updates, summaries, num, fault, createReqs, updateReqs;
      creates, createQ, createLen, stop := Packing.FillSection(CREATE_VARIABLES, db, createQ, initLen, max, false);
      ghost var cut := stop;
      var size := initLen + createLen;
      updates, updateQ, updateLen, stop := Packing.FillSection(UPDATES, db, updateQ, size, max, false);
      ghost var skipped := stop;
      size := size + updateLen;
      // stop is not cleared here
      summaries, summaryQ, summaryLen, num, fault :=
        Rounds.FillSummaries(db, summaryQ, size, cfg.maxNumSummaries, max, stop);
      // the front of an empty queue is never read
      assert !fault;
      size := size + summaryLen;
      createReqs, reqCreateQ, createReqLen, stop :=
        Packing.FillSection(REQUEST_VAR_CREATES, db, reqCreateQ, size, max, false);
      ghost var reqsCut := stop;
      size := size + createReqLen;
      // nor here
      updateReqs, reqUpdateQ, updateReqLen, stop :=
        Packing.FillSection(REQUEST_VAR_UPDATES, db, reqUpdateQ, size, max, stop);
      l := Packet.Lists(creates, updates, summaries, createReqs, updateReqs);
      ghost var size1, size2 := initLen + createLen, initLen + createLen + updateLen;
      ghost var k := if skipped then 0 else Rounds.Taken(db, n.summaryQ, cfg.maxNumSummaries, max - size2 - HEADER_LEN);
      PlannedBySections(n, initLen, Plan(
        Packing.Filled(creates, createQ, cut), Packing.Filled(updates, updateQ, skipped), k,
        Rounds.LiveIds(db, n.summaryQ[..k]), Packing.Filled(createReqs, reqCreateQ, reqsCut),
        Packing.Filled(updateReqs, reqUpdateQ, stop), size1, size2, size2 + summaryLen, size));
    }

    // Builds a beacon behind initLen bytes that are already used. With a packet size of 64 KiB or more the
    // 16-bit section lengths of the program could wrap
    method ConstructBeacon(initLen: nat) returns (r: Result<seq<Packet.Chunk<D>>, BeaconError>)
      requires Valid() && cfg.maxPacketSize < Packet.LEN_MODULUS
      modifies `createQ, `updateQ, `summaryQ, `reqCreateQ, `reqUpdateQ
      ensures Valid()
      ensures State() == Build(old(State()), initLen).0
      ensures r == if initLen > cfg.maxPacketSize then Err(BeaconTooLarge)
                   else if cfg.maxNumSummaries < 0 then Err(TooManySummaries)
                   else Ok(Packet.Write(Build(old(State()), initLen).1))
    {
      hide Linked, NodeOk, Build, TotalLen, Packet.Section, Packet.ByteLen;
      ghost var n := State();
      BuildOk(n, initLen);
      BuildFits(n, initLen);
      var l, createLen, updateLen, summaryLen, createReqLen, updateReqLen := FillAll(initLen);
      WriteIs(l);
      var pkt := [];
      pkt := AppendSection(pkt, CREATE_VARIABLES, l.creates, createLen);
      pkt := AppendSection(pkt, UPDATES, l.updates, updateLen);
      pkt := AppendSection(pkt, SUMMARIES, l.summaries, summaryLen);
      pkt := AppendSection(pkt, REQUEST_VAR_CREATES, l.createReqs, createReqLen);
      pkt := AppendSection(pkt, REQUEST_VAR_UPDATES, l.updateReqs, updateReqLen);
      if Packet.ByteLen(pkt) + initLen > cfg.maxPacketSize {
        return Err(BeaconTooLarge);
      }
      if |l.summaries| > cfg.maxNumSummaries {
        return Err(TooManySummaries);
      }
      r := Ok(pkt);
    }

    lemma WriteIs(l: Packet.Lists<D>)
      ensures Packet.Write(l) ==
              [] + Packet.Section(CREATE_VARIABLES, l.creates) + Packet.Section(UPDATES, l.updates)
              + Packet.Section(SUMMARIES, l.summaries) + Packet.Section(REQUEST_VAR_CREATES, l.createReqs)
              + Packet.Section(REQUEST_VAR_UPDATES, l.updateReqs)
      ensures l == Packet.Lists([], [], [], [], []) ==> Packet.ByteLen(Packet.Write(l)) == 0
    {
      Packet.ByteLenWrite(l);
      Packet.SectionsOfFive(l);
    }

    // ---------- Receiving ----------

    method HandleCreate(ie: IE<D>)
      requires Valid() && ie.Create?
      modifies `varDB, `db, `told, `createQ, `reqCreateQ, `summaryQ
      ensures Valid() && fresh(varDB.Values - old(varDB.Values))
      ensures State() == ReceiveCreate(old(State()), ie)
    {
      hide Linked, NodeOk, RemoveId;
      ReceiveOk(State(), ie);
      var id := ie.spec.id;
      At(id);
      if id !in varDB {
        var upd := ie.update;
        NewVariable(ie.spec.producer, id, ie.spec.repCnt, ie.spec.descr, upd.len, upd.data, upd.seqNo);
        told := told + [Indication(id, upd.len, upd.data)];
        var s := VarSpec(id, ie.spec.producer, ie.spec.descr, ie.spec.repCnt);
        var u := VarUpdate(id, upd.seqNo, upd.len, upd.data);
        createQ := createQ + [Queued(Create(s, u), ie.spec.repCnt)];
        reqCreateQ := QueueRemoveId(reqCreateQ, id);
        summaryQ := summaryQ + [id];
      }
    }

    method HandleUpdate(ie: IE<D>)
      requires Valid() && ie.Update?
      modifies `db, `told, `updateQ, `reqUpdateQ, `reqCreateQ, varDB.Values
      ensures Valid()
      ensures State() == ReceiveUpdate(old(State()), ie)
    {
      hide Linked, NodeOk, RemoveId, SeqNoMoreRecent;
      ReceiveOk(State(), ie);
      var id := ie.upd.id;
      At(id);
      if id in varDB {
        var v := varDB[id];
        if !v.toBeDeleted && v.producer != ourId {
          var seqNo := ie.upd.seqNo;
          if SeqNoMoreRecent(v.seqNo, seqNo) {
            ChangeVariable(id, ie.upd.data, ie.upd.len, Some(seqNo));
            told := told + [Indication(id, ie.upd.len, ie.upd.data)];
            updateQ := QueueRemoveId(updateQ, id);
            reqUpdateQ := QueueRemoveId(reqUpdateQ, id);
            updateQ := updateQ + [Queued(ie, v.repCnt)];
          }
        }
      } else {
        reqCreateQ := reqCreateQ + [Queued(ReqCreate(id), 1)];
      }
      assert Linked();
      assert State() == Receive(old(State()), ie);
    }

    method HandleSummary(ie: IE<D>)
      requires Valid() && ie.Summary?
      modifies `updateQ, `reqUpdateQ, `reqCreateQ
      ensures Valid()
      ensures State() == ReceiveSummary(old(State()), ie)
    {
      hide Linked, NodeOk, RemoveId;
      ReceiveOk(State(), ie);
      var id := ie.sumId;
      At(id);
      if id in varDB {
        var v := varDB[id];
        if !v.toBeDeleted && v.producer != ourId {
          var seqNo := ie.sumSeqNo;
          if seqNo != v.seqNo {
            if SeqNoMoreRecent(v.seqNo, seqNo) {
              reqUpdateQ := reqUpdateQ + [Queued(ReqUpdate(id, v.seqNo), v.repCnt)];
            } else {
              Requeue(id);
            }
          }
        }
      } else {
        reqCreateQ := reqCreateQ + [Queued(ReqCreate(id), 1)];
      }
    }

    method HandleCreateRequest(ie: IE<D>)
      requires Valid() && ie.ReqCreate?
      modifies `createQ
      ensures Valid()
      ensures State() == ReceiveReqCreate(old(State()), ie)
    {
      hide Linked, NodeOk, RemoveId;
      ReceiveOk(State(), ie);
      var id := ie.reqCreateId;
      At(id);
      if id in varDB {
        var v := varDB[id];
        if !v.toBeDeleted {
          createQ := QueueRemoveId(createQ, id);
          var s := VarSpec(id, v.producer, v.descr, v.repCnt);
          var u := VarUpdate(id, v.seqNo, v.len, v.data);
          createQ := createQ + [Queued(Create(s, u), v.repCnt)];
        }
      }
    }

    method HandleUpdateRequest(ie: IE<D>)
      requires Valid() && ie.ReqUpdate?
      modifies `updateQ
      ensures Valid()
      ensures State() == ReceiveReqUpdate(old(State()), ie)
    {
      hide Linked, NodeOk, RemoveId;
      ReceiveOk(State(), ie);
      var id := ie.reqUpdateId;
      At(id);
      if id in varDB {
        if !varDB[id].toBeDeleted {
          Requeue(id);
        }
      }
    }

    method HandleElement(ie: IE<D>)
      requires Valid()
      modifies this, varDB.Values
      ensures Valid() && fresh(varDB.Values - old(varDB.Values))
      ensures State() == Receive(old(State()), ie)
    {
      hide Linked, NodeOk, ReceiveCreate, ReceiveUpdate, ReceiveSummary, ReceiveReqCreate, ReceiveReqUpdate;
      match ie {
        case Create(_, _) => HandleCreate(ie);
        case Update(_) => HandleUpdate(ie);
        case Summary(_, _) => HandleSummary(ie);
        case ReqCreate(_) => HandleCreateRequest(ie);
        case ReqUpdate(_, _) => HandleUpdateRequest(ie);
      }
    }

    // One of the five loops over the elements of a beacon
    method HandleList(list: seq<IE<D>>)
      requires Valid()
      modifies this, varDB.Values
      ensures Valid() && fresh(varDB.Values - old(varDB.Values))
      ensures State() == ReceiveAll(old(State()), list)
    {
      hide Linked, NodeOk, Receive;
      ghost var n := State();
      for i := 0 to |list|
        invariant Valid() && fresh(varDB.Values - old(varDB.Values))
        invariant State() == ReceiveAll(n, list[..i])
      {
        HandleElement(list[i]);
        assert list[..i + 1][..i] == list[..i] && list[..i + 1][i] == list[i];
      }
      assert list[..|list|] == list;
    }

    // Takes a received packet apart and processes its elements, creates first; a malformed packet changes nothing
    method ProcessVarDisBeacon(pkt: seq<Packet.Chunk<D>>) returns (r: Result<(), Packet.ParseError>)
      requires Valid()
      modifies this, varDB.Values
      ensures Valid() && fresh(varDB.Values - old(varDB.Values))
      ensures match Packet.Parse(pkt)
              case Err(e) => r == Err(e) && State() == old(State())
              case Ok(l) => r == Ok(()) && State() == Process(old(State()), l)
    {
      hide Linked, NodeOk, ReceiveAll, Packet.Parse;
      var parsed := Packet.ParseLoop(pkt);
      match parsed {
        case Err(e) => r := Err(e);
        case Ok(l) =>
          HandleList(l.creates);
          HandleList(l.updates);
          HandleList(l.summaries);
          HandleList(l.createReqs);
          HandleList(l.updateReqs);
          r := Ok(());
      }
    }
  }
}
