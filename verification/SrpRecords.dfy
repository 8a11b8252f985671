/**
 What the neighbour store of the state-reporting protocol holds, as a map from neighbours to their latest
 records, and what its operations do to the map.
 */
module SrpRecords {
  import opened Sets
  import opened Wrappers

  const SEQNO_MODULUS := 0x1_0000_0000

  type Uint32 = n: int | 0 <= n < SEQNO_MODULUS

  // An extended safety data record: sender, sequence number and the safety data, which nothing here looks at
  datatype Esd<S> = Esd(nodeId: int, seqno: Uint32, safetyData: S)

  // The latest record of a neighbour with the time of its reception in nanoseconds
  datatype Record<S> = Record(esd: Esd<S>, received: int, seqnoReceived: bool, avgGap: real)

  type Store<S> = map<int, Record<S>>

  // Parameters of a store
  datatype Params = Params(maxNeighbours: nat, ownId: int, alpha: real)

  // ---------- Operations ----------

  // The difference of sequence numbers is taken modulo 2^32
  function Gap(new_: Uint32, last: Uint32): Uint32 {
    (new_ - last) % SEQNO_MODULUS
  }

  function NextGap(alpha: real, received: bool, avg: real, last: Uint32, new_: Uint32): real {
    if received then (1.0 - alpha) * (Gap(new_, last) as real) + alpha * avg else 1.0
  }

  function First<S>(esd: Esd<S>, now: int): Record<S> {
    Record(esd, now, false, 0.0)
  }

  function Updated<S>(alpha: real, r: Record<S>, esd: Esd<S>, now: int): Record<S> {
    Record(esd, now, true, NextGap(alpha, r.seqnoReceived, r.avgGap, r.esd.seqno, esd.seqno))
  }

  // The flag tells that the free list was found empty, which is an exception
  function Insert<S>(c: Params, m: Store<S>, esd: Esd<S>, now: int): (Store<S>, bool) {
    var id := esd.nodeId;
    if id == c.ownId then (m, false)
    else if id in m then (m[id := Updated(c.alpha, m[id], esd, now)], false)
    else if |m| >= c.maxNeighbours then (m, true)
    else (m[id := First(esd, now)], false)
  }

  function Remove<S>(m: Store<S>, id: int): Store<S> {
    m - {id}
  }

  // Milliseconds since an earlier time, as a 32-bit number
  function Age(now: int, past: int): Uint32 {
    if now < past then 0 else (now - past) / 1_000_000 % SEQNO_MODULUS
  }

  function Scrub<S>(m: Store<S>, now: int, timeout: nat): Store<S> {
    map id | id in m && Age(now, m[id].received) < timeout :: m[id]
  }

  // The age is the true one for 2^32 milliseconds and never negative; after them a silent neighbour looks young
  lemma AgeIsTrue(now: int, past: int)
    ensures now < past ==> Age(now, past) == 0
    ensures 0 <= now - past < 1_000_000 * SEQNO_MODULUS ==>
              Age(now, past) * 1_000_000 <= now - past < (Age(now, past) + 1) * 1_000_000
    ensures now - past == 1_000_000 * SEQNO_MODULUS ==> Age(now, past) == 0
  {
  }

  // ---------- Runs ----------

  datatype Op<S> =
    | OpInsert(esd: Esd<S>, now: int)
    | OpRemove(id: int)
    | OpScrub(time: int, timeout: nat)

  function Step<S>(c: Params, m: Store<S>, op: Op<S>): Store<S> {
    match op
    case OpInsert(esd, now) => Insert(c, m, esd, now).0
    case OpRemove(id) => Remove(m, id)
    case OpScrub(time, timeout) => Scrub(m, time, timeout)
  }

  function Run<S>(c: Params, ops: seq<Op<S>>): Store<S> {
    if ops == [] then map[] else Step(c, Run(c, ops[..|ops| - 1]), ops[|ops| - 1])
  }

  // The last record of id given to the store, whatever the store made of it
  function LastGiven<S>(ops: seq<Op<S>>, id: int): Option<(Esd<S>, int)> {
    if ops == [] then None
    else
      var op := ops[|ops| - 1];
      if op.OpInsert? && op.esd.nodeId == id then Some((op.esd, op.now)) else LastGiven(ops[..|ops| - 1], id)
  }

  lemma ScrubIsSmaller<S>(m: Store<S>, now: int, timeout: nat)
    ensures |Scrub(m, now, timeout)| <= |m| && Scrub(m, now, timeout).Keys <= m.Keys
  {
    SubsetIsSmaller(Scrub(m, now, timeout).Keys, m.Keys);
  }

  lemma RunStep<S>(c: Params, ops: seq<Op<S>>)
    requires ops != []
    ensures Run(c, ops) == Step(c, Run(c, ops[..|ops| - 1]), ops[|ops| - 1])
  {
  }

  lemma EmptyRun<S>(c: Params)
    ensures Run<S>(c, []) == map[]
  {
  }

  // The store never holds the node itself, nor more neighbours than it has room for
  lemma {:induction false} StaysWithinBounds<S>(c: Params, ops: seq<Op<S>>)
    ensures c.ownId !in Run(c, ops) && |Run(c, ops)| <= c.maxNeighbours
  {
    hide Run;
    if ops == [] {
      EmptyRun<S>(c);
    } else {
      RunStep(c, ops);
      StaysWithinBounds(c, ops[..|ops| - 1]);
      StepWithinBounds(c, Run(c, ops[..|ops| - 1]), ops[|ops| - 1]);
    }
  }

  lemma StepWithinBounds<S>(c: Params, m: Store<S>, op: Op<S>)
    requires c.ownId !in m && |m| <= c.maxNeighbours
    ensures c.ownId !in Step(c, m, op) && |Step(c, m, op)| <= c.maxNeighbours
  {
    hide Updated, First, Scrub;
    match op {
      case OpInsert(_, _) =>
      case OpRemove(id) => SubsetIsSmaller((m - {id}).Keys, m.Keys);
      case OpScrub(time, timeout) => ScrubIsSmaller(m, time, timeout);
    }
  }

  // After any sequence of operations: what the store holds for a neighbour is the last record given for it, with
  // its time
  lemma {:induction false} HoldsLatest<S>(c: Params, ops: seq<Op<S>>, id: int)
    requires id in Run(c, ops)
    ensures LastGiven(ops, id) == Some((Run(c, ops)[id].esd, Run(c, ops)[id].received)) && Run(c, ops)[id].esd.nodeId == id
  {
    hide Run;
    if ops == [] {
      EmptyRun<S>(c);
    } else {
      RunStep(c, ops);
      StaysWithinBounds(c, ops[..|ops| - 1]);
      if id in Run(c, ops[..|ops| - 1]) {
        HoldsLatest(c, ops[..|ops| - 1], id);
      }
    }
  }

  // What one record does to a store within its bounds: it is held, with its time, unless it is the node's own or its
  // neighbour is new and the store full, which alone is an exception; nobody else's record changes
  lemma InsertExactly<S>(c: Params, m: Store<S>, esd: Esd<S>, now: int)
    requires c.ownId !in m && |m| <= c.maxNeighbours
    ensures var (m', raised) := Insert(c, m, esd, now);
            var id := esd.nodeId;
            && (raised <==> id != c.ownId && id !in m && |m| == c.maxNeighbours)
            && (id != c.ownId && (id in m || |m| < c.maxNeighbours) ==>
                  && m'.Keys == m.Keys + {id} && m'[id].esd == esd && m'[id].received == now
                  && (m'[id].seqnoReceived <==> id in m)
                  && (forall k :: k in m && k != id ==> m'[k] == m[k]))
            && (id == c.ownId || (id !in m && |m| == c.maxNeighbours) ==> m' == m)
  {
  }

  ghost predicate IsRecordOf<S>(op: Op<S>, id: int) {
    op.OpInsert? && op.esd.nodeId == id
  }

  // Operation i gave the last record of id, the store let it in, and nothing afterwards took it out
  ghost predicate HeldFrom<S>(c: Params, ops: seq<Op<S>>, id: int, i: nat) {
    && i < |ops| && IsRecordOf(ops[i], id) && id != c.ownId
    && (id in Run(c, ops[..i]) || |Run(c, ops[..i])| < c.maxNeighbours)
    && (forall j :: i < j < |ops| ==> !IsRecordOf(ops[j], id) && ops[j] != OpRemove(id))
    && (forall j :: i < j < |ops| && ops[j].OpScrub? ==> Age(ops[j].time, ops[i].now) < ops[j].timeout)
  }

  // A neighbour is held because of the last record given for it, and says so: its record, its time, and whether the
  // neighbour was held already when it came
  lemma {:induction false} HeldBecause<S>(c: Params, ops: seq<Op<S>>, id: int) returns (i: nat)
    requires id in Run(c, ops)
    ensures HeldFrom(c, ops, id, i)
    ensures var r := Run(c, ops)[id];
            r.esd == ops[i].esd && r.received == ops[i].now && (r.seqnoReceived <==> id in Run(c, ops[..i]))
  {
    hide Run, Insert, Age;
    EmptyRun<S>(c);
    var rest, op := ops[..|ops| - 1], ops[|ops| - 1];
    RunStep(c, ops);
    StaysWithinBounds(c, rest);
    if op.OpInsert? {
      InsertExactly(c, Run(c, rest), op.esd, op.now);
    }
    if IsRecordOf(op, id) && (id in Run(c, rest) || |Run(c, rest)| < c.maxNeighbours) {
      i := |rest|;
      OwnIsNotHeld(c, ops, id);
    } else {
      i := HeldBecause(c, rest, id);
      assert ops[..i] == rest[..i];
      assert Run(c, ops)[id] == Run(c, rest)[id];
    }
  }

  lemma OwnIsNotHeld<S>(c: Params, ops: seq<Op<S>>, id: int)
    requires id in Run(c, ops)
    ensures id != c.ownId
  {
    StaysWithinBounds(c, ops);
  }

  // The other way round, it stays held for as long as nothing takes it out
  lemma {:induction false} HeldSince<S>(c: Params, ops: seq<Op<S>>, id: int, i: nat)
    requires HeldFrom(c, ops, id, i)
    ensures id in Run(c, ops)
  {
    hide Run, Insert, Age;
    var rest, op := ops[..|ops| - 1], ops[|ops| - 1];
    RunStep(c, ops);
    StaysWithinBounds(c, rest);
    if op.OpInsert? {
      InsertExactly(c, Run(c, rest), op.esd, op.now);
    }
    if i < |rest| {
      assert ops[..i] == rest[..i];
      HeldSince(c, rest, id, i);
      var j := HeldBecause(c, rest, id);
      assert j == i;
    }
  }

  // In every run a neighbour is held if and only if its last record was let in and no removal, and no scrub that found it
  // timed out, came after it
  lemma HeldExactly<S>(c: Params, ops: seq<Op<S>>, id: int)
    ensures id in Run(c, ops) <==> exists i :: HeldFrom(c, ops, id, i)
  {
    hide Run, HeldFrom;
    if id in Run(c, ops) {
      var i := HeldBecause(c, ops, id);
    }
    forall i | HeldFrom(c, ops, id, i) ensures id in Run(c, ops) {
      HeldSince(c, ops, id, i);
    }
  }

  // ---------- The gap estimate ----------

  // The gap is how often the sender has counted on, up to 2^32 - 1 times
  lemma GapCounts(last: Uint32, k: Uint32)
    ensures Gap((last + k) % SEQNO_MODULUS, last) == k
  {
    if last + k < SEQNO_MODULUS {
      assert (last + k) % SEQNO_MODULUS == last + k;
    } else {
      assert (last + k) % SEQNO_MODULUS == last + k - SEQNO_MODULUS;
      assert (k - SEQNO_MODULUS) % SEQNO_MODULUS == k;
    }
  }

  // A record moves the estimate towards its gap by the share 1 - alpha of the distance: the gap itself for alpha zero,
  // nowhere for alpha one
  lemma GapMovesEstimate(alpha: real, avg: real, last: Uint32, k: Uint32)
    ensures var next := NextGap(alpha, true, avg, last, (last + k) % SEQNO_MODULUS);
            && next - avg == (1.0 - alpha) * (k as real - avg)
            && (alpha == 0.0 ==> next == k as real) && (alpha == 1.0 ==> next == avg)
  {
    hide Gap;
    GapCounts(last, k);
    var g := k as real;
    assert (1.0 - alpha) * g + alpha * avg - avg == (1.0 - alpha) * (g - avg);
  }

  // In a run, k sequence numbers further on: the estimate of a neighbour of two or more records moves by its share, the
  // second record sets it to one
  lemma NextEstimate<S>(c: Params, ops: seq<Op<S>>, esd: Esd<S>, now: int, k: Uint32)
    requires esd.nodeId in Run(c, ops) && esd.seqno == (Run(c, ops)[esd.nodeId].esd.seqno + k) % SEQNO_MODULUS
    ensures var r, id := Run(c, ops)[esd.nodeId], esd.nodeId;
            var ops' := ops + [OpInsert(esd, now)];
            && id in Run(c, ops')
            && Run(c, ops')[id].avgGap == if r.seqnoReceived then r.avgGap + (1.0 - c.alpha) * (k as real - r.avgGap) else 1.0
  {
    hide Run, Gap;
    var ops' := ops + [OpInsert(esd, now)];
    assert ops'[..|ops|] == ops;
    RunStep(c, ops');
    OwnIsNotHeld(c, ops, esd.nodeId);
    var r := Run(c, ops)[esd.nodeId];
    GapMovesEstimate(c.alpha, r.avgGap, r.esd.seqno, k);
  }

  // The records of id in a run, in their order
  function GivenFor<S>(ops: seq<Op<S>>, id: int): seq<Esd<S>> {
    if ops == [] then []
    else
      var op := ops[|ops| - 1];
      GivenFor(ops[..|ops| - 1], id) + if op.OpInsert? && op.esd.nodeId == id then [op.esd] else []
  }

  predicate NoneMissing<S>(records: seq<Esd<S>>) {
    forall i :: 0 < i < |records| ==> records[i].seqno == (records[i - 1].seqno + 1) % SEQNO_MODULUS
  }

  lemma {:induction false} LastOfGiven<S>(ops: seq<Op<S>>, id: int)
    ensures LastGiven(ops, id).Some? ==>
              GivenFor(ops, id) != [] && GivenFor(ops, id)[|GivenFor(ops, id)| - 1] == LastGiven(ops, id).value.0
  {
    if ops != [] {
      LastOfGiven(ops[..|ops| - 1], id);
    }
  }

  // A neighbour of which no record goes missing has the gap estimate one from its second record on, for every
  // weight, also across a wrap of the sequence numbers
  lemma {:induction false} NoLossMeansGapOne<S>(c: Params, ops: seq<Op<S>>, id: int)
    requires NoneMissing(GivenFor(ops, id)) && id in Run(c, ops)
    ensures Run(c, ops)[id].avgGap == if Run(c, ops)[id].seqnoReceived then 1.0 else 0.0
  {
    hide Run, NextGap, Gap, LastGiven;
    EmptyRun<S>(c);
    var rest, op := ops[..|ops| - 1], ops[|ops| - 1];
    var m := Run(c, rest);
    RunStep(c, ops);
    var before, given := GivenFor(rest, id), GivenFor(ops, id);
    assert forall i :: 0 <= i < |before| ==> given[i] == before[i];
    if id in m {
      NoLossMeansGapOne(c, rest, id);
      if op.OpInsert? && op.esd.nodeId == id {
        HoldsLatest(c, rest, id);
        LastOfGiven(rest, id);
        assert m[id].esd == before[|before| - 1] == given[|before| - 1];
        assert given[|before|] == op.esd && |given| == |before| + 1;
        GapCounts(given[|before| - 1].seqno, 1);
        AfterOneGap(c.alpha, m[id].seqnoReceived, m[id].esd.seqno, op.esd.seqno);
      }
    }
  }

  lemma AfterOneGap(alpha: real, received: bool, last: Uint32, new_: Uint32)
    requires Gap(new_, last) == 1
    ensures NextGap(alpha, received, 1.0, last, new_) == 1.0
    ensures !received ==> NextGap(alpha, received, 0.0, last, new_) == 1.0
  {
    assert (1.0 - alpha) * 1.0 + alpha * 1.0 == 1.0;
  }
}
