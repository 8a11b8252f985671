/**
 Records of the real-time database: what the information elements carry, how long they are on the wire, and
 how they wait in the queues of a node.

 The value of a variable has an abstract type D: a node copies values and compares their sequence numbers and
 lengths, but never looks inside them.
 */
module RtdbTypes {

  // Sequence numbers have eight bits
  type SeqNoT = n: nat | n < 256

  datatype VarSpec = VarSpec(id: nat, producer: nat, descr: string, repCnt: nat)

  datatype VarUpdate<D> = VarUpdate(id: nat, seqNo: SeqNoT, len: nat, data: D)

  datatype IEType = CREATE_VARIABLES | UPDATES | SUMMARIES | REQUEST_VAR_CREATES | REQUEST_VAR_UPDATES | DELETE_VARIABLES

  // Information elements as they travel in beacons
  datatype IE<D> =
    | Create(spec: VarSpec, update: VarUpdate<D>)
    | Update(upd: VarUpdate<D>)
    | Summary(sumId: nat, sumSeqNo: SeqNoT)
    | ReqCreate(reqCreateId: nat)
    | ReqUpdate(reqUpdateId: nat, reqSeqNo: SeqNoT)
  {
    function Type(): IEType {
      match this
      case Create(_, _) => CREATE_VARIABLES
      case Update(_) => UPDATES
      case Summary(_, _) => SUMMARIES
      case ReqCreate(_) => REQUEST_VAR_CREATES
      case ReqUpdate(_, _) => REQUEST_VAR_UPDATES
    }

    function Id(): nat {
      match this
      case Create(spec, _) => spec.id
      case Update(upd) => upd.id
      case Summary(id, _) => id
      case ReqCreate(id) => id
      case ReqUpdate(id, _) => id
    }

    // The sequence number of a create element is kept twice in the program, always with the same value
    function SeqNo(): SeqNoT {
      match this
      case Create(_, update) => update.seqNo
      case Update(upd) => upd.seqNo
      case Summary(_, seqNo) => seqNo
      case ReqCreate(_) => 0
      case ReqUpdate(_, seqNo) => seqNo
    }

    // getIETypeLen
    function Len(): nat {
      match this
      case Create(spec, update) => SpecLen(spec) + UpdateLen(update)
      case Update(upd) => UpdateLen(upd)
      case Summary(_, _) => ID_LEN + SEQ_NO_LEN
      case ReqCreate(_) => ID_LEN
      case ReqUpdate(_, _) => ID_LEN + SEQ_NO_LEN
    }
  }

  const ID_LEN := 2
  const PRODUCER_ID_LEN := 6
  const SEQ_NO_LEN := 1
  const DESCR_LEN_LEN := 2
  const REP_CNT_LEN := 1
  const VAR_LEN_LEN := 2

  // Length of the header that precedes the elements of one type
  const HEADER_LEN := 3

  function SpecLen(spec: VarSpec): nat {
    ID_LEN + PRODUCER_ID_LEN + DESCR_LEN_LEN + |spec.descr| + REP_CNT_LEN
  }

  function UpdateLen<D>(update: VarUpdate<D>): nat {
    ID_LEN + SEQ_NO_LEN + VAR_LEN_LEN + update.len
  }

  // Lengths on the wire, in bytes
  lemma ElementLengths<D>(ie: IE<D>)
    ensures ie.Len() ==
            match ie
            case Create(spec, update) => 16 + |spec.descr| + update.len
            case Update(upd) => 5 + upd.len
            case Summary(_, _) => 3
            case ReqCreate(_) => 2
            case ReqUpdate(_, _) => 3
  {
  }

  function TotalLen<D>(list: seq<IE<D>>): nat {
    if list == [] then 0 else list[0].Len() + TotalLen(list[1..])
  }

  lemma {:induction false} TotalLenConcat<D>(a: seq<IE<D>>, b: seq<IE<D>>)
    ensures TotalLen(a + b) == TotalLen(a) + TotalLen(b)
  {
    if a == [] {
      assert a + b == b;
    } else {
      TotalLenConcat(a[1..], b);
      assert (a + b)[1..] == a[1..] + b;
    }
  }

  // An element waiting in a queue, with the number of beacons it is still to be put in
  datatype Queued<D> = Queued(ie: IE<D>, rep: int)

  datatype Variable<D> = Variable(
    id: nat, producer: nat, repCnt: nat, descr: string, len: nat, data: D, seqNo: SeqNoT, toBeDeleted: bool)

  datatype Config = Config(
    maxVariableLen: int, maxDescriptionLen: int, maxRepetitions: int, maxNumSummaries: int, maxPacketSize: int)

  // True when elements about variable id are to be dropped while a beacon is built
  predicate DropNonExistent<D>(db: map<nat, Variable<D>>, id: nat) {
    !(id in db && !db[id].toBeDeleted)
  }
}
