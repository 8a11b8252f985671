/**
 Runs of the AVL tree: the state is the tree together with the list of free array slots, and the operations
 are the three public ones that change it. The theorem is that any run denotes the map one would expect and
 keeps every array entry owned exactly once.
 */
module AvlRuns {
  import opened Wrappers
  import opened AvlTree

  datatype State<D> = State(tree: Tree<D>, free: seq<nat>)

  datatype Op<D> = OpClear | OpInsert(key: int, data: D) | OpRemove(key: int)

  // The numbers below capacity are either used or listed as free, and none is listed twice
  ghost predicate Partition(capacity: nat, free: seq<nat>, used: set<nat>) {
    && (forall i, j :: 0 <= i < j < |free| ==> free[i] != free[j])
    && (forall x :: x in free ==> x < capacity && x !in used)
    && (forall x :: x in used ==> x < capacity)
    && (forall x :: 0 <= x < capacity ==> x in free || x in used)
  }

  lemma PartitionTake(capacity: nat, free: seq<nat>, used: set<nat>)
    requires Partition(capacity, free, used) && free != []
    ensures Partition(capacity, free[1..], used + {free[0]})
  {
    assert free[0] in free;
    assert forall x :: x in free <==> x == free[0] || x in free[1..];
    assert forall i :: 1 <= i < |free| ==> free[i] != free[0] && free[1..][i - 1] == free[i];
  }

  lemma PartitionGive(capacity: nat, free: seq<nat>, used: set<nat>, x: nat)
    requires Partition(capacity, free, used) && x in used
    ensures Partition(capacity, free + [x], used - {x})
  {
  }

  // Every array slot is either reachable from the root or listed as free, once
  ghost predicate SlotsPartitioned<D>(capacity: nat, s: State<D>) {
    |s.free| + Size(s.tree) == capacity && Partition(capacity, s.free, Slots(s.tree))
  }

  ghost predicate StateOk<D>(capacity: nat, s: State<D>) {
    WellFormed(s.tree) && SlotsPartitioned(capacity, s)
  }

  function UpTo(n: nat): (s: seq<nat>)
    ensures |s| == n && forall x :: 0 <= x < n ==> s[x] == x
  {
    seq(n, i => i)
  }

  function Cleared<D>(capacity: nat): (s: State<D>)
    ensures StateOk(capacity, s)
  {
    assert forall x :: 0 <= x < capacity ==> x in UpTo(capacity) by {
      forall x | 0 <= x < capacity ensures x in UpTo(capacity) {
        assert UpTo(capacity)[x] == x;
      }
    }
    State(Nil, UpTo(capacity))
  }

  lemma InsertStateOk<D>(capacity: nat, s: State<D>, key: int, data: D)
    requires StateOk(capacity, s) && s.free != []
    ensures var u := Inserted(s.tree, key, data, s.free[0]);
            StateOk(capacity, State(u, if key in Keys(s.tree) then s.free else s.free[1..]))
  {
    assert s.free[0] in s.free;
    InsertWellFormed(s.tree, key, data, s.free[0]);
    PartitionTake(capacity, s.free, Slots(s.tree));
  }

  lemma RemoveStateOk<D>(capacity: nat, s: State<D>, key: int)
    requires StateOk(capacity, s) && key in Keys(s.tree)
    ensures StateOk(capacity, State(Removed(s.tree, key), s.free + [FreedSlot(s.tree, key)]))
  {
    RemoveWellFormed(s.tree, key);
    PartitionGive(capacity, s.free, Slots(s.tree), FreedSlot(s.tree, key));
  }

  // An insertion into a full tree does nothing, not even for a key that is present
  function Step<D>(capacity: nat, s: State<D>, op: Op<D>): (s': State<D>)
    requires StateOk(capacity, s)
    ensures StateOk(capacity, s')
  {
    match op
    case OpClear => Cleared(capacity)
    case OpInsert(key, data) =>
      if Size(s.tree) < capacity then
        InsertStateOk(capacity, s, key, data);
        State(Inserted(s.tree, key, data, s.free[0]), if key in Keys(s.tree) then s.free else s.free[1..])
      else
        s
    case OpRemove(key) =>
      if key in Keys(s.tree) then
        RemoveStateOk(capacity, s, key);
        State(Removed(s.tree, key), s.free + [FreedSlot(s.tree, key)])
      else
        s
  }

  function Run<D>(capacity: nat, ops: seq<Op<D>>): (s: State<D>)
    ensures StateOk(capacity, s)
  {
    if ops == [] then Cleared(capacity)
    else Step(capacity, Run(capacity, ops[..|ops| - 1]), ops[|ops| - 1])
  }

  // ---------- The maps that runs denote ----------

  function MapStep<D>(capacity: nat, m: map<int, D>, op: Op<D>): map<int, D> {
    match op
    case OpClear => map[]
    case OpInsert(key, data) => if |m| < capacity then m[key := data] else m
    case OpRemove(key) => m - {key}
  }

  function MapRun<D>(capacity: nat, ops: seq<Op<D>>): map<int, D> {
    if ops == [] then map[]
    else MapStep(capacity, MapRun(capacity, ops[..|ops| - 1]), ops[|ops| - 1])
  }

  lemma KeysOfMap<D>(t: Tree<D>)
    requires Ordered(t)
    ensures MapOf(t).Keys == Keys(t)
    ensures |MapOf(t)| == Size(t)
    ensures forall k :: Get(t, k) == if k in MapOf(t) then Some(MapOf(t)[k]) else None
  {
    forall k ensures k in Keys(t) <==> Get(t, k).Some? {
      GetInKeys(t, k);
    }
    assert MapOf(t).Keys == Keys(t);
    SizeCountsKeys(t);
  }

  lemma EmptyMap<D>()
    ensures MapOf<D>(Nil) == map[]
  {
  }

  lemma StepIsMapStep<D>(capacity: nat, s: State<D>, op: Op<D>)
    requires StateOk(capacity, s)
    ensures MapOf(Step(capacity, s, op).tree) == MapStep(capacity, MapOf(s.tree), op)
  {
    hide MapOf, Inserted, Removed, Partition;
    KeysOfMap(s.tree);
    match op
    case OpClear => EmptyMap<D>();
    case OpInsert(key, data) =>
      if Size(s.tree) < capacity {
        InsertIsMapUpdate(s.tree, key, data, s.free[0]);
      }
    case OpRemove(key) =>
      if key in Keys(s.tree) {
        RemoveIsMapRemoval(s.tree, key);
      } else {
        assert MapOf(s.tree) - {key} == MapOf(s.tree);
      }
  }

  // After any sequence of operations the tree denotes exactly the map that sequence denotes
  lemma {:induction false} RunIsMapRun<D>(capacity: nat, ops: seq<Op<D>>)
    ensures MapOf(Run(capacity, ops).tree) == MapRun(capacity, ops)
  {
    if ops != [] {
      hide MapOf, Step, MapStep;
      RunIsMapRun(capacity, ops[..|ops| - 1]);
      StepIsMapStep(capacity, Run(capacity, ops[..|ops| - 1]), ops[|ops| - 1]);
    }
  }

  // So searching it finds each key's last data, and nothing else
  lemma RunFindsLast<D>(capacity: nat, ops: seq<Op<D>>, key: int)
    ensures Get(Run(capacity, ops).tree, key)
         == if key in MapRun(capacity, ops) then Some(MapRun(capacity, ops)[key]) else None
  {
    hide Run, MapRun, MapOf;
    RunIsMapRun(capacity, ops);
    KeysOfMap(Run(capacity, ops).tree);
  }

  // The tree stays ordered and balanced, and every array entry stays either in the tree or on the free list, so an
  // insertion that is let in finds a free entry and a removal finds room on the free list
  lemma RunOwnsEverySlot<D>(capacity: nat, ops: seq<Op<D>>)
    ensures var s := Run(capacity, ops);
            && WellFormed(s.tree) && Partition(capacity, s.free, Slots(s.tree))
            && Size(s.tree) == |Slots(s.tree)| == |MapRun(capacity, ops)| == capacity - |s.free|
            && (Size(s.tree) < capacity <==> s.free != [])
            && (s.tree.Node? ==> |s.free| < capacity)
  {
    hide Run, MapRun, MapOf, Partition;
    var s := Run(capacity, ops);
    RunIsMapRun(capacity, ops);
    KeysOfMap(s.tree);
    SizeCounts(s.tree);
  }

  // A full tree ignores a new value for a key it holds, although its interface promises the update
  lemma FullTreeIgnoresUpdate<D>(capacity: nat, s: State<D>, key: int, data: D)
    requires StateOk(capacity, s)
    ensures Get(Step(capacity, s, OpInsert(key, data)).tree, key) == Some(data) <==>
              Size(s.tree) < capacity || Get(s.tree, key) == Some(data)
  {
    if Size(s.tree) < capacity {
      InsertGet(s.tree, key, data, s.free[0]);
    }
  }

  // Insertions of the keys 0 to n - 1, all with data d
  function Filling<D>(n: nat, d: D): seq<Op<D>> {
    if n == 0 then [] else Filling(n - 1, d) + [OpInsert(n - 1, d)]
  }

  lemma OneOperationMore<D>(capacity: nat, ops: seq<Op<D>>, op: Op<D>)
    ensures MapRun(capacity, ops + [op]) == MapStep(capacity, MapRun(capacity, ops), op)
  {
    assert (ops + [op])[..|ops|] == ops;
  }

  lemma {:induction false} FillingFills<D>(capacity: nat, n: nat, d: D)
    requires n <= capacity
    ensures var m := MapRun(capacity, Filling(n, d));
            |m| == n && forall k :: (k in m <==> 0 <= k < n) && (k in m ==> m[k] == d)
  {
    if n > 0 {
      hide MapRun;
      OneOperationMore(capacity, Filling(n - 1, d), OpInsert(n - 1, d));
      FillingFills(capacity, n - 1, d);
    }
  }

  // Such a state is reached: once the tree has been filled, an insertion of new data for a key it holds is lost
  lemma FilledTreeLosesUpdate<D>(capacity: nat, d: D, e: D)
    requires capacity >= 3 && d != e
    ensures Get(Run(capacity, Filling(capacity, d) + [OpInsert(0, e)]).tree, 0) == Some(d)
  {
    hide Run, MapRun, Get;
    FillingFills(capacity, capacity, d);
    OneOperationMore(capacity, Filling(capacity, d), OpInsert(0, e));
    RunFindsLast(capacity, Filling(capacity, d) + [OpInsert(0, e)], 0);
  }
}
