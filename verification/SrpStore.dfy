/**
 The fixed-memory neighbour store: an AVL tree with one entry per neighbour, an array of safety data records, and a
 free list of array entries. Together they behave as the map of module SrpRecords.
 */
module SrpStore {
  import opened FixedMemAvlTree
  import opened RingBuffer
  import opened SrpRecords
  import opened Wrappers
  import A = AvlRuns
  import T = AvlTree

  // What the tree holds for a neighbour; offs is the array entry of its record
  datatype Neighbour = Neighbour(nodeId: int, offs: nat, seqnoReceived: bool, lastSeqno: Uint32, avgGap: real, received: int)

  // ---------- Two allocators and one map ----------

  // The records of different neighbours are in different entries, none of them listed as free, and there are as
  // many entries as neighbours and free entries together
  ghost predicate Owned(m: map<int, Neighbour>, free: seq<nat>, n: nat) {
    && (forall k :: k in m ==> m[k].offs < n && m[k].offs !in free)
    && (forall k, l :: k in m && l in m && k != l ==> m[k].offs != m[l].offs)
    && (forall i :: 0 <= i < |free| ==> free[i] < n)
    && (forall i, j :: 0 <= i < j < |free| ==> free[i] != free[j])
    && |free| + |m| == n
  }

  // Entries say whose they are, and repeat the sequence number of the record
  ghost predicate Labelled<S>(m: map<int, Neighbour>, space: seq<Esd<S>>) {
    forall k :: k in m ==>
      && m[k].offs < |space| && m[k].nodeId == k
      && space[m[k].offs].nodeId == k && space[m[k].offs].seqno == m[k].lastSeqno
  }

  function RecordOf<S>(d: Neighbour, space: seq<Esd<S>>): Record<S>
    requires d.offs < |space|
  {
    Record(space[d.offs], d.received, d.seqnoReceived, d.avgGap)
  }

  function StoreOf<S>(m: map<int, Neighbour>, space: seq<Esd<S>>): Store<S> {
    map k | k in m && m[k].offs < |space| :: RecordOf(m[k], space)
  }

  lemma OwnedReplaced(m: map<int, Neighbour>, free: seq<nat>, n: nat, k: int, d: Neighbour)
    requires Owned(m, free, n) && k in m && d.offs == m[k].offs
    ensures Owned(m[k := d], free, n)
  {
    assert m[k := d].Keys == m.Keys;
  }

  lemma OwnedAdded(m: map<int, Neighbour>, free: seq<nat>, n: nat, k: int, d: Neighbour)
    requires Owned(m, free, n) && k !in m && free != [] && d.offs == free[0]
    ensures Owned(m[k := d], free[1..], n) && free[0] < n
  {
    assert m[k := d].Keys == m.Keys + {k};
    assert free[0] in free;
    assert forall x :: x in free[1..] ==> x in free;
    assert free[0] !in free[1..];
  }

  lemma OwnedDropped(m: map<int, Neighbour>, free: seq<nat>, n: nat, k: int)
    requires Owned(m, free, n) && k in m
    ensures Owned(m - {k}, free + [m[k].offs], n) && |free| < n
  {
    var m', free', offs := m - {k}, free + [m[k].offs], m[k].offs;
    OneLess(m, k);
    forall l | l in m' ensures m'[l].offs !in free' {
      assert m'[l].offs != offs && m'[l].offs !in free;
    }
    assert offs !in free;
  }

  lemma OneLess(m: map<int, Neighbour>, k: int)
    requires k in m
    ensures |m| == |m - {k}| + 1 && m.Keys == (m - {k}).Keys + {k}
  {
    assert m.Keys == (m - {k}).Keys + {k};
    assert |m.Keys| == |(m - {k}).Keys| + 1;
  }

  // No two neighbours share an entry with the one that is written
  lemma Written<S>(m: map<int, Neighbour>, space: seq<Esd<S>>, k: int, d: Neighbour, esd: Esd<S>)
    requires Labelled(m, space) && d.offs < |space|
    requires forall l :: l in m && l != k ==> m[l].offs != d.offs
    requires d.nodeId == k == esd.nodeId && d.lastSeqno == esd.seqno
    ensures Labelled(m[k := d], space[d.offs := esd])
    ensures StoreOf(m[k := d], space[d.offs := esd]) == StoreOf(m, space)[k := Record(esd, d.received, d.seqnoReceived, d.avgGap)]
  {
    hide Labelled, StoreOf;
    var m', space' := m[k := d], space[d.offs := esd];
    WrittenLabelled(m, space, k, d, esd);
    StoreIs(m, space);
    StoreIs(m', space');
  }

  lemma StoreIs<S>(m: map<int, Neighbour>, space: seq<Esd<S>>)
    requires Labelled(m, space)
    ensures StoreOf(m, space).Keys == m.Keys
    ensures forall k :: k in m ==> m[k].offs < |space| && StoreOf(m, space)[k] == RecordOf(m[k], space)
  {
    StoreKeys(m, space);
  }

  lemma WrittenLabelled<S>(m: map<int, Neighbour>, space: seq<Esd<S>>, k: int, d: Neighbour, esd: Esd<S>)
    requires Labelled(m, space) && d.offs < |space|
    requires forall l :: l in m && l != k ==> m[l].offs != d.offs
    requires d.nodeId == k == esd.nodeId && d.lastSeqno == esd.seqno
    ensures Labelled(m[k := d], space[d.offs := esd])
    ensures forall l :: l in m && l != k ==> space[d.offs := esd][m[l].offs] == space[m[l].offs]
  {
  }

  lemma RecordReplaced<S>(m: map<int, Neighbour>, free: seq<nat>, space: seq<Esd<S>>, k: int, d: Neighbour, esd: Esd<S>)
    requires Owned(m, free, |space|) && Labelled(m, space)
    requires k in m && d.nodeId == k == esd.nodeId && d.offs == m[k].offs && d.lastSeqno == esd.seqno
    ensures Owned(m[k := d], free, |space|) && d.offs < |space| && Labelled(m[k := d], space[d.offs := esd])
    ensures StoreOf(m[k := d], space[d.offs := esd]) == StoreOf(m, space)[k := Record(esd, d.received, d.seqnoReceived, d.avgGap)]
  {
    hide Labelled, StoreOf;
    OwnedReplaced(m, free, |space|, k, d);
    Written(m, space, k, d, esd);
  }

  lemma RecordAdded<S>(m: map<int, Neighbour>, free: seq<nat>, space: seq<Esd<S>>, k: int, d: Neighbour, esd: Esd<S>)
    requires Owned(m, free, |space|) && Labelled(m, space) && free != []
    requires k !in m && d.nodeId == k == esd.nodeId && d.offs == free[0] && d.lastSeqno == esd.seqno
    ensures Owned(m[k := d], free[1..], |space|) && d.offs < |space| && Labelled(m[k := d], space[d.offs := esd])
    ensures StoreOf(m[k := d], space[d.offs := esd]) == StoreOf(m, space)[k := Record(esd, d.received, d.seqnoReceived, d.avgGap)]
  {
    hide Labelled, StoreOf;
    OwnedAdded(m, free, |space|, k, d);
    assert free[0] in free;
    Written(m, space, k, d, esd);
  }

  lemma RecordDropped<S>(m: map<int, Neighbour>, free: seq<nat>, space: seq<Esd<S>>, k: int)
    requires Owned(m, free, |space|) && Labelled(m, space) && k in m
    ensures Owned(m - {k}, free + [m[k].offs], |space|) && Labelled(m - {k}, space)
    ensures StoreOf(m - {k}, space) == StoreOf(m, space) - {k}
  {
    OwnedDropped(m, free, |space|, k);
  }

  lemma StoreKeys<S>(m: map<int, Neighbour>, space: seq<Esd<S>>)
    requires Labelled(m, space)
    ensures StoreOf(m, space).Keys == m.Keys && |StoreOf(m, space)| == |m|
  {
    forall k | k in m ensures k in StoreOf(m, space) {
      assert m[k].offs < |space|;
    }
    assert StoreOf(m, space).Keys == m.Keys;
  }

  lemma UpToMore(n: nat)
    ensures A.UpTo(n + 1) == A.UpTo(n) + [n]
  {
  }

  // With no neighbour every entry is free
  lemma AllFree(n: nat)
    ensures Owned(map[], A.UpTo(n), n)
  {
  }

  lemma SizesOf(m: map<int, Neighbour>, free: seq<nat>, n: nat)
    requires Owned(m, free, n)
    ensures |free| + |m| == n && (free != [] ==> free[0] < n)
    ensures forall k :: k in m ==> m[k].offs < n
  {
  }

  // ---------- Lists of matching neighbours ----------

  datatype NodeInformation<S> = NodeInformation(esd: Esd<S>, received: int, avgGap: real)

  // The list names each accepted neighbour of the map once, and no others
  ghost predicate ListsExactly(list: seq<int>, m: map<int, Neighbour>, accept: (int, Neighbour) -> bool) {
    && (forall k :: k in list <==> k in m && accept(k, m[k]))
    && (forall i, j :: 0 <= i < j < |list| ==> list[i] != list[j])
  }

  function KeysMatching(s: seq<(int, Neighbour)>, accept: (int, Neighbour) -> bool): seq<int> {
    Matching(s, accept, (k: int, d: Neighbour) => k)
  }

  lemma {:induction false} MatchingMember(s: seq<(int, Neighbour)>, accept: (int, Neighbour) -> bool, k: int)
    ensures k in KeysMatching(s, accept) <==> exists i :: 0 <= i < |s| && s[i].0 == k && accept(s[i].0, s[i].1)
  {
    if s != [] {
      MatchingMember(s[1..], accept, k);
      assert s[0] == ([s[0]] + s[1..])[0];
      assert forall i :: 1 <= i < |s| ==> s[i] == s[1..][i - 1];
      assert KeysMatching(s, accept) == (if accept(s[0].0, s[0].1) then [s[0].0] else []) + KeysMatching(s[1..], accept);
      if exists i :: 0 <= i < |s[1..]| && s[1..][i].0 == k && accept(s[1..][i].0, s[1..][i].1) {
        var i :| 0 <= i < |s[1..]| && s[1..][i].0 == k && accept(s[1..][i].0, s[1..][i].1);
        assert s[i + 1].0 == k;
      }
    }
  }

  lemma {:induction false} MatchingDistinct(s: seq<(int, Neighbour)>, accept: (int, Neighbour) -> bool)
    requires forall i, j :: 0 <= i < j < |s| ==> s[i].0 != s[j].0
    ensures var l := KeysMatching(s, accept); forall i, j :: 0 <= i < j < |l| ==> l[i] != l[j]
  {
    if s != [] {
      MatchingDistinct(s[1..], accept);
      MatchingMember(s[1..], accept, s[0].0);
    }
  }

  lemma TreeListsExactly(t: T.Tree<Neighbour>, accept: (int, Neighbour) -> bool)
    requires T.Ordered(t)
    ensures ListsExactly(KeysMatching(PreOrder(t), accept), T.MapOf(t), accept)
  {
    hide T.Ordered, T.MapOf, PreOrder, KeysMatching;
    var s, m := PreOrder(t), T.MapOf(t);
    PreOrderOnce(t);
    MatchingDistinct(s, accept);
    A.KeysOfMap(t);
    forall k ensures k in KeysMatching(s, accept) <==> k in m && accept(k, m[k]) {
      MatchingMember(s, accept, k);
      if k in m {
        PreOrderListsMap(t, k, m[k]);
        if accept(k, m[k]) {
          var i :| 0 <= i < |s| && s[i] == (k, m[k]);
        }
      }
      forall i | 0 <= i < |s| && s[i].0 == k ensures k in m && s[i].1 == m[k] {
        assert s[i] in s;
        PreOrderListsMap(t, s[i].0, s[i].1);
      }
    }
  }

  lemma PreOrderIsMap(t: T.Tree<Neighbour>)
    requires T.Ordered(t)
    ensures var s, m := PreOrder(t), T.MapOf(t); forall i :: 0 <= i < |s| ==> s[i].0 in m && s[i].1 == m[s[i].0]
  {
    var s, m := PreOrder(t), T.MapOf(t);
    A.KeysOfMap(t);
    hide T.Ordered, T.MapOf, PreOrder;
    forall i | 0 <= i < |s| ensures s[i].0 in m && s[i].1 == m[s[i].0] {
      assert s[i] in s;
      PreOrderListsMap(t, s[i].0, s[i].1);
    }
  }

  lemma {:induction false} MatchingMapped<R>(s: seq<(int, Neighbour)>, accept: (int, Neighbour) -> bool,
                                             f: (int, Neighbour) -> R, m: map<int, Neighbour>)
    requires forall i :: 0 <= i < |s| ==> s[i].0 in m && s[i].1 == m[s[i].0]
    ensures forall i :: 0 <= i < |KeysMatching(s, accept)| ==> KeysMatching(s, accept)[i] in m
    ensures |Matching(s, accept, f)| == |KeysMatching(s, accept)|
    ensures forall i :: 0 <= i < |KeysMatching(s, accept)| ==>
              Matching(s, accept, f)[i] == f(KeysMatching(s, accept)[i], m[KeysMatching(s, accept)[i]])
  {
    if s != [] {
      MatchingMapped(s[1..], accept, f, m);
      assert s[0].0 in m;
    }
  }

  lemma ScrubbedWhenListed<S>(was: Store<S>, m: Store<S>, list: seq<int>, now: int, timeout: nat)
    requires forall k :: k in list <==> k in was && Age(now, was[k].received) >= timeout
    requires forall k :: k in m <==> k in was && k !in list
    requires forall k :: k in m ==> m[k] == was[k]
    ensures m == Scrub(was, now, timeout)
  {
    hide Age;
    var kept := Scrub(was, now, timeout);
    forall k ensures k in m <==> k in kept {
      assert k in list || k !in list;
    }
    assert m.Keys == kept.Keys;
    forall k | k in m ensures m[k] == kept[k] {
    }
    assert m == kept;
  }

  class FixedMemSRPStore<S(0)> {
    const ownNodeIdentifier: int
    const alpha: real
    const neighbourTable: FixedMemAVLTree<Neighbour>
    const freeList: FixedMemRingBuffer<nat>
    const neighbourEsd: array<Esd<S>>

    ghost predicate Parts() {
      && {freeList, freeList.ring as object, neighbourEsd}
         !! {neighbourTable, neighbourTable.nodes, neighbourTable.freeList, neighbourTable.freeList.ring as object}
      && neighbourEsd as object != freeList.ring as object
    }

    ghost predicate Valid()
      reads neighbourTable, neighbourTable.nodes, neighbourTable.freeList, neighbourTable.freeList.ring
      reads freeList, freeList.ring, neighbourEsd
    {
      && Parts() && neighbourTable.Valid() && freeList.Valid()
      && neighbourTable.nodes.Length == neighbourEsd.Length == freeList.maxCapacity
      && Owned(neighbourTable.Model(), freeList.Contents(), neighbourEsd.Length)
      && Labelled(neighbourTable.Model(), neighbourEsd[..])
    }

    ghost function Params(): SrpRecords.Params {
      SrpRecords.Params(neighbourEsd.Length, ownNodeIdentifier, alpha)
    }

    ghost function Model(): Store<S>
      reads neighbourTable, neighbourEsd
    {
      StoreOf(neighbourTable.Model(), neighbourEsd[..])
    }

    constructor (maxNeighbours: nat, ownNodeIdentifier: int, alpha: real)
      requires maxNeighbours >= 3
      ensures Valid() && Model() == map[] && Params() == SrpRecords.Params(maxNeighbours, ownNodeIdentifier, alpha)
    {
      hide FixedMemAVLTree.Valid, A.UpTo, Owned;
      this.ownNodeIdentifier, this.alpha := ownNodeIdentifier, alpha;
      neighbourTable := new FixedMemAVLTree<Neighbour>(maxNeighbours);
      freeList := new FixedMemRingBuffer<nat>(maxNeighbours + 1, maxNeighbours);
      neighbourEsd := new Esd<S>[maxNeighbours];
      new;
      var i := 0;
      while i < maxNeighbours
        invariant i <= maxNeighbours && freeList.Valid() && neighbourTable.Valid() && neighbourTable.Model() == map[]
        invariant freeList.Contents() == A.UpTo(i)
      {
        UpToMore(i);
        var ok := freeList.Push(i);
        i := i + 1;
      }
      AllFree(maxNeighbours);
      assert StoreOf(map[], neighbourEsd[..]) == map[];
    }

    method DoesEsdEntryExist(nodeId: int) returns (b: bool)
      requires Valid()
      ensures b <==> nodeId in Model()
    {
      b := neighbourTable.IsMember(nodeId);
    }

    // None stands for the exception raised for an unknown neighbour
    method GetEsdEntry(nodeId: int) returns (r: Option<Esd<S>>)
      requires Valid()
      ensures r == if nodeId in Model() then Some(Model()[nodeId].esd) else None
    {
      var d := neighbourTable.LookupData(nodeId);
      r := if d.Some? then Some(neighbourEsd[d.value.offs]) else None;
    }

    // A record of a neighbour in the table replaces the old one and moves the gap estimate
    method UpdateEsdEntry(esd: Esd<S>, now: int)
      requires Valid() && esd.nodeId in Model()
      modifies neighbourTable`tree, neighbourTable.nodes, neighbourEsd
      ensures Valid()
      ensures Model() == old(Model())[esd.nodeId := Updated(alpha, old(Model())[esd.nodeId], esd, now)]
    {
      hide Owned, NextGap, FixedMemAVLTree.Valid;
      ghost var m, free, space := neighbourTable.Model(), freeList.Contents(), neighbourEsd[..];
      StoreKeys(m, space);
      var found := neighbourTable.LookupData(esd.nodeId);
      var d := found.value;
      assert d.offs < neighbourEsd.Length;
      neighbourEsd[d.offs] := esd;
      assert neighbourEsd[..] == space[d.offs := esd];
      var gap := NextGap(alpha, d.seqnoReceived, d.avgGap, d.lastSeqno, esd.seqno);
      var d' := d.(received := now, avgGap := gap, lastSeqno := esd.seqno, seqnoReceived := true);
      neighbourTable.WriteData(esd.nodeId, d');
      RecordReplaced(m, free, space, esd.nodeId, d', esd);
    }

    // The first record of a neighbour needs a free entry; false stands for the exception when there is none
    method AddEsdEntry(esd: Esd<S>, now: int) returns (ok: bool)
      requires Valid() && esd.nodeId !in Model()
      modifies neighbourTable, neighbourTable.nodes, neighbourTable.freeList, freeList, neighbourEsd
      ensures Valid()
      ensures ok <==> |old(Model())| < neighbourEsd.Length
      ensures Model() == if ok then old(Model())[esd.nodeId := First(esd, now)] else old(Model())
    {
      hide Owned, StoreOf, Labelled, FixedMemAVLTree.Valid, A.Step;
      ghost var m, free, space := neighbourTable.Model(), freeList.Contents(), neighbourEsd[..];
      StoreKeys(m, space);
      SizesOf(m, free, neighbourEsd.Length);
      var entry := freeList.Pop();
      if entry.None? {
        return false;
      }
      var offs := entry.value;
      var d := Neighbour(esd.nodeId, offs, false, esd.seqno, 0.0, now);
      RecordAdded(m, free, space, esd.nodeId, d, esd);
      neighbourEsd[offs] := esd;
      neighbourTable.Insert(esd.nodeId, d);
      assert neighbourTable.Model() == m[esd.nodeId := d];
      assert neighbourEsd[..] == space[offs := esd];
      ok := true;
    }

    method InsertEsdEntry(esd: Esd<S>, now: int) returns (raised: bool)
      requires Valid()
      modifies neighbourTable, neighbourTable.nodes, neighbourTable.freeList, freeList, neighbourEsd
      ensures Valid() && (Model(), raised) == Insert(Params(), old(Model()), esd, now)
    {
      hide Owned, Labelled, Updated, StoreOf;
      if esd.nodeId == ownNodeIdentifier {
        return false;
      }
      var member := DoesEsdEntryExist(esd.nodeId);
      if member {
        UpdateEsdEntry(esd, now);
        return false;
      }
      var ok := AddEsdEntry(esd, now);
      raised := !ok;
    }

    // The entry of the record is given back and the neighbour leaves the table
    method DropNeighbour(nodeId: int)
      requires Valid() && nodeId in neighbourTable.Model()
      modifies neighbourTable, neighbourTable.nodes, neighbourTable.freeList, neighbourTable.freeList.ring
      modifies freeList, freeList.ring
      ensures Valid() && Model() == Remove(old(Model()), nodeId)
    {
      hide Owned, StoreOf, Labelled, FixedMemAVLTree.Valid, FixedMemAVLTree.TreeState, FixedMemAVLTree.Model, A.Step,
           FixedMemRingBuffer.Valid, FixedMemRingBuffer.Contents;
      ghost var m, free, space := neighbourTable.Model(), freeList.Contents(), neighbourEsd[..];
      OwnedDropped(m, free, neighbourEsd.Length, nodeId);
      RecordDropped(m, free, space, nodeId);
      var found := neighbourTable.LookupData(nodeId);
      var ok := freeList.Push(found.value.offs);
      neighbourTable.Remove(nodeId);
    }

    method RemoveEsdEntry(nodeId: int)
      requires Valid()
      modifies neighbourTable, neighbourTable.nodes, neighbourTable.freeList, neighbourTable.freeList.ring
      modifies freeList, freeList.ring
      ensures Valid() && Model() == Remove(old(Model()), nodeId)
    {
      hide Owned, StoreOf, Labelled, FixedMemAVLTree.Valid;
      StoreKeys(neighbourTable.Model(), neighbourEsd[..]);
      var member := neighbourTable.IsMember(nodeId);
      if !member {
        assert Model() - {nodeId} == Model();
        return;
      }
      DropNeighbour(nodeId);
    }

    // The neighbours whose last record is as old as the timeout, each once
    method FindNodesToScrub(now: int, timeout: nat) returns (list: seq<int>)
      requires Valid()
      ensures forall k :: k in list <==> k in Model() && Age(now, Model()[k].received) >= timeout
      ensures forall i, j :: 0 <= i < j < |list| ==> list[i] != list[j]
    {
      hide Owned;
      var accept := (k: int, d: Neighbour) => Age(now, d.received) >= timeout;
      var transform := (k: int, d: Neighbour) => k;
      list := neighbourTable.FindMatchingData(accept, transform);
      TreeListsExactly(neighbourTable.tree, accept);
      PreOrderIsMap(neighbourTable.tree);
      MatchingMapped(PreOrder(neighbourTable.tree), accept, transform, neighbourTable.Model());
      assert list == KeysMatching(PreOrder(neighbourTable.tree), accept);
      StoreKeys(neighbourTable.Model(), neighbourEsd[..]);
    }

    // One pass of the scrubber
    method ScrubOnce(now: int, timeout: nat)
      requires Valid()
      modifies neighbourTable, neighbourTable.nodes, neighbourTable.freeList, neighbourTable.freeList.ring
      modifies freeList, freeList.ring
      ensures Valid() && Model() == Scrub(old(Model()), now, timeout)
    {
      hide Owned, Labelled, StoreOf, Age, FixedMemAVLTree.Valid, Scrub;
      ghost var was := Model();
      var list := FindNodesToScrub(now, timeout);
      var i := 0;
      while i < |list|
        invariant i <= |list| && Valid()
        invariant forall k :: k in Model() <==> k in was && k !in list[..i]
        invariant forall k :: k in Model() ==> Model()[k] == was[k]
      {
        assert list[..i + 1] == list[..i] + [list[i]];
        RemoveEsdEntry(list[i]);
        i := i + 1;
      }
      assert list[..|list|] == list;
      ScrubbedWhenListed(was, Model(), list, now, timeout);
    }

    // What is known about the neighbours whose records match, each once
    method ListMatchingNodeInformation(matches: Esd<S> -> bool) returns (list: seq<NodeInformation<S>>)
      requires Valid()
      ensures forall i :: 0 <= i < |list| ==>
                var k := list[i].esd.nodeId;
                && k in Model() && matches(Model()[k].esd)
                && list[i] == NodeInformation(Model()[k].esd, Model()[k].received, Model()[k].avgGap)
      ensures forall k :: k in Model() && matches(Model()[k].esd) ==> exists i :: 0 <= i < |list| && list[i].esd.nodeId == k
      ensures forall i, j :: 0 <= i < j < |list| ==> list[i].esd.nodeId != list[j].esd.nodeId
    {
      hide Owned;
      var space := neighbourEsd[..];
      var accept := (k: int, d: Neighbour) => d.offs < |space| && matches(space[d.offs]);
      var transform := (k: int, d: Neighbour) =>
        NodeInformation(space[if d.offs < |space| then d.offs else 0], d.received, d.avgGap);
      list := neighbourTable.FindMatchingData(accept, transform);
      ghost var m, s := neighbourTable.Model(), PreOrder(neighbourTable.tree);
      ghost var keys := KeysMatching(s, accept);
      TreeListsExactly(neighbourTable.tree, accept);
      PreOrderIsMap(neighbourTable.tree);
      MatchingMapped(s, accept, transform, m);
      StoreKeys(m, space);
      forall i | 0 <= i < |list|
        ensures keys[i] in m && list[i].esd.nodeId == keys[i] && matches(Model()[keys[i]].esd)
                && list[i] == NodeInformation(Model()[keys[i]].esd, Model()[keys[i]].received, Model()[keys[i]].avgGap)
      {
        assert keys[i] in keys;
        assert list[i] == transform(keys[i], m[keys[i]]);
      }
      forall k | k in Model() && matches(Model()[k].esd) ensures exists i :: 0 <= i < |list| && list[i].esd.nodeId == k {
        assert accept(k, m[k]);
        var i :| 0 <= i < |keys| && keys[i] == k;
        assert list[i].esd.nodeId == k;
      }
    }
  }
}
