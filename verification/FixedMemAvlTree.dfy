/**
 The AVL tree in a fixed array. Nodes are array entries that name their children by index; a free list says
 which entries are unused. Rotations exchange keys and data in place, so a sub-tree keeps its root index.

 Each method is proved against the mathematical tree of module AvlTree, which the class carries as a ghost
 field.
 */
module FixedMemAvlTree {
  import opened Wrappers
  import opened RingBuffer
  import opened AvlTree
  import opened AvlRuns

  const A_NULL: int := -1

  datatype ANode<D> = ANode(key: int, data: D, left: int, right: int, height: int)

  // The entries of a hold the keys, the data and the links of t
  ghost predicate Linked<D>(a: seq<ANode<D>>, t: Tree<D>) {
    match t
    case Nil => true
    case Node(s, l, k, d, r) =>
      && s < |a|
      && a[s].key == k && a[s].data == d && a[s].left == RootSlot(l) && a[s].right == RootSlot(r)
      && Linked(a, l) && Linked(a, r)
  }

  // Every stored height is the true height
  ghost predicate Measured<D>(a: seq<ANode<D>>, t: Tree<D>) {
    match t
    case Nil => true
    case Node(s, l, _, _, r) => s < |a| && a[s].height == Height(t) && Measured(a, l) && Measured(a, r)
  }

  ghost predicate Stored<D>(a: seq<ANode<D>>, t: Tree<D>) {
    Linked(a, t) && Measured(a, t)
  }

  lemma LinkedRoot<D>(a: seq<ANode<D>>, t: Tree<D>)
    requires Linked(a, t)
    ensures RootSlot(t) < |a|
  {
  }

  // Writing entries outside a tree does not disturb it
  lemma {:induction false} Undisturbed<D>(a: seq<ANode<D>>, b: seq<ANode<D>>, t: Tree<D>)
    requires |a| == |b|
    requires forall i :: 0 <= i < |a| && i in Slots(t) ==> a[i] == b[i]
    ensures Linked(a, t) ==> Linked(b, t)
    ensures Measured(a, t) ==> Measured(b, t)
  {
    match t
    case Nil =>
    case Node(s, l, _, _, r) =>
      assert s in Slots(t);
      Undisturbed(a, b, l);
      Undisturbed(a, b, r);
  }

  // ---------- Pure recursion over the array ----------

  function NHeight<D>(a: seq<ANode<D>>, idx: int): int
    requires idx < |a|
  {
    if idx < 0 then 0 else a[idx].height
  }

  function NBalance<D>(a: seq<ANode<D>>, idx: int): int
    requires idx < |a|
    requires 0 <= idx ==> a[idx].left < |a| && a[idx].right < |a|
  {
    if idx < 0 then 0 else NHeight(a, a[idx].left) - NHeight(a, a[idx].right)
  }

  lemma StoredBalance<D>(a: seq<ANode<D>>, t: Tree<D>)
    requires Stored(a, t)
    ensures RootSlot(t) < |a| && NHeight(a, RootSlot(t)) == Height(t)
    ensures t.Node? ==> a[t.slot].left == RootSlot(t.left) < |a| && a[t.slot].right == RootSlot(t.right) < |a|
    ensures NBalance(a, RootSlot(t)) == Balance(t)
  {
  }

  lemma StoredParts<D>(a: seq<ANode<D>>, t: Tree<D>)
    requires Stored(a, t)
    ensures t.Node? ==>
              && t.slot < |a|
              && a[t.slot] == ANode(t.key, t.data, RootSlot(t.left), RootSlot(t.right), Height(t))
              && Stored(a, t.left) && Stored(a, t.right)
  {
  }

  function CalcHeight<D>(a: seq<ANode<D>>, idx: int, ghost t: Tree<D>): (h: int)
    requires Linked(a, t) && idx == RootSlot(t)
    ensures h == Height(t)
    decreases t
  {
    if idx < 0 then 0
    else 1 + Max(CalcHeight(a, a[idx].left, t.left), CalcHeight(a, a[idx].right, t.right))
  }

  function NumberReachable<D>(a: seq<ANode<D>>, idx: int, ghost t: Tree<D>): (n: nat)
    requires Linked(a, t) && idx == RootSlot(t)
    ensures n == Size(t)
    decreases t
  {
    if idx < 0 then 0
    else 1 + NumberReachable(a, a[idx].left, t.left) + NumberReachable(a, a[idx].right, t.right)
  }

  // The index of the entry that holds key, or A_NULL; the search goes down one level at a time
  function Lookup<D>(a: seq<ANode<D>>, idx: int, key: int, ghost t: Tree<D>): (r: int)
    requires Linked(a, t) && idx == RootSlot(t)
    ensures r == A_NULL <==> Get(t, key).None?
    ensures r != A_NULL ==> 0 <= r < |a| && r in Slots(t) && a[r].key == key && Get(t, key) == Some(a[r].data)
    decreases t
  {
    if idx < 0 then A_NULL
    else if key == a[idx].key then idx
    else if key < a[idx].key then Lookup(a, a[idx].left, key, t.left)
    else Lookup(a, a[idx].right, key, t.right)
  }

  // The number of entries a search for key visits
  function LookupDepth<D>(a: seq<ANode<D>>, idx: int, key: int, ghost t: Tree<D>): (n: nat)
    requires Linked(a, t) && idx == RootSlot(t)
    ensures n <= Height(t)
    decreases t
  {
    if idx < 0 then 0
    else if key == a[idx].key then 1
    else if key < a[idx].key then 1 + LookupDepth(a, a[idx].left, key, t.left)
    else 1 + LookupDepth(a, a[idx].right, key, t.right)
  }

  // The self-check used in unit tests, as coded: both key comparisons look at the left child
  predicate IsConsistent<D>(a: seq<ANode<D>>, idx: int, ghost t: Tree<D>)
    requires Linked(a, t) && idx == RootSlot(t)
    decreases t
  {
    if idx < 0 then true
    else
      var l, r := a[idx].left, a[idx].right;
      LinkedRoot(a, t.left);
      LinkedRoot(a, t.right);
      var leftCons := if l < 0 then true else a[idx].key > a[l].key;
      var rightCons := if l < 0 then true else a[idx].key > a[l].key;
      && leftCons && rightCons
      && -1 <= NBalance(a, idx) <= 1
      && a[idx].height == CalcHeight(a, idx, t)
      && IsConsistent(a, l, t.left) && IsConsistent(a, r, t.right)
  }

  // What the self-check documents for a node and its right child
  ghost predicate RightChildrenLarger<D>(t: Tree<D>) {
    t.Node? ==>
      && (t.right.Node? ==> t.key < t.right.key)
      && RightChildrenLarger(t.left) && RightChildrenLarger(t.right)
  }

  ghost predicate LeftChildrenSmaller<D>(t: Tree<D>) {
    t.Node? ==>
      && (t.left.Node? ==> t.left.key < t.key)
      && LeftChildrenSmaller(t.left) && LeftChildrenSmaller(t.right)
  }

  // The self-check accepts exactly the balanced, correctly measured trees whose left children are smaller.
  // Together with the missing condition on right children this is what it documents.
  lemma {:induction false} IsConsistentMeans<D>(a: seq<ANode<D>>, t: Tree<D>)
    requires Linked(a, t)
    ensures IsConsistent(a, RootSlot(t), t) <==> LeftChildrenSmaller(t) && Balanced(t) && Measured(a, t)
  {
    match t
    case Nil =>
    case Node(s, l, _, _, r) =>
      IsConsistentMeans(a, l);
      IsConsistentMeans(a, r);
      if Measured(a, l) && Measured(a, r) {
        StoredBalance(a, l);
        StoredBalance(a, r);
      }
  }

  lemma LeafStored<D>(a: seq<ANode<D>>, s: nat, k: int, d: D)
    requires s < |a| && a[s] == ANode(k, d, A_NULL, A_NULL, 1)
    ensures var t := Node(s, Nil, k, d, Nil); Stored(a, t) && Balanced(t) && Height(t) == 1 && Keys(t) == {k}
  {
  }

  // The self-check accepts every two-entry array in which a right child is smaller than its parent
  lemma IsConsistentMissesRightChild<D>(k0: int, d0: D, k1: int, d1: D)
    requires k1 < k0
    ensures var a := [ANode(k0, d0, A_NULL, 1, 2), ANode(k1, d1, A_NULL, A_NULL, 1)];
            var t := Node(0, Nil, k0, d0, Node(1, Nil, k1, d1, Nil));
            Linked(a, t) && IsConsistent(a, 0, t) && !RightChildrenLarger(t) && !Ordered(t)
  {
    var a := [ANode(k0, d0, A_NULL, 1, 2), ANode(k1, d1, A_NULL, A_NULL, 1)];
    var u := Node(1, Nil, k1, d1, Nil);
    var t := Node(0, Nil, k0, d0, u);
    LeafStored(a, 1, k1, d1);
    NodeHeight(0, Nil, k0, d0, u);
    assert LeftChildrenSmaller(u) && t.left == Nil;
    assert LeftChildrenSmaller(t);
    assert Linked(a, t) && Measured(a, t);
    IsConsistentMeans(a, t);
    if Ordered(t) {
      OrderedChildren(t);
    }
  }

  lemma {:induction false} OrderedChildren<D>(t: Tree<D>)
    requires Ordered(t)
    ensures LeftChildrenSmaller(t) && RightChildrenLarger(t)
  {
    if t.Node? {
      OrderedChildren(t.left);
      OrderedChildren(t.right);
      assert t.left.Node? ==> t.left.key in Keys(t.left);
      assert t.right.Node? ==> t.right.key in Keys(t.right);
    }
  }

  // ---------- Collecting matching entries ----------

  function PreOrder<D>(t: Tree<D>): seq<(int, D)> {
    match t
    case Nil => []
    case Node(_, l, k, d, r) => [(k, d)] + PreOrder(l) + PreOrder(r)
  }

  function Matching<D, R>(s: seq<(int, D)>, accept: (int, D) -> bool, transform: (int, D) -> R): seq<R> {
    if s == [] then []
    else (if accept(s[0].0, s[0].1) then [transform(s[0].0, s[0].1)] else [])
         + Matching(s[1..], accept, transform)
  }

  lemma {:induction false} MatchingConcat<D, R>(s: seq<(int, D)>, u: seq<(int, D)>,
      p: (int, D) -> bool, f: (int, D) -> R)
    ensures Matching(s + u, p, f) == Matching(s, p, f) + Matching(u, p, f)
  {
    if s == [] {
      assert s + u == u;
    } else {
      MatchingConcat(s[1..], u, p, f);
      assert (s + u)[1..] == s[1..] + u && (s + u)[0] == s[0];
      var first := if p(s[0].0, s[0].1) then [f(s[0].0, s[0].1)] else [];
      assert Matching(s + u, p, f) == first + (Matching(s[1..], p, f) + Matching(u, p, f));
      assert Matching(s, p, f) == first + Matching(s[1..], p, f);
    }
  }

  lemma MatchingNothing<D, R>(p: (int, D) -> bool, f: (int, D) -> R)
    ensures Matching([], p, f) == [] && PreOrder<D>(Nil) == []
  {
  }

  lemma MatchingOne<D, R>(k: int, d: D, p: (int, D) -> bool, f: (int, D) -> R)
    ensures Matching([(k, d)], p, f) == if p(k, d) then [f(k, d)] else []
  {
    assert Matching([(k, d)][1..], p, f) == [];
  }

  lemma PreOrderParts<D>(t: Tree<D>)
    requires t.Node?
    ensures PreOrder(t) == [(t.key, t.data)] + (PreOrder(t.left) + PreOrder(t.right))
  {
    Regrouped([(t.key, t.data)], PreOrder(t.left), PreOrder(t.right));
  }

  lemma Regrouped<R>(a: seq<R>, b: seq<R>, c: seq<R>)
    ensures a + b + c == a + (b + c)
  {
  }

  lemma Appended<R>(list: seq<R>, a: seq<R>, b: seq<R>, c: seq<R>)
    ensures list + (a + (b + c)) == list + a + b + c
  {
  }

  // Matching entries of a sub-tree, appended to a list: those of the root, of the left and of the right sub-tree
  lemma MatchingPreOrder<D, R>(t: Tree<D>, p: (int, D) -> bool, f: (int, D) -> R, list: seq<R>)
    requires t.Node?
    ensures list + Matching(PreOrder(t), p, f)
         == (list + if p(t.key, t.data) then [f(t.key, t.data)] else [])
            + Matching(PreOrder(t.left), p, f) + Matching(PreOrder(t.right), p, f)
  {
    hide Matching, PreOrder;
    PreOrderParts(t);
    MatchingConcat([(t.key, t.data)], PreOrder(t.left) + PreOrder(t.right), p, f);
    MatchingConcat(PreOrder(t.left), PreOrder(t.right), p, f);
    MatchingOne(t.key, t.data, p, f);
    Appended(list, Matching([(t.key, t.data)], p, f), Matching(PreOrder(t.left), p, f), Matching(PreOrder(t.right), p, f));
  }

  lemma {:induction false} PreOrderListsMap<D>(t: Tree<D>, k: int, d: D)
    requires Ordered(t)
    ensures (k, d) in PreOrder(t) <==> Get(t, k) == Some(d)
  {
    if t.Node? {
      PreOrderListsMap(t.left, k, d);
      PreOrderListsMap(t.right, k, d);
      GetInKeys(t.left, k);
      GetInKeys(t.right, k);
      KeysSplit(t, k);
    }
  }

  ghost predicate KeysDiffer<D>(s: seq<(int, D)>) {
    forall i, j :: 0 <= i < j < |s| ==> s[i].0 != s[j].0
  }

  lemma {:induction false} PreOrderKeys<D>(t: Tree<D>)
    ensures |PreOrder(t)| == Size(t)
    ensures forall i :: 0 <= i < |PreOrder(t)| ==> PreOrder(t)[i].0 in Keys(t)
  {
    if t.Node? {
      PreOrderKeys(t.left);
      PreOrderKeys(t.right);
    }
  }

  lemma KeysDifferAround<D>(p: (int, D), a: seq<(int, D)>, b: seq<(int, D)>)
    requires KeysDiffer(a) && KeysDiffer(b)
    requires (forall i :: 0 <= i < |a| ==> a[i].0 < p.0) && forall i :: 0 <= i < |b| ==> p.0 < b[i].0
    ensures KeysDiffer([p] + a + b)
  {
  }

  // The pre-order walk lists every key of the map once, with its data
  lemma {:induction false} PreOrderOnce<D>(t: Tree<D>)
    requires Ordered(t)
    ensures |PreOrder(t)| == Size(t)
    ensures forall i, j :: 0 <= i < j < |PreOrder(t)| ==> PreOrder(t)[i].0 != PreOrder(t)[j].0
  {
    PreOrderKeys(t);
    if t.Node? {
      PreOrderOnce(t.left);
      PreOrderOnce(t.right);
      PreOrderKeys(t.left);
      PreOrderKeys(t.right);
      hide Keys;
      KeysDifferAround((t.key, t.data), PreOrder(t.left), PreOrder(t.right));
      assert KeysDiffer(PreOrder(t));
    }
  }

  // A search visits only logarithmically many entries
  lemma SearchIsLogarithmic<D>(a: seq<ANode<D>>, t: Tree<D>, key: int)
    requires Linked(a, t) && Balanced(t)
    ensures Fib(LookupDepth(a, RootSlot(t), key, t) + 2) <= Size(t) + 1
    ensures Size(t) <= 1000 ==> LookupDepth(a, RootSlot(t), key, t) <= 14
  {
    BalancedTreesAreBushy(t);
    FibMonotone(LookupDepth(a, RootSlot(t), key, t) + 2, Height(t) + 2);
    if Size(t) <= 1000 {
      HeightOfThousand(t);
    }
  }

  // ---------- Writing the data of one key ----------

  ghost function Overwrite<D>(t: Tree<D>, key: int, data: D): (u: Tree<D>)
    ensures RootSlot(u) == RootSlot(t) && Slots(u) == Slots(t) && Keys(u) == Keys(t)
    ensures Size(u) == Size(t) && Height(u) == Height(t)
    ensures Balanced(t) ==> Balanced(u)
    ensures DistinctSlots(t) ==> DistinctSlots(u)
    ensures Ordered(t) ==> Ordered(u)
  {
    match t
    case Nil => t
    case Node(_, l, k, _, r) =>
      if key == k then t.(data := data)
      else if key < k then t.(left := Overwrite(l, key, data))
      else t.(right := Overwrite(r, key, data))
  }

  lemma {:induction false} OverwriteGet<D>(t: Tree<D>, key: int, data: D, k: int)
    requires Get(t, key).Some?
    ensures Get(Overwrite(t, key, data), k) == if k == key then Some(data) else Get(t, k)
  {
    if key < t.key {
      OverwriteGet(t.left, key, data, k);
    } else if key > t.key {
      OverwriteGet(t.right, key, data, k);
    }
  }

  lemma OverwriteIsMapUpdate<D>(t: Tree<D>, key: int, data: D)
    requires Ordered(t) && key in MapOf(t)
    ensures MapOf(Overwrite(t, key, data)) == MapOf(t)[key := data]
  {
    forall k ensures Get(Overwrite(t, key, data), k) == if k == key then Some(data) else Get(t, k) {
      OverwriteGet(t, key, data, k);
    }
  }

  lemma {:induction false} WrittenInPlace<D>(a: seq<ANode<D>>, b: seq<ANode<D>>, t: Tree<D>, key: int, data: D)
    requires Stored(a, t) && DistinctSlots(t) && Get(t, key).Some?
    requires var i := Lookup(a, RootSlot(t), key, t); b == a[i := a[i].(data := data)]
    ensures Stored(b, Overwrite(t, key, data))
  {
    var Node(s, l, k, d, r) := t;
    if key < k {
      WrittenInPlace(a, b, l, key, data);
      Undisturbed(a, b, r);
    } else if key > k {
      WrittenInPlace(a, b, r, key, data);
      Undisturbed(a, b, l);
    } else {
      Undisturbed(a, b, l);
      Undisturbed(a, b, r);
    }
  }

  // ---------- What writing the entries of one node does ----------

  // Writing the root entry of t, and nothing of its sub-trees, to describe t
  lemma RootWritten<D>(a: seq<ANode<D>>, b: seq<ANode<D>>, t: Tree<D>)
    requires t.Node? && t.slot < |a| == |b|
    requires t.slot !in Slots(t.left) && t.slot !in Slots(t.right)
    requires Stored(a, t.left) && Stored(a, t.right)
    requires forall i :: 0 <= i < |a| && (i in Slots(t.left) || i in Slots(t.right)) ==> b[i] == a[i]
    requires b[t.slot] == ANode(t.key, t.data, RootSlot(t.left), RootSlot(t.right), b[t.slot].height)
    ensures Linked(b, t) && Stored(b, t.left) && Stored(b, t.right)
    ensures b[t.slot].height == Height(t) ==> Stored(b, t)
  {
    Undisturbed(a, b, t.left);
    Undisturbed(a, b, t.right);
  }

  // The entries of the root y and its left child x after a right rotation
  lemma RotatedRight<D>(a: seq<ANode<D>>, b: seq<ANode<D>>, t: Tree<D>)
    requires t.Node? && t.left.Node? && Linked(a, t) && DistinctSlots(t) && |a| == |b| && t.left.slot < |a|
    requires Measured(a, t.left.left) && Measured(a, t.left.right) && Measured(a, t.right)
    requires forall i :: 0 <= i < |a| && i != t.slot && i != t.left.slot ==> b[i] == a[i]
    requires b[t.slot] == ANode(t.left.key, t.left.data, a[t.left.slot].left, t.left.slot, b[t.slot].height)
    requires b[t.left.slot] == ANode(t.key, t.data, a[t.left.slot].right, a[t.slot].right, b[t.left.slot].height)
    ensures Linked(b, RotateRight(t))
    ensures Measured(b, RotateRight(t).left) && Measured(b, t.left.right) && Measured(b, t.right)
  {
    Undisturbed(a, b, t.left.left);
    Undisturbed(a, b, t.left.right);
    Undisturbed(a, b, t.right);
  }

  lemma RotatedLeft<D>(a: seq<ANode<D>>, b: seq<ANode<D>>, t: Tree<D>)
    requires t.Node? && t.right.Node? && Linked(a, t) && DistinctSlots(t) && |a| == |b| && t.right.slot < |a|
    requires Measured(a, t.left) && Measured(a, t.right.left) && Measured(a, t.right.right)
    requires forall i :: 0 <= i < |a| && i != t.slot && i != t.right.slot ==> b[i] == a[i]
    requires b[t.slot] == ANode(t.right.key, t.right.data, t.right.slot, a[t.right.slot].right, b[t.slot].height)
    requires b[t.right.slot] == ANode(t.key, t.data, a[t.slot].left, a[t.right.slot].left, b[t.right.slot].height)
    ensures Linked(b, RotateLeft(t))
    ensures Measured(b, RotateLeft(t).right) && Measured(b, t.left) && Measured(b, t.right.left)
  {
    Undisturbed(a, b, t.left);
    Undisturbed(a, b, t.right.left);
    Undisturbed(a, b, t.right.right);
  }

  // The tree after the recursive step of an insertion, before its root is re-balanced
  ghost function Below<D>(t: Tree<D>, key: int, data: D, spare: nat): (u: Tree<D>)
    requires WellFormed(t) && t.Node? && spare !in Slots(t)
    ensures u.Node? && u.slot == t.slot
    ensures key != t.key ==>
              && FixInsert(u, key) == Inserted(t, key, data, spare)
              && DistinctSlots(u) && Slots(u) <= Slots(t) + {spare}
              && (Balance(u) > 1 && u.left.Node? && key > u.left.key ==> u.left.right.Node?)
              && (Balance(u) < -1 && u.right.Node? && key < u.right.key ==> u.right.left.Node?)
  {
    if key < t.key then
      InsertSlots(t.left, key, data, spare);
      InsertStaysBalanced(t.left, key, data, spare);
      var u := t.(left := Inserted(t.left, key, data, spare));
      DoubleRotationApplies(t, u, key);
      u
    else if key > t.key then
      InsertSlots(t.right, key, data, spare);
      InsertStaysBalanced(t.right, key, data, spare);
      var u := t.(right := Inserted(t.right, key, data, spare));
      DoubleRotationApplies(t, u, key);
      u
    else
      t
  }

  // The tree after the recursive step of a removal, before its root is re-balanced
  ghost function BelowRemoval<D>(t: Tree<D>, key: int): (u: Tree<D>)
    requires WellFormed(t) && t.Node?
    requires !(key == t.key && t.left.Nil? && t.right.Nil?)
    ensures u.Node? && u.slot == t.slot && FixRemove(u) == Removed(t, key)
    ensures DistinctSlots(u) && Slots(u) <= Slots(t)
  {
    if key < t.key then
      SlotsAfterRemoval(t.left, key);
      t.(left := Removed(t.left, key))
    else if key > t.key then
      SlotsAfterRemoval(t.right, key);
      t.(right := Removed(t.right, key))
    else if t.left.Nil? || t.right.Nil? then
      (if t.left.Node? then t.left else t.right).(slot := t.slot)
    else
      MinNodeIsLeast(t.right);
      var m := MinNode(t.right);
      SlotsAfterRemoval(t.right, m.key);
      t.(key := m.key, data := m.data, right := Removed(t.right, m.key))
  }

  lemma WellFormedParts<D>(t: Tree<D>)
    requires WellFormed(t) && t.Node?
    ensures WellFormed(t.left) && WellFormed(t.right)
    ensures t.slot !in Slots(t.left) && t.slot !in Slots(t.right) && Slots(t.left) !! Slots(t.right)
    ensures Slots(t) == {t.slot} + Slots(t.left) + Slots(t.right) && Size(t) == 1 + Size(t.left) + Size(t.right)
  {
  }

  lemma SlotsAfterRemoval<D>(t: Tree<D>, key: int)
    requires WellFormed(t)
    ensures DistinctSlots(Removed(t, key)) && Slots(Removed(t, key)) <= Slots(t)
  {
    if key in Keys(t) {
      RemoveSlots(t, key);
    } else {
      RemoveAbsent(t, key);
    }
  }

  lemma MinNodeStored<D>(a: seq<ANode<D>>, t: Tree<D>)
    requires Stored(a, t) && t.Node?
    ensures MinNode(t).slot < |a| && a[MinNode(t).slot].key == MinNode(t).key
    ensures a[MinNode(t).slot].data == MinNode(t).data
  {
  }

  class FixedMemAVLTree<D(0)> {
    const nodes: array<ANode<D>>
    const freeList: FixedMemRingBuffer<nat>
    var numberElements: nat
    var root: int
    ghost var tree: Tree<D>

    ghost predicate Separate() {
      nodes as object != freeList.ring as object
    }

    // The tree and the free list, as one state
    ghost function TreeState(): State<D>
      requires freeList.Valid()
      reads this, freeList, freeList.ring
    {
      State(tree, freeList.Contents())
    }

    ghost predicate Valid()
      reads this, nodes, freeList, freeList.ring
    {
      && Separate() && freeList.Valid()
      && freeList.maxCapacity == nodes.Length >= 3
      && root == RootSlot(tree) && Stored(nodes[..], tree)
      && numberElements == Size(tree)
      && StateOk(nodes.Length, TreeState())
    }

    // The map the array denotes
    ghost function Model(): map<int, D>
      reads this
    {
      MapOf(tree)
    }

    constructor (arraySize: nat)
      requires arraySize >= 3
      ensures Valid() && fresh(nodes) && fresh(freeList) && fresh(freeList.ring)
      ensures nodes.Length == arraySize && TreeState() == Cleared(arraySize) && Model() == map[]
    {
      freeList := new FixedMemRingBuffer<nat>(arraySize + 1, arraySize);
      nodes := new ANode<D>[arraySize];
      new;
      Clear();
    }

    method Clear()
      requires Separate() && freeList.Valid() && freeList.maxCapacity == nodes.Length >= 3
      modifies this, nodes, freeList, freeList.ring
      ensures Valid()
      ensures TreeState() == Step(nodes.Length, Cleared(nodes.Length), OpClear)
      ensures Model() == map[]
    {
      root := A_NULL;
      numberElements := 0;
      tree := Nil;
      freeList.Reset();
      for i := 0 to nodes.Length
        invariant freeList.Valid() && |freeList.Contents()| == i
        invariant forall j :: 0 <= j < i ==> freeList.Contents()[j] == j
        invariant root == A_NULL && numberElements == 0 && tree == Nil
      {
        var ok := freeList.Push(i);
        assert ok;
        nodes[i] := nodes[i].(left := A_NULL);
        nodes[i] := nodes[i].(right := A_NULL);
        nodes[i] := nodes[i].(height := 0);
      }
      assert freeList.Contents() == UpTo(nodes.Length);
      assert TreeState() == Cleared(nodes.Length);
    }

    method RotateRightAt(y: int, ghost t: Tree<D>) returns (r: int)
      requires t.Node? && t.left.Node? && y == t.slot && Linked(nodes[..], t) && DistinctSlots(t)
      requires Measured(nodes[..], t.left.left) && Measured(nodes[..], t.left.right) && Measured(nodes[..], t.right)
      modifies nodes
      ensures r == y && Stored(nodes[..], RotateRight(t))
      ensures forall i :: 0 <= i < nodes.Length && i !in Slots(t) ==> nodes[i] == old(nodes[i])
    {
      ghost var a := nodes[..];
      var x := nodes[y].left;
      var z := nodes[x].right;
      var yKey, yData, yRight := nodes[y].key, nodes[y].data, nodes[y].right;
      nodes[y] := nodes[y].(key := nodes[x].key);
      nodes[y] := nodes[y].(data := nodes[x].data);
      nodes[y] := nodes[y].(left := nodes[x].left);
      nodes[y] := nodes[y].(right := x);
      nodes[x] := nodes[x].(key := yKey);
      nodes[x] := nodes[x].(data := yData);
      nodes[x] := nodes[x].(left := z);
      nodes[x] := nodes[x].(right := yRight);
      RotatedRight(a, nodes[..], t);
      ghost var u := RotateRight(t);
      assert DistinctSlots(u) by { RotateRightSlots(t); }
      ghost var b := nodes[..];
      nodes[x] := nodes[x].(height := CalcHeight(nodes[..], x, u.right));
      RootWritten(b, nodes[..], u.right);
      Undisturbed(b, nodes[..], u.left);
      ghost var c := nodes[..];
      nodes[y] := nodes[y].(height := CalcHeight(nodes[..], y, u));
      RootWritten(c, nodes[..], u);
      r := y;
    }

    method RotateLeftAt(x: int, ghost t: Tree<D>) returns (r: int)
      requires t.Node? && t.right.Node? && x == t.slot && Linked(nodes[..], t) && DistinctSlots(t)
      requires Measured(nodes[..], t.left) && Measured(nodes[..], t.right.left) && Measured(nodes[..], t.right.right)
      modifies nodes
      ensures r == x && Stored(nodes[..], RotateLeft(t))
      ensures forall i :: 0 <= i < nodes.Length && i !in Slots(t) ==> nodes[i] == old(nodes[i])
    {
      ghost var a := nodes[..];
      var y := nodes[x].right;
      var z := nodes[y].left;
      var xKey, xData, xLeft := nodes[x].key, nodes[x].data, nodes[x].left;
      nodes[x] := nodes[x].(key := nodes[y].key);
      nodes[x] := nodes[x].(data := nodes[y].data);
      nodes[x] := nodes[x].(left := y);
      nodes[x] := nodes[x].(right := nodes[y].right);
      nodes[y] := nodes[y].(key := xKey);
      nodes[y] := nodes[y].(data := xData);
      nodes[y] := nodes[y].(left := xLeft);
      nodes[y] := nodes[y].(right := z);
      RotatedLeft(a, nodes[..], t);
      ghost var u := RotateLeft(t);
      assert DistinctSlots(u) by { RotateLeftSlots(t); }
      ghost var b := nodes[..];
      nodes[y] := nodes[y].(height := CalcHeight(nodes[..], y, u.left));
      RootWritten(b, nodes[..], u.left);
      Undisturbed(b, nodes[..], u.right);
      ghost var c := nodes[..];
      nodes[x] := nodes[x].(height := CalcHeight(nodes[..], x, u));
      RootWritten(c, nodes[..], u);
      r := x;
    }

    // Sets the height of the root entry of t from the heights of its children
    method SetHeight(idx: int, ghost t: Tree<D>)
      requires t.Node? && idx == t.slot && Linked(nodes[..], t) && DistinctSlots(t)
      requires Stored(nodes[..], t.left) && Stored(nodes[..], t.right)
      modifies nodes
      ensures Stored(nodes[..], t)
      ensures forall i :: 0 <= i < nodes.Length && i != idx ==> nodes[i] == old(nodes[i])
    {
      ghost var a := nodes[..];
      StoredBalance(a, t.left);
      StoredBalance(a, t.right);
      var h := 1 + Max(NHeight(nodes[..], nodes[idx].left), NHeight(nodes[..], nodes[idx].right));
      nodes[idx] := nodes[idx].(height := h);
      RootWritten(a, nodes[..], t);
    }

    // The four rotation cases after an insertion below idx
    method FixInsertAt(idx: int, key: int, ghost t: Tree<D>) returns (r: int)
      requires t.Node? && idx == t.slot && Stored(nodes[..], t) && DistinctSlots(t)
      requires Balance(t) > 1 && t.left.Node? && key > t.left.key ==> t.left.right.Node?
      requires Balance(t) < -1 && t.right.Node? && key < t.right.key ==> t.right.left.Node?
      modifies nodes
      ensures r == idx == RootSlot(FixInsert(t, key)) && Stored(nodes[..], FixInsert(t, key))
      ensures forall i :: 0 <= i < nodes.Length && i !in Slots(t) ==> nodes[i] == old(nodes[i])
    {
      FixInsertSlots(t, key);
      StoredBalance(nodes[..], t);
      StoredParts(nodes[..], t);
      StoredParts(nodes[..], t.left);
      StoredParts(nodes[..], t.right);
      var balance := NBalance(nodes[..], idx);
      if balance > 1 && key < nodes[nodes[idx].left].key {
        r := RotateRightAt(idx, t);
        return;
      }
      if balance < -1 && key > nodes[nodes[idx].right].key {
        r := RotateLeftAt(idx, t);
        return;
      }
      if balance > 1 && key > nodes[nodes[idx].left].key {
        r := RotateLeftRightAt(idx, t);
        return;
      }
      if balance < -1 && key < nodes[nodes[idx].right].key {
        r := RotateRightLeftAt(idx, t);
        return;
      }
      r := idx;
    }

    method RotateLeftRightAt(idx: int, ghost t: Tree<D>) returns (r: int)
      requires t.Node? && t.left.Node? && t.left.right.Node?
      requires idx == t.slot && Stored(nodes[..], t) && DistinctSlots(t)
      modifies nodes
      ensures r == idx && Stored(nodes[..], RotateRight(t.(left := RotateLeft(t.left))))
      ensures forall i :: 0 <= i < nodes.Length && i !in Slots(t) ==> nodes[i] == old(nodes[i])
    {
      ghost var a := nodes[..];
      RotateLeftSlots(t.left);
      StoredParts(a, t);
      StoredParts(a, t.left);
      StoredParts(a, t.left.right);
      var l := RotateLeftAt(nodes[idx].left, t.left);
      Undisturbed(a, nodes[..], t.right);
      ghost var b := nodes[..];
      nodes[idx] := nodes[idx].(left := l);
      RootWritten(b, nodes[..], t.(left := RotateLeft(t.left)));
      r := RotateRightAt(idx, t.(left := RotateLeft(t.left)));
    }

    method RotateRightLeftAt(idx: int, ghost t: Tree<D>) returns (r: int)
      requires t.Node? && t.right.Node? && t.right.left.Node?
      requires idx == t.slot && Stored(nodes[..], t) && DistinctSlots(t)
      modifies nodes
      ensures r == idx && Stored(nodes[..], RotateLeft(t.(right := RotateRight(t.right))))
      ensures forall i :: 0 <= i < nodes.Length && i !in Slots(t) ==> nodes[i] == old(nodes[i])
    {
      ghost var a := nodes[..];
      RotateRightSlots(t.right);
      StoredParts(a, t);
      StoredParts(a, t.right);
      StoredParts(a, t.right.left);
      var rr := RotateRightAt(nodes[idx].right, t.right);
      Undisturbed(a, nodes[..], t.left);
      ghost var b := nodes[..];
      nodes[idx] := nodes[idx].(right := rr);
      RootWritten(b, nodes[..], t.(right := RotateRight(t.right)));
      r := RotateLeftAt(idx, t.(right := RotateRight(t.right)));
    }

    // Inserts below idx, to the left; the height of idx is not yet brought up to date
    method InsertLeft(idx: int, key: int, data: D, ghost t: Tree<D>)
      requires Separate() && freeList.Valid() && freeList.Contents() != []
      requires freeList.Contents()[0] < nodes.Length && freeList.Contents()[0] !in Slots(t)
      requires idx == RootSlot(t) && Stored(nodes[..], t) && WellFormed(t)
      requires t.Node? && key < t.key
      modifies this`numberElements, nodes, freeList
      ensures freeList.Valid()
      ensures var u := t.(left := Inserted(t.left, key, data, old(freeList.Contents()[0])));
              Linked(nodes[..], u) && Stored(nodes[..], u.left) && Stored(nodes[..], u.right)
      ensures forall i :: 0 <= i < nodes.Length && i !in Slots(t) && i != old(freeList.Contents()[0])
                ==> nodes[i] == old(nodes[i])
      ensures freeList.Contents() == if key in Keys(t) then old(freeList.Contents()) else old(freeList.Contents())[1..]
      ensures numberElements == old(numberElements) + if key in Keys(t) then 0 else 1
      decreases t, 0
    {
      ghost var a := nodes[..];
      StoredParts(a, t);
      KeysSplit(t, key);
      InsertSlots(t.left, key, data, freeList.Contents()[0]);
      ghost var u := t.(left := Inserted(t.left, key, data, freeList.Contents()[0]));
      var l := InsertAt(nodes[idx].left, key, data, t.left);
      Undisturbed(a, nodes[..], t.right);
      ghost var b := nodes[..];
      nodes[idx] := nodes[idx].(left := l);
      RootWritten(b, nodes[..], u);
    }

    method InsertRight(idx: int, key: int, data: D, ghost t: Tree<D>)
      requires Separate() && freeList.Valid() && freeList.Contents() != []
      requires freeList.Contents()[0] < nodes.Length && freeList.Contents()[0] !in Slots(t)
      requires idx == RootSlot(t) && Stored(nodes[..], t) && WellFormed(t)
      requires t.Node? && key > t.key
      modifies this`numberElements, nodes, freeList
      ensures freeList.Valid()
      ensures var u := t.(right := Inserted(t.right, key, data, old(freeList.Contents()[0])));
              Linked(nodes[..], u) && Stored(nodes[..], u.left) && Stored(nodes[..], u.right)
      ensures forall i :: 0 <= i < nodes.Length && i !in Slots(t) && i != old(freeList.Contents()[0])
                ==> nodes[i] == old(nodes[i])
      ensures freeList.Contents() == if key in Keys(t) then old(freeList.Contents()) else old(freeList.Contents())[1..]
      ensures numberElements == old(numberElements) + if key in Keys(t) then 0 else 1
      decreases t, 0
    {
      ghost var a := nodes[..];
      StoredParts(a, t);
      KeysSplit(t, key);
      InsertSlots(t.right, key, data, freeList.Contents()[0]);
      ghost var u := t.(right := Inserted(t.right, key, data, freeList.Contents()[0]));
      var r := InsertAt(nodes[idx].right, key, data, t.right);
      Undisturbed(a, nodes[..], t.left);
      ghost var b := nodes[..];
      nodes[idx] := nodes[idx].(right := r);
      RootWritten(b, nodes[..], u);
    }

    // Inserts into the sub-tree t rooted at idx; the first free entry is taken for a new key
    method InsertAt(idx: int, key: int, data: D, ghost t: Tree<D>) returns (r: int)
      requires Separate() && freeList.Valid() && freeList.Contents() != []
      requires freeList.Contents()[0] < nodes.Length && freeList.Contents()[0] !in Slots(t)
      requires idx == RootSlot(t) && Stored(nodes[..], t) && WellFormed(t)
      modifies this`numberElements, nodes, freeList
      ensures freeList.Valid()
      ensures var u := Inserted(t, key, data, old(freeList.Contents()[0])); r == RootSlot(u) && Stored(nodes[..], u)
      ensures forall i :: 0 <= i < nodes.Length && i !in Slots(t) && i != old(freeList.Contents()[0])
                ==> nodes[i] == old(nodes[i])
      ensures freeList.Contents() == if key in Keys(t) then old(freeList.Contents()) else old(freeList.Contents())[1..]
      ensures numberElements == old(numberElements) + if key in Keys(t) then 0 else 1
      decreases t, 1
    {
      if idx < 0 {
        var newIdx := freeList.Pop();
        assert newIdx.Some?;
        nodes[newIdx.value] := ANode(key, data, A_NULL, A_NULL, 1);
        numberElements := numberElements + 1;
        return newIdx.value;
      }

      StoredParts(nodes[..], t);
      ghost var u := Below(t, key, data, freeList.Contents()[0]);
      if key < nodes[idx].key {
        InsertLeft(idx, key, data, t);
      } else if key > nodes[idx].key {
        InsertRight(idx, key, data, t);
      } else {
        ghost var a := nodes[..];
        nodes[idx] := nodes[idx].(data := data);
        RootWritten(a, nodes[..], t.(data := data));
        return idx;
      }

      SetHeight(idx, u);
      r := FixInsertAt(idx, key, u);
    }

    // The four rotation cases after a removal below idx
    method FixRemoveAt(idx: int, ghost t: Tree<D>) returns (r: int)
      requires t.Node? && idx == t.slot && Stored(nodes[..], t) && DistinctSlots(t)
      modifies nodes
      ensures r == idx == RootSlot(FixRemove(t)) && Stored(nodes[..], FixRemove(t))
      ensures forall i :: 0 <= i < nodes.Length && i !in Slots(t) ==> nodes[i] == old(nodes[i])
    {
      FixRemoveSlots(t);
      StoredBalance(nodes[..], t);
      StoredParts(nodes[..], t);
      StoredParts(nodes[..], t.left);
      StoredParts(nodes[..], t.right);
      StoredBalance(nodes[..], t.left);
      StoredBalance(nodes[..], t.right);
      var balance := NBalance(nodes[..], idx);
      if balance > 1 && NBalance(nodes[..], nodes[idx].left) >= 0 {
        r := RotateRightAt(idx, t);
        return;
      }
      if balance > 1 && NBalance(nodes[..], nodes[idx].left) < 0 {
        r := RotateLeftRightAt(idx, t);
        return;
      }
      if balance < -1 && NBalance(nodes[..], nodes[idx].right) <= 0 {
        r := RotateLeftAt(idx, t);
        return;
      }
      if balance < -1 && NBalance(nodes[..], nodes[idx].right) > 0 {
        r := RotateRightLeftAt(idx, t);
        return;
      }
      r := idx;
    }

    // Follows the left links to the entry with the smallest key
    method MinKeyNode(idx: int, ghost t: Tree<D>) returns (current: int)
      requires t.Node? && idx == RootSlot(t) && Stored(nodes[..], t)
      ensures current == MinNode(t).slot && 0 <= current < nodes.Length
      ensures nodes[current].key == MinNode(t).key && nodes[current].data == MinNode(t).data
    {
      current := idx;
      ghost var u := t;
      StoredParts(nodes[..], u);
      while nodes[current].left >= 0
        invariant u.Node? && current == u.slot < nodes.Length && Stored(nodes[..], u)
        invariant nodes[current].left == RootSlot(u.left)
        invariant MinNode(u) == MinNode(t)
        decreases u
      {
        current := nodes[current].left;
        u := u.left;
        StoredParts(nodes[..], u);
      }
      MinNodeStored(nodes[..], t);
    }

    method RemoveLeft(idx: int, key: int, doDecrement: bool, ghost t: Tree<D>)
      requires Separate() && freeList.Valid() && |freeList.Contents()| < freeList.maxCapacity
      requires idx == RootSlot(t) && Stored(nodes[..], t) && WellFormed(t) && Size(t) <= numberElements
      requires t.Node? && key < t.key
      modifies this`numberElements, nodes, freeList, freeList.ring
      ensures freeList.Valid()
      ensures var u := t.(left := Removed(t.left, key));
              Linked(nodes[..], u) && Stored(nodes[..], u.left) && Stored(nodes[..], u.right)
      ensures forall i :: 0 <= i < nodes.Length && i !in Slots(t) ==> nodes[i] == old(nodes[i])
      ensures freeList.Contents() == old(freeList.Contents()) + if key in Keys(t) then [FreedSlot(t, key)] else []
      ensures numberElements == old(numberElements) - if doDecrement && key in Keys(t) then 1 else 0
      decreases t, 0
    {
      ghost var a := nodes[..];
      StoredParts(a, t);
      KeysSplit(t, key);
      ghost var u := BelowRemoval(t, key);
      var l := RemoveAt(nodes[idx].left, key, doDecrement, t.left);
      Undisturbed(a, nodes[..], t.right);
      ghost var b := nodes[..];
      nodes[idx] := nodes[idx].(left := l);
      RootWritten(b, nodes[..], u);
    }

    method RemoveRight(idx: int, key: int, doDecrement: bool, ghost t: Tree<D>)
      requires Separate() && freeList.Valid() && |freeList.Contents()| < freeList.maxCapacity
      requires idx == RootSlot(t) && Stored(nodes[..], t) && WellFormed(t) && Size(t) <= numberElements
      requires t.Node? && key > t.key
      modifies this`numberElements, nodes, freeList, freeList.ring
      ensures freeList.Valid()
      ensures var u := t.(right := Removed(t.right, key));
              Linked(nodes[..], u) && Stored(nodes[..], u.left) && Stored(nodes[..], u.right)
      ensures forall i :: 0 <= i < nodes.Length && i !in Slots(t) ==> nodes[i] == old(nodes[i])
      ensures freeList.Contents() == old(freeList.Contents()) + if key in Keys(t) then [FreedSlot(t, key)] else []
      ensures numberElements == old(numberElements) - if doDecrement && key in Keys(t) then 1 else 0
      decreases t, 0
    {
      ghost var a := nodes[..];
      StoredParts(a, t);
      KeysSplit(t, key);
      ghost var u := BelowRemoval(t, key);
      var r := RemoveAt(nodes[idx].right, key, doDecrement, t.right);
      Undisturbed(a, nodes[..], t.left);
      ghost var b := nodes[..];
      nodes[idx] := nodes[idx].(right := r);
      RootWritten(b, nodes[..], u);
    }

    // Removes a root that has two children: the smallest entry on the right takes its place
    method RemoveRoot(idx: int, ghost t: Tree<D>)
      requires Separate() && freeList.Valid() && |freeList.Contents()| < freeList.maxCapacity
      requires idx == RootSlot(t) && Stored(nodes[..], t) && WellFormed(t) && Size(t) <= numberElements + 1
      requires t.Node? && t.left.Node? && t.right.Node?
      modifies this`numberElements, nodes, freeList, freeList.ring
      ensures freeList.Valid()
      ensures var u := BelowRemoval(t, t.key);
              Linked(nodes[..], u) && Stored(nodes[..], u.left) && Stored(nodes[..], u.right)
      ensures forall i :: 0 <= i < nodes.Length && i !in Slots(t) ==> nodes[i] == old(nodes[i])
      ensures freeList.Contents() == old(freeList.Contents()) + [FreedSlot(t, t.key)]
      ensures numberElements == old(numberElements)
      decreases t, 0
    {
      hide Ordered, Balanced, DistinctSlots, Slots, FixRemove;
      ghost var a := nodes[..];
      StoredParts(a, t);
      WellFormedParts(t);
      MinNodeIsLeast(t.right);
      SlotsAfterRemoval(t.right, MinNode(t.right).key);
      ghost var u := BelowRemoval(t, t.key);
      var tmp := MinKeyNode(nodes[idx].right, t.right);
      var tmpKey := nodes[tmp].key;
      nodes[idx] := nodes[idx].(key := nodes[tmp].key);
      nodes[idx] := nodes[idx].(data := nodes[tmp].data);
      ghost var b := nodes[..];
      Undisturbed(a, b, t.left);
      Undisturbed(a, b, t.right);
      var r := RemoveAt(nodes[idx].right, tmpKey, false, t.right);
      Undisturbed(b, nodes[..], t.left);
      ghost var c := nodes[..];
      nodes[idx] := nodes[idx].(right := r);
      RootWritten(c, nodes[..], u);
    }

    // Removes a root that has one child: the child's entry is copied over it and becomes free
    method ReplaceByChild(idx: int, tmp: int, ghost t: Tree<D>)
      requires Separate() && freeList.Valid() && |freeList.Contents()| < freeList.maxCapacity
      requires idx == RootSlot(t) && Stored(nodes[..], t) && WellFormed(t)
      requires t.Node? && t.left.Nil? != t.right.Nil?
      requires tmp == RootSlot(if t.left.Node? then t.left else t.right)
      modifies nodes, freeList, freeList.ring
      ensures freeList.Valid()
      ensures var u := BelowRemoval(t, t.key);
              Linked(nodes[..], u) && Stored(nodes[..], u.left) && Stored(nodes[..], u.right)
      ensures forall i :: 0 <= i < nodes.Length && i !in Slots(t) ==> nodes[i] == old(nodes[i])
      ensures freeList.Contents() == old(freeList.Contents()) + [FreedSlot(t, t.key)]
    {
      ghost var child := if t.left.Node? then t.left else t.right;
      ghost var a := nodes[..];
      StoredParts(a, t);
      StoredParts(a, child);
      nodes[idx] := nodes[tmp];
      RootWritten(a, nodes[..], child.(slot := idx));
      var ok := freeList.Push(tmp);
      assert ok;
    }

    // Removes key from the sub-tree t rooted at idx and gives the entry that became unused to the free list
    method RemoveAt(idx: int, key: int, doDecrement: bool, ghost t: Tree<D>) returns (r: int)
      requires Separate() && freeList.Valid() && (t.Node? ==> |freeList.Contents()| < freeList.maxCapacity)
      requires idx == RootSlot(t) && Stored(nodes[..], t) && WellFormed(t) && Size(t) <= numberElements
      modifies this`numberElements, nodes, freeList, freeList.ring
      ensures freeList.Valid()
      ensures r == RootSlot(Removed(t, key)) && Stored(nodes[..], Removed(t, key))
      ensures forall i :: 0 <= i < nodes.Length && i !in Slots(t) ==> nodes[i] == old(nodes[i])
      ensures freeList.Contents() == old(freeList.Contents()) + if key in Keys(t) then [FreedSlot(t, key)] else []
      ensures numberElements == old(numberElements) - if doDecrement && key in Keys(t) then 1 else 0
      decreases t, 1
    {
      hide Ordered, Balanced, DistinctSlots, FixRemove;
      if idx < 0 {
        return idx;
      }
      StoredParts(nodes[..], t);
      WellFormedParts(t);
      if key < nodes[idx].key {
        RemoveLeft(idx, key, doDecrement, t);
      } else if key > nodes[idx].key {
        RemoveRight(idx, key, doDecrement, t);
      } else {
        if doDecrement {
          numberElements := numberElements - 1;
        }
        if nodes[idx].left == A_NULL || nodes[idx].right == A_NULL {
          var tmp := if nodes[idx].left != A_NULL then nodes[idx].left else nodes[idx].right;
          if tmp < 0 {
            var ok := freeList.Push(idx);
            assert ok;
            return A_NULL;
          } else {
            ReplaceByChild(idx, tmp, t);
          }
        } else {
          RemoveRoot(idx, t);
        }
      }
      ghost var u := BelowRemoval(t, key);
      SetHeight(idx, u);
      r := FixRemoveAt(idx, u);
    }

    // Appends the transforms of the matching entries below idx to list, in pre-order
    method FindMatchingBelow<R>(idx: int, accept: (int, D) -> bool, transform: (int, D) -> R, list: seq<R>,
                                ghost t: Tree<D>) returns (list': seq<R>)
      requires idx == RootSlot(t) && Stored(nodes[..], t)
      ensures list' == list + Matching(PreOrder(t), accept, transform)
      decreases t
    {
      hide Matching;
      if idx < 0 {
        MatchingNothing(accept, transform);
        return list;
      }
      hide PreOrder;
      StoredParts(nodes[..], t);
      list' := list;
      if accept(nodes[idx].key, nodes[idx].data) {
        list' := list' + [transform(nodes[idx].key, nodes[idx].data)];
      }
      list' := FindMatchingBelow(nodes[idx].left, accept, transform, list', t.left);
      list' := FindMatchingBelow(nodes[idx].right, accept, transform, list', t.right);
      MatchingPreOrder(t, accept, transform, list);
    }

    // ---------- Public operations ----------

    method LookupIndex(key: int) returns (r: int)
      requires Valid()
      ensures r == A_NULL <==> key !in Model()
      ensures r != A_NULL ==> 0 <= r < nodes.Length && nodes[r].key == key && nodes[r].data == Model()[key]
      ensures r != A_NULL ==> r in Slots(tree)
    {
      r := Lookup(nodes[..], root, key, tree);
      KeysOfMap(tree);
    }

    method IsMember(key: int) returns (b: bool)
      requires Valid()
      ensures b <==> key in Model()
    {
      var r := LookupIndex(key);
      b := r >= 0;
    }

    // The data of a key; None stands for the exception raised for an unknown key
    method LookupData(key: int) returns (r: Option<D>)
      requires Valid()
      ensures r == if key in Model() then Some(Model()[key]) else None
    {
      var idx := LookupIndex(key);
      if idx < 0 {
        return None;
      }
      r := Some(nodes[idx].data);
    }

    // Writes through the reference that a look-up of a present key returns
    method WriteData(key: int, data: D)
      requires Valid() && key in Model()
      modifies this`tree, nodes
      ensures Valid()
      ensures Model() == old(Model())[key := data]
      ensures Slots(tree) == old(Slots(tree)) && Size(tree) == old(Size(tree))
    {
      ghost var s := TreeState();
      ghost var a := nodes[..];
      KeysOfMap(tree);
      OverwriteIsMapUpdate(tree, key, data);
      var idx := Lookup(nodes[..], root, key, tree);
      nodes[idx] := nodes[idx].(data := data);
      WrittenInPlace(a, nodes[..], tree, key, data);
      tree := Overwrite(tree, key, data);
      assert TreeState() == s.(tree := tree);
    }

    method Insert(key: int, data: D)
      requires Valid()
      modifies this, nodes, freeList
      ensures Valid()
      ensures TreeState() == Step(nodes.Length, old(TreeState()), OpInsert(key, data))
      ensures Model() == MapStep(nodes.Length, old(Model()), OpInsert(key, data))
    {
      StepIsMapStep(nodes.Length, TreeState(), OpInsert(key, data));
      if numberElements < nodes.Length {
        assert freeList.Contents()[0] in freeList.Contents();
        InsertWellFormed(tree, key, data, freeList.Contents()[0]);
        ghost var u := Inserted(tree, key, data, freeList.Contents()[0]);
        root := InsertAt(root, key, data, tree);
        tree := u;
      }
    }

    method Remove(key: int)
      requires Valid()
      modifies this, nodes, freeList, freeList.ring
      ensures Valid()
      ensures TreeState() == Step(nodes.Length, old(TreeState()), OpRemove(key))
      ensures Model() == MapStep(nodes.Length, old(Model()), OpRemove(key)) == old(Model()) - {key}
    {
      StepIsMapStep(nodes.Length, TreeState(), OpRemove(key));
      if key in Keys(tree) {
        RemoveWellFormed(tree, key);
      } else {
        RemoveAbsent(tree, key);
      }
      ghost var u := Removed(tree, key);
      root := RemoveAt(root, key, true, tree);
      tree := u;
    }

    method FindMatchingData<R>(accept: (int, D) -> bool, transform: (int, D) -> R) returns (list: seq<R>)
      requires Valid()
      ensures list == Matching(PreOrder(tree), accept, transform)
    {
      list := FindMatchingBelow(root, accept, transform, [], tree);
    }
  }
}
