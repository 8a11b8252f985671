/**
 The mathematical tree behind the array-based AVL tree. Every node carries the array slot it lives in, so
 that a statement about the tree is also a statement about which array entries are in use.

 The functions below say what the in-place operations of the array do to that tree; the lemmas say what
 those operations mean: the map they denote, the order of the keys, the balance, and the slots in use.
 */
module AvlTree {
  import opened Wrappers

  datatype Tree<D> = Nil | Node(slot: nat, left: Tree<D>, key: int, data: D, right: Tree<D>)

  // ---------- Meaning ----------

  function RootSlot<D>(t: Tree<D>): int {
    if t.Nil? then -1 else t.slot
  }

  function Keys<D>(t: Tree<D>): set<int> {
    match t
    case Nil => {}
    case Node(_, l, k, _, r) => Keys(l) + {k} + Keys(r)
  }

  // The data found by searching for key
  function Get<D>(t: Tree<D>, key: int): Option<D> {
    match t
    case Nil => None
    case Node(_, l, k, d, r) => if key == k then Some(d) else if key < k then Get(l, key) else Get(r, key)
  }

  // The map an ordered tree denotes
  function MapOf<D>(t: Tree<D>): map<int, D> {
    map k | k in Keys(t) && Get(t, k).Some? :: Get(t, k).value
  }

  function Slots<D>(t: Tree<D>): set<nat> {
    match t
    case Nil => {}
    case Node(s, l, _, _, r) => Slots(l) + {s} + Slots(r)
  }

  function Size<D>(t: Tree<D>): nat {
    match t
    case Nil => 0
    case Node(_, l, _, _, r) => 1 + Size(l) + Size(r)
  }

  function Max(a: int, b: int): int {
    if a < b then b else a
  }

  function Height<D>(t: Tree<D>): nat {
    match t
    case Nil => 0
    case Node(_, l, _, _, r) => 1 + Max(Height(l), Height(r))
  }

  function Balance<D>(t: Tree<D>): int {
    match t
    case Nil => 0
    case Node(_, l, _, _, r) => Height(l) - Height(r)
  }

  // Every key of the left sub-tree is smaller, every key of the right sub-tree is larger
  ghost predicate Ordered<D>(t: Tree<D>) {
    match t
    case Nil => true
    case Node(_, l, k, _, r) =>
      && Ordered(l) && Ordered(r)
      && (forall x :: x in Keys(l) ==> x < k)
      && (forall x :: x in Keys(r) ==> k < x)
  }

  ghost predicate Balanced<D>(t: Tree<D>) {
    match t
    case Nil => true
    case Node(_, l, _, _, r) => -1 <= Balance(t) <= 1 && Balanced(l) && Balanced(r)
  }

  // No array entry is used twice
  ghost predicate DistinctSlots<D>(t: Tree<D>) {
    match t
    case Nil => true
    case Node(s, l, _, _, r) =>
      && s !in Slots(l) && s !in Slots(r) && Slots(l) !! Slots(r)
      && DistinctSlots(l) && DistinctSlots(r)
  }

  ghost predicate WellFormed<D>(t: Tree<D>) {
    Ordered(t) && Balanced(t) && DistinctSlots(t)
  }

  // ---------- Rotations: the root keeps its slot, keys and data move ----------

  function RotateRight<D>(t: Tree<D>): Tree<D> {
    match t
    case Node(y, Node(x, ll, lk, ld, lr), k, d, r) => Node(y, ll, lk, ld, Node(x, lr, k, d, r))
    case _ => t
  }

  function RotateLeft<D>(t: Tree<D>): Tree<D> {
    match t
    case Node(x, l, k, d, Node(y, rl, rk, rd, rr)) => Node(x, Node(y, l, k, d, rl), rk, rd, rr)
    case _ => t
  }

  // Two ordered trees that denote the same map
  ghost predicate SameMap<D>(t: Tree<D>, u: Tree<D>) {
    Keys(t) == Keys(u) && forall k :: Get(t, k) == Get(u, k)
  }

  lemma KeysSplit<D>(t: Tree<D>, key: int)
    requires t.Node? && Ordered(t)
    ensures key < t.key ==> (key in Keys(t) <==> key in Keys(t.left)) && key !in Keys(t.right)
    ensures key > t.key ==> (key in Keys(t) <==> key in Keys(t.right)) && key !in Keys(t.left)
  {
  }

  lemma {:induction false} GetInKeys<D>(t: Tree<D>, key: int)
    requires Ordered(t)
    ensures key in Keys(t) <==> Get(t, key).Some?
  {
    if t.Node? {
      GetInKeys(t.left, key);
      GetInKeys(t.right, key);
    }
  }

  lemma RotateRightKeeps<D>(t: Tree<D>)
    requires t.Node? && t.left.Node? && Ordered(t)
    ensures Ordered(RotateRight(t)) && SameMap(RotateRight(t), t)
  {
    var Node(y, Node(x, ll, lk, ld, lr), k, d, r) := t;
    assert lk in Keys(t.left);
    assert forall z :: z in Keys(lr) ==> z in Keys(t.left);
    assert Keys(RotateRight(t)) == Keys(t);
    assert Ordered(Node(x, lr, k, d, r));
  }

  lemma RotateLeftKeeps<D>(t: Tree<D>)
    requires t.Node? && t.right.Node? && Ordered(t)
    ensures Ordered(RotateLeft(t)) && SameMap(RotateLeft(t), t)
  {
    var Node(x, l, k, d, Node(y, rl, rk, rd, rr)) := t;
    assert rk in Keys(t.right);
    assert forall z :: z in Keys(rl) ==> z in Keys(t.right);
    assert Keys(RotateLeft(t)) == Keys(t);
    assert Ordered(Node(y, l, k, d, rl));
  }

  lemma RotateRightSlots<D>(t: Tree<D>)
    ensures Slots(RotateRight(t)) == Slots(t)
    ensures DistinctSlots(t) ==> DistinctSlots(RotateRight(t))
    ensures RootSlot(RotateRight(t)) == RootSlot(t)
  {
    match t
    case Node(y, Node(x, ll, lk, ld, lr), k, d, r) =>
      assert Slots(t.left) == Slots(ll) + {x} + Slots(lr);
      assert Slots(RotateRight(t)) == Slots(t);
      if DistinctSlots(t) {
        assert DistinctSlots(t.left);
        assert DistinctSlots(Node(x, lr, k, d, r));
      }
    case _ =>
  }

  lemma RotateLeftSlots<D>(t: Tree<D>)
    ensures Slots(RotateLeft(t)) == Slots(t)
    ensures DistinctSlots(t) ==> DistinctSlots(RotateLeft(t))
    ensures RootSlot(RotateLeft(t)) == RootSlot(t)
  {
    match t
    case Node(x, l, k, d, Node(y, rl, rk, rd, rr)) =>
      assert Slots(t.right) == Slots(rl) + {y} + Slots(rr);
      assert Slots(RotateLeft(t)) == Slots(t);
      if DistinctSlots(t) {
        assert DistinctSlots(t.right);
        assert DistinctSlots(Node(y, l, k, d, rl));
      }
    case _ =>
  }

  // ---------- Insertion ----------

  // Re-balancing after an insertion of key somewhere below the root of t
  function FixInsert<D>(t: Tree<D>, key: int): Tree<D>
    requires t.Node?
  {
    if Balance(t) > 1 && t.left.Node? && key < t.left.key then
      RotateRight(t)
    else if Balance(t) < -1 && t.right.Node? && key > t.right.key then
      RotateLeft(t)
    else if Balance(t) > 1 && t.left.Node? && key > t.left.key then
      RotateRight(t.(left := RotateLeft(t.left)))
    else if Balance(t) < -1 && t.right.Node? && key < t.right.key then
      RotateLeft(t.(right := RotateRight(t.right)))
    else
      t
  }

  // The tree after an insertion; a new key is stored in slot spare
  function Inserted<D>(t: Tree<D>, key: int, data: D, spare: nat): Tree<D> {
    match t
    case Nil => Node(spare, Nil, key, data, Nil)
    case Node(_, l, k, _, r) =>
      if key < k then
        FixInsert(t.(left := Inserted(l, key, data, spare)), key)
      else if key > k then
        FixInsert(t.(right := Inserted(r, key, data, spare)), key)
      else
        t.(data := data)
  }

  lemma ReplaceLeft<D>(t: Tree<D>, l: Tree<D>)
    requires t.Node? && Ordered(t) && SameMap(l, t.left) && Ordered(l)
    ensures Ordered(t.(left := l)) && SameMap(t.(left := l), t)
  {
    assert Keys(t.(left := l)) == Keys(t);
  }

  lemma ReplaceRight<D>(t: Tree<D>, r: Tree<D>)
    requires t.Node? && Ordered(t) && SameMap(r, t.right) && Ordered(r)
    ensures Ordered(t.(right := r)) && SameMap(t.(right := r), t)
  {
    assert Keys(t.(right := r)) == Keys(t);
  }

  lemma RotateLeftRightKeeps<D>(t: Tree<D>)
    requires t.Node? && t.left.Node? && Ordered(t)
    ensures var u := RotateRight(t.(left := RotateLeft(t.left))); Ordered(u) && SameMap(u, t)
  {
    if t.left.right.Node? {
      RotateLeftKeeps(t.left);
    }
    ReplaceLeft(t, RotateLeft(t.left));
    RotateRightKeeps(t.(left := RotateLeft(t.left)));
  }

  lemma RotateRightLeftKeeps<D>(t: Tree<D>)
    requires t.Node? && t.right.Node? && Ordered(t)
    ensures var u := RotateLeft(t.(right := RotateRight(t.right))); Ordered(u) && SameMap(u, t)
  {
    if t.right.left.Node? {
      RotateRightKeeps(t.right);
    }
    ReplaceRight(t, RotateRight(t.right));
    RotateLeftKeeps(t.(right := RotateRight(t.right)));
  }

  lemma FixInsertKeeps<D>(t: Tree<D>, key: int)
    requires t.Node? && Ordered(t)
    ensures Ordered(FixInsert(t, key)) && SameMap(FixInsert(t, key), t)
  {
    if t.left.Node? {
      RotateRightKeeps(t);
      RotateLeftRightKeeps(t);
    }
    if t.right.Node? {
      RotateLeftKeeps(t);
      RotateRightLeftKeeps(t);
    }
  }

  // An insertion keeps the search order, adds the key, and changes what is found under that key only
  lemma {:induction false} InsertGet<D>(t: Tree<D>, key: int, data: D, spare: nat)
    requires Ordered(t)
    ensures Ordered(Inserted(t, key, data, spare))
    ensures Keys(Inserted(t, key, data, spare)) == Keys(t) + {key}
    ensures forall k :: Get(Inserted(t, key, data, spare), k) == if k == key then Some(data) else Get(t, k)
  {
    match t
    case Nil =>
    case Node(_, l, k, _, r) =>
      if key < k {
        InsertGet(l, key, data, spare);
        var u := t.(left := Inserted(l, key, data, spare));
        assert Ordered(u) && Keys(u) == Keys(t) + {key};
        assert forall x :: Get(u, x) == if x == key then Some(data) else Get(t, x);
        FixInsertKeeps(u, key);
      } else if key > k {
        InsertGet(r, key, data, spare);
        var u := t.(right := Inserted(r, key, data, spare));
        assert Ordered(u) && Keys(u) == Keys(t) + {key};
        assert forall x :: Get(u, x) == if x == key then Some(data) else Get(t, x);
        FixInsertKeeps(u, key);
      }
  }

  // An insertion is a map update
  lemma InsertIsMapUpdate<D>(t: Tree<D>, key: int, data: D, spare: nat)
    requires Ordered(t)
    ensures MapOf(Inserted(t, key, data, spare)) == MapOf(t)[key := data]
  {
    InsertGet(t, key, data, spare);
    forall k ensures k in Keys(t) <==> Get(t, k).Some? {
      GetInKeys(t, k);
    }
  }

  lemma FixInsertSlots<D>(t: Tree<D>, key: int)
    requires t.Node?
    ensures Slots(FixInsert(t, key)) == Slots(t)
    ensures DistinctSlots(t) ==> DistinctSlots(FixInsert(t, key))
    ensures RootSlot(FixInsert(t, key)) == RootSlot(t)
  {
    RotateRightSlots(t);
    RotateLeftSlots(t);
    RotateLeftSlots(t.left);
    RotateRightSlots(t.right);
    RotateRightSlots(t.(left := RotateLeft(t.left)));
    RotateLeftSlots(t.(right := RotateRight(t.right)));
  }

  // An insertion uses the spare slot exactly when the key is new, and no other slot changes hands
  lemma {:induction false} InsertSlots<D>(t: Tree<D>, key: int, data: D, spare: nat)
    requires Ordered(t) && DistinctSlots(t) && spare !in Slots(t)
    ensures DistinctSlots(Inserted(t, key, data, spare))
    ensures Slots(Inserted(t, key, data, spare)) == Slots(t) + (if key in Keys(t) then {} else {spare})
    ensures t.Node? ==> RootSlot(Inserted(t, key, data, spare)) == RootSlot(t)
  {
    match t
    case Nil =>
    case Node(_, l, k, _, r) =>
      if key < k {
        InsertSlots(l, key, data, spare);
        FixInsertSlots(t.(left := Inserted(l, key, data, spare)), key);
      } else if key > k {
        InsertSlots(r, key, data, spare);
        FixInsertSlots(t.(right := Inserted(r, key, data, spare)), key);
      }
  }

  lemma NodeHeight<D>(s: nat, l: Tree<D>, k: int, d: D, r: Tree<D>)
    ensures Height(Node(s, l, k, d, r)) == 1 + Max(Height(l), Height(r))
    ensures Balance(Node(s, l, k, d, r)) == Height(l) - Height(r)
    ensures Balanced(Node(s, l, k, d, r)) <==> -1 <= Height(l) - Height(r) <= 1 && Balanced(l) && Balanced(r)
  {
  }

  lemma SingleRight<D>(t: Tree<D>)
    requires t.Node? && Balance(t) == 2 && Balanced(t.left) && Balanced(t.right) && Balance(t.left) >= 0
    ensures t.left.Node? && Balanced(RotateRight(t))
    ensures Height(RotateRight(t)) == (if Balance(t.left) == 0 then Height(t) else Height(t) - 1)
  {
    var Node(y, Node(x, ll, lk, ld, lr), k, d, r) := t;
    NodeHeight(x, ll, lk, ld, lr);
    NodeHeight(x, lr, k, d, r);
    NodeHeight(y, ll, lk, ld, Node(x, lr, k, d, r));
  }

  lemma SingleLeft<D>(t: Tree<D>)
    requires t.Node? && Balance(t) == -2 && Balanced(t.left) && Balanced(t.right) && Balance(t.right) <= 0
    ensures t.right.Node? && Balanced(RotateLeft(t))
    ensures Height(RotateLeft(t)) == (if Balance(t.right) == 0 then Height(t) else Height(t) - 1)
  {
    var Node(x, l, k, d, Node(y, rl, rk, rd, rr)) := t;
    NodeHeight(y, rl, rk, rd, rr);
    NodeHeight(y, l, k, d, rl);
    NodeHeight(x, Node(y, l, k, d, rl), rk, rd, rr);
  }

  lemma DoubleRight<D>(t: Tree<D>)
    requires t.Node? && Balance(t) == 2 && Balanced(t.left) && Balanced(t.right) && Balance(t.left) < 0
    ensures t.left.Node? && t.left.right.Node?
    ensures var u := RotateRight(t.(left := RotateLeft(t.left))); Balanced(u) && Height(u) == Height(t) - 1
  {
    var Node(y, Node(x, ll, lk, ld, lr), k, d, r) := t;
    NodeHeight(x, ll, lk, ld, lr);
    var Node(z, a, zk, zd, b) := lr;
    NodeHeight(z, a, zk, zd, b);
    assert t.(left := RotateLeft(t.left)) == Node(y, Node(x, Node(z, ll, lk, ld, a), zk, zd, b), k, d, r);
    NodeHeight(z, ll, lk, ld, a);
    NodeHeight(x, b, k, d, r);
    NodeHeight(y, Node(z, ll, lk, ld, a), zk, zd, Node(x, b, k, d, r));
  }

  lemma DoubleLeft<D>(t: Tree<D>)
    requires t.Node? && Balance(t) == -2 && Balanced(t.left) && Balanced(t.right) && Balance(t.right) > 0
    ensures t.right.Node? && t.right.left.Node?
    ensures var u := RotateLeft(t.(right := RotateRight(t.right))); Balanced(u) && Height(u) == Height(t) - 1
  {
    var Node(x, l, k, d, Node(y, rl, rk, rd, rr)) := t;
    NodeHeight(y, rl, rk, rd, rr);
    var Node(z, a, zk, zd, b) := rl;
    NodeHeight(z, a, zk, zd, b);
    assert t.(right := RotateRight(t.right)) == Node(x, l, k, d, Node(y, a, zk, zd, Node(z, b, rk, rd, rr)));
    NodeHeight(z, b, rk, rd, rr);
    NodeHeight(y, l, k, d, a);
    NodeHeight(x, Node(y, l, k, d, a), zk, zd, Node(z, b, rk, rd, rr));
  }

  // What an insertion of key has done to a balanced tree t to give u: it grew by at most one level, and if a
  // non-empty tree grew it kept its root key and leans towards the inserted key. This is why the comparison
  // with the child's key, one level up, picks the right rotation.
  ghost predicate GrewTowards<D>(t: Tree<D>, u: Tree<D>, key: int) {
    && Balanced(u)
    && u.Node?
    && Height(t) <= Height(u) <= Height(t) + 1
    && (t.Node? && Height(u) == Height(t) + 1 ==>
          && key != u.key
          && (key < u.key ==> Balance(u) == 1)
          && (key > u.key ==> Balance(u) == -1))
    && (t.Nil? ==> u.key == key)
  }

  lemma FixInsertLeft<D>(t: Tree<D>, l: Tree<D>, key: int)
    requires t.Node? && Balanced(t) && GrewTowards(t.left, l, key) && key < t.key
    ensures GrewTowards(t, FixInsert(t.(left := l), key), key)
  {
    var u := t.(left := l);
    if Balance(u) == 2 {
      if Balance(l) >= 0 {
        SingleRight(u);
      } else {
        DoubleRight(u);
      }
    }
  }

  lemma FixInsertRight<D>(t: Tree<D>, r: Tree<D>, key: int)
    requires t.Node? && Balanced(t) && GrewTowards(t.right, r, key) && key > t.key
    ensures GrewTowards(t, FixInsert(t.(right := r), key), key)
  {
    var u := t.(right := r);
    if Balance(u) == -2 {
      if Balance(r) <= 0 {
        SingleLeft(u);
      } else {
        DoubleLeft(u);
      }
    }
  }

  // The grandchild a double rotation needs is there
  lemma DoubleRotationApplies<D>(t: Tree<D>, u: Tree<D>, key: int)
    requires t.Node? && Balanced(t) && u.Node?
    requires (key < t.key && GrewTowards(t.left, u.left, key) && u.right == t.right)
          || (key > t.key && GrewTowards(t.right, u.right, key) && u.left == t.left)
    ensures Balance(u) > 1 && u.left.Node? && key > u.left.key ==> u.left.right.Node?
    ensures Balance(u) < -1 && u.right.Node? && key < u.right.key ==> u.right.left.Node?
  {
  }

  // An insertion keeps the tree balanced
  lemma {:induction false} InsertStaysBalanced<D>(t: Tree<D>, key: int, data: D, spare: nat)
    requires Balanced(t)
    ensures GrewTowards(t, Inserted(t, key, data, spare), key)
  {
    match t
    case Nil =>
    case Node(_, l, k, _, r) =>
      if key < k {
        InsertStaysBalanced(l, key, data, spare);
        FixInsertLeft(t, Inserted(l, key, data, spare), key);
      } else if key > k {
        InsertStaysBalanced(r, key, data, spare);
        FixInsertRight(t, Inserted(r, key, data, spare), key);
      }
  }

  // ---------- Removal ----------

  // The smallest key of a non-empty tree with its data, found by following the left links
  function MinNode<D>(t: Tree<D>): (m: Tree<D>)
    requires t.Node?
    ensures m.Node?
  {
    if t.left.Nil? then t else MinNode(t.left)
  }

  // Re-balancing after a removal somewhere below the root of t
  function FixRemove<D>(t: Tree<D>): Tree<D>
    requires t.Node?
  {
    if Balance(t) > 1 && Balance(t.left) >= 0 then
      RotateRight(t)
    else if Balance(t) > 1 && Balance(t.left) < 0 then
      RotateRight(t.(left := RotateLeft(t.left)))
    else if Balance(t) < -1 && Balance(t.right) <= 0 then
      RotateLeft(t)
    else if Balance(t) < -1 && Balance(t.right) > 0 then
      RotateLeft(t.(right := RotateRight(t.right)))
    else
      t
  }

  function Removed<D>(t: Tree<D>, key: int): Tree<D> {
    match t
    case Nil => Nil
    case Node(s, l, k, _, r) =>
      if key < k then
        FixRemove(t.(left := Removed(l, key)))
      else if key > k then
        FixRemove(t.(right := Removed(r, key)))
      else if l.Nil? && r.Nil? then
        Nil
      else if l.Nil? || r.Nil? then
        FixRemove((if l.Node? then l else r).(slot := s))
      else
        var m := MinNode(r);
        FixRemove(t.(key := m.key, data := m.data, right := Removed(r, m.key)))
  }

  // The slot a removal gives back
  function FreedSlot<D>(t: Tree<D>, key: int): nat
    requires Ordered(t) && key in Keys(t)
  {
    var Node(s, l, k, _, r) := t;
    KeysSplit(t, key);
    if key < k then
      FreedSlot(l, key)
    else if key > k then
      FreedSlot(r, key)
    else if l.Nil? || r.Nil? then
      if l.Node? then l.slot else if r.Node? then r.slot else s
    else
      MinNodeIsLeast(r);
      FreedSlot(r, MinNode(r).key)
  }

  lemma {:induction false} MinNodeIsLeast<D>(t: Tree<D>)
    requires t.Node? && Ordered(t)
    ensures var m := MinNode(t);
            && m.left.Nil? && m.key in Keys(t) && Get(t, m.key) == Some(m.data)
            && m.slot in Slots(t)
            && forall x :: x in Keys(t) ==> m.key <= x
  {
    if t.left.Node? {
      MinNodeIsLeast(t.left);
      assert t.left.key in Keys(t.left);
    }
  }

  lemma FixRemoveKeeps<D>(t: Tree<D>)
    requires t.Node? && Ordered(t)
    ensures Ordered(FixRemove(t)) && SameMap(FixRemove(t), t)
  {
    if t.left.Node? {
      RotateRightKeeps(t);
      RotateLeftRightKeeps(t);
    }
    if t.right.Node? {
      RotateLeftKeeps(t);
      RotateRightLeftKeeps(t);
    }
  }

  // A removal keeps the search order, removes the key, and changes what is found under that key only
  lemma {:induction false} RemoveGet<D>(t: Tree<D>, key: int)
    requires Ordered(t)
    ensures Ordered(Removed(t, key))
    ensures Keys(Removed(t, key)) == Keys(t) - {key}
    ensures forall k :: Get(Removed(t, key), k) == if k == key then None else Get(t, k)
    decreases t, 1
  {
    match t
    case Nil =>
    case Node(s, l, k, _, r) =>
      if key < k {
        RemoveGet(l, key);
        var u := t.(left := Removed(l, key));
        assert Ordered(u) && Keys(u) == Keys(t) - {key};
        assert forall x :: Get(u, x) == if x == key then None else Get(t, x);
        FixRemoveKeeps(u);
      } else if key > k {
        RemoveGet(r, key);
        var u := t.(right := Removed(r, key));
        assert Ordered(u) && Keys(u) == Keys(t) - {key};
        assert forall x :: Get(u, x) == if x == key then None else Get(t, x);
        FixRemoveKeeps(u);
      } else {
        RemoveRootGet(t);
      }
  }

  lemma {:induction false} RemoveRootGet<D>(t: Tree<D>)
    requires t.Node? && Ordered(t)
    ensures Ordered(Removed(t, t.key))
    ensures Keys(Removed(t, t.key)) == Keys(t) - {t.key}
    ensures forall k :: Get(Removed(t, t.key), k) == if k == t.key then None else Get(t, k)
    decreases t, 0
  {
    var Node(s, l, k, _, r) := t;
    forall x ensures x in Keys(l) <==> Get(l, x).Some? {
      GetInKeys(l, x);
    }
    forall x ensures x in Keys(r) <==> Get(r, x).Some? {
      GetInKeys(r, x);
    }
    if l.Nil? || r.Nil? {
      if l.Node? || r.Node? {
        FixRemoveKeeps((if l.Node? then l else r).(slot := s));
      }
    } else {
      var m := MinNode(r);
      MinNodeIsLeast(r);
      RemoveGet(r, m.key);
      var u := t.(key := m.key, data := m.data, right := Removed(r, m.key));
      assert Ordered(u) && Keys(u) == Keys(t) - {k};
      FixRemoveKeeps(u);
    }
  }

  // A removal removes exactly the key from the map
  lemma RemoveIsMapRemoval<D>(t: Tree<D>, key: int)
    requires Ordered(t)
    ensures MapOf(Removed(t, key)) == MapOf(t) - {key}
  {
    RemoveGet(t, key);
  }

  lemma FixRemoveSlots<D>(t: Tree<D>)
    requires t.Node?
    ensures Slots(FixRemove(t)) == Slots(t)
    ensures DistinctSlots(t) ==> DistinctSlots(FixRemove(t))
    ensures RootSlot(FixRemove(t)) == RootSlot(t)
  {
    RotateRightSlots(t);
    RotateLeftSlots(t);
    RotateLeftSlots(t.left);
    RotateRightSlots(t.right);
    RotateRightSlots(t.(left := RotateLeft(t.left)));
    RotateLeftSlots(t.(right := RotateRight(t.right)));
  }

  // A removal of a present key gives back exactly one slot
  lemma {:induction false} RemoveSlots<D>(t: Tree<D>, key: int)
    requires Ordered(t) && DistinctSlots(t) && key in Keys(t)
    ensures FreedSlot(t, key) in Slots(t)
    ensures Slots(Removed(t, key)) == Slots(t) - {FreedSlot(t, key)}
    ensures DistinctSlots(Removed(t, key))
  {
    hide FixRemove;
    var Node(s, l, k, _, r) := t;
    if key < k {
      RemoveSlots(l, key);
      FixRemoveSlots(t.(left := Removed(l, key)));
    } else if key > k {
      RemoveSlots(r, key);
      FixRemoveSlots(t.(right := Removed(r, key)));
    } else if l.Nil? || r.Nil? {
      if l.Node? || r.Node? {
        FixRemoveSlots((if l.Node? then l else r).(slot := s));
      }
    } else {
      MinNodeIsLeast(r);
      RemoveSlots(r, MinNode(r).key);
      RemoveRootSlots(t);
    }
  }

  lemma RemoveRootSlots<D>(t: Tree<D>)
    requires t.Node? && t.left.Node? && t.right.Node? && Ordered(t) && DistinctSlots(t) && MinNode(t.right).key in Keys(t.right)
    requires var k := MinNode(t.right).key;
             && FreedSlot(t.right, k) in Slots(t.right) && DistinctSlots(Removed(t.right, k))
             && Slots(Removed(t.right, k)) == Slots(t.right) - {FreedSlot(t.right, k)}
    ensures t.key in Keys(t) && FreedSlot(t, t.key) in Slots(t)
    ensures Slots(Removed(t, t.key)) == Slots(t) - {FreedSlot(t, t.key)}
    ensures DistinctSlots(Removed(t, t.key))
  {
    hide FixRemove, MinNode;
    var m := MinNode(t.right);
    FixRemoveSlots(t.(key := m.key, data := m.data, right := Removed(t.right, m.key)));
  }

  lemma FixRemoveBalances<D>(t: Tree<D>)
    requires t.Node? && Balanced(t.left) && Balanced(t.right) && -2 <= Balance(t) <= 2
    ensures Balanced(FixRemove(t))
    ensures Height(t) - 1 <= Height(FixRemove(t)) <= Height(t)
    ensures -1 <= Balance(t) <= 1 ==> FixRemove(t) == t
  {
    if Balance(t) == 2 {
      if Balance(t.left) >= 0 {
        SingleRight(t);
      } else {
        DoubleRight(t);
      }
    } else if Balance(t) == -2 {
      if Balance(t.right) <= 0 {
        SingleLeft(t);
      } else {
        DoubleLeft(t);
      }
    }
  }

  lemma FixRemoveStep<D>(t: Tree<D>, u: Tree<D>)
    requires t.Node? && Balanced(t) && u.Node?
    requires (u.right == t.right && Balanced(u.left) && Height(t.left) - 1 <= Height(u.left) <= Height(t.left))
          || (u.left == t.left && Balanced(u.right) && Height(t.right) - 1 <= Height(u.right) <= Height(t.right))
    ensures Balanced(FixRemove(u))
    ensures Height(t) - 1 <= Height(FixRemove(u)) <= Height(t)
  {
    NodeHeight(u.slot, u.left, u.key, u.data, u.right);
    FixRemoveBalances(u);
  }

  // A removal keeps the tree balanced and lowers it by at most one level
  lemma {:induction false} RemoveStaysBalanced<D>(t: Tree<D>, key: int)
    requires Balanced(t)
    ensures Balanced(Removed(t, key))
    ensures Height(t) - 1 <= Height(Removed(t, key)) <= Height(t)
  {
    match t
    case Nil =>
    case Node(s, l, k, _, r) =>
      if key < k {
        RemoveStaysBalanced(l, key);
        FixRemoveStep(t, t.(left := Removed(l, key)));
      } else if key > k {
        RemoveStaysBalanced(r, key);
        FixRemoveStep(t, t.(right := Removed(r, key)));
      } else if l.Nil? || r.Nil? {
        if l.Node? || r.Node? {
          FixRemoveBalances((if l.Node? then l else r).(slot := s));
        }
      } else {
        var m := MinNode(r);
        RemoveStaysBalanced(r, m.key);
        FixRemoveStep(t, t.(key := m.key, data := m.data, right := Removed(r, m.key)));
      }
  }

  // Removing an absent key changes nothing at all
  lemma {:induction false} RemoveAbsent<D>(t: Tree<D>, key: int)
    requires Ordered(t) && Balanced(t) && key !in Keys(t)
    ensures Removed(t, key) == t
  {
    match t
    case Nil =>
    case Node(_, l, k, _, r) =>
      if key < k {
        RemoveAbsent(l, key);
      } else {
        RemoveAbsent(r, key);
      }
  }

  // ---------- Counting ----------

  lemma {:induction false} SizeCounts<D>(t: Tree<D>)
    requires DistinctSlots(t)
    ensures Size(t) == |Slots(t)|
  {
    match t
    case Nil =>
    case Node(s, l, _, _, r) =>
      SizeCounts(l);
      SizeCounts(r);
      assert |Slots(l) + {s}| == |Slots(l)| + 1;
      assert |Slots(l) + {s} + Slots(r)| == |Slots(l) + {s}| + |Slots(r)|;
  }

  lemma {:induction false} SizeCountsKeys<D>(t: Tree<D>)
    requires Ordered(t)
    ensures Size(t) == |Keys(t)|
  {
    match t
    case Nil =>
    case Node(_, l, k, _, r) =>
      SizeCountsKeys(l);
      SizeCountsKeys(r);
      assert |Keys(l) + {k}| == |Keys(l)| + 1;
      forall x | x in Keys(l) + {k} ensures x !in Keys(r) {
        KeysSplit(t, x);
      }
      assert |Keys(l) + {k} + Keys(r)| == |Keys(l) + {k}| + |Keys(r)|;
  }

  lemma InsertSize<D>(t: Tree<D>, u: Tree<D>, key: int)
    requires Ordered(t) && Ordered(u) && Keys(u) == Keys(t) + {key}
    ensures Size(u) == Size(t) + (if key in Keys(t) then 0 else 1)
  {
    SizeCountsKeys(t);
    SizeCountsKeys(u);
    if key in Keys(t) {
      assert Keys(u) == Keys(t);
    }
  }

  lemma InsertWellFormed<D>(t: Tree<D>, key: int, data: D, spare: nat)
    requires WellFormed(t) && spare !in Slots(t)
    ensures WellFormed(Inserted(t, key, data, spare))
    ensures Slots(Inserted(t, key, data, spare)) == Slots(t) + (if key in Keys(t) then {} else {spare})
    ensures Size(Inserted(t, key, data, spare)) == Size(t) + (if key in Keys(t) then 0 else 1)
  {
    assert Ordered(Inserted(t, key, data, spare)) && Keys(Inserted(t, key, data, spare)) == Keys(t) + {key} by {
      InsertGet(t, key, data, spare);
    }
    assert Balanced(Inserted(t, key, data, spare)) by {
      InsertStaysBalanced(t, key, data, spare);
    }
    InsertSlots(t, key, data, spare);
    InsertSize(t, Inserted(t, key, data, spare), key);
  }

  lemma RemoveWellFormed<D>(t: Tree<D>, key: int)
    requires WellFormed(t) && key in Keys(t)
    ensures WellFormed(Removed(t, key))
    ensures FreedSlot(t, key) in Slots(t)
    ensures Slots(Removed(t, key)) == Slots(t) - {FreedSlot(t, key)}
    ensures Size(Removed(t, key)) == Size(t) - 1
  {
    RemoveGet(t, key);
    RemoveSlots(t, key);
    RemoveStaysBalanced(t, key);
    SizeCountsKeys(t);
    SizeCountsKeys(Removed(t, key));
  }

  // ---------- Logarithmic height ----------

  function Fib(n: nat): nat {
    if n < 2 then n else Fib(n - 2) + Fib(n - 1)
  }

  lemma {:induction false} FibMonotone(m: nat, n: nat)
    requires m <= n
    ensures Fib(m) <= Fib(n)
    decreases n
  {
    if m < n {
      FibMonotone(m, n - 1);
    }
  }

  // A balanced tree of height h has at least Fib(h + 2) - 1 nodes
  lemma {:induction false} BalancedTreesAreBushy<D>(t: Tree<D>)
    requires Balanced(t)
    ensures Size(t) >= Fib(Height(t) + 2) - 1
  {
    if t.Nil? {
      assert Fib(2) == 1;
    } else {
      BalancedTreesAreBushy(t.left);
      BalancedTreesAreBushy(t.right);
      BushyNode(Height(t), Height(t.left), Height(t.right));
    }
  }

  lemma BushyNode(h: nat, hl: nat, hr: nat)
    requires h == 1 + Max(hl, hr) && -1 <= hl - hr <= 1
    ensures Fib(hl + 2) + Fib(hr + 2) >= Fib(h + 2)
  {
    FibMonotone(h, if hl < hr then hl + 2 else hr + 2);
    assert Fib(h + 2) == Fib(h) + Fib(h + 1);
  }

  lemma Fib17()
    ensures Fib(17) == 1597
  {
    assert Fib(2) == 1 && Fib(3) == 2;
    assert Fib(4) == 3 && Fib(5) == 5;
    assert Fib(6) == 8 && Fib(7) == 13;
    assert Fib(8) == 21 && Fib(9) == 34;
    assert Fib(10) == 55 && Fib(11) == 89;
    assert Fib(12) == 144 && Fib(13) == 233;
    assert Fib(14) == 377 && Fib(15) == 610;
    assert Fib(16) == 987;
  }

  // The 1000-neighbour store never looks deeper than 14 levels
  lemma HeightOfThousand<D>(t: Tree<D>)
    requires Balanced(t) && Size(t) <= 1000
    ensures Height(t) <= 14
  {
    if Height(t) >= 15 {
      BalancedTreesAreBushy(t);
      FibMonotone(17, Height(t) + 2);
      Fib17();
    }
  }
}
