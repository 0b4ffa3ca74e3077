/** The IAVL tree with every child in memory: what `trees/src/iavl/tree.rs` computes once the
    question of which nodes are loaded is set aside. Heights and sizes are the cached ones. */
module AvlTree {
  import opened Bytes
  import opened Options
  import opened SortedItems

  datatype Tree =
    | Leaf(key: bytes, value: bytes, version: nat)
    | Inner(key: bytes, height: nat, size: nat, version: nat, left: Tree, right: Tree)

  function Height(t: Tree): nat {
    if t.Leaf? then 0 else t.height
  }

  function Size(t: Tree): nat {
    if t.Leaf? then 1 else t.size
  }

  function Max(a: nat, b: nat): nat {
    if a < b then b else a
  }

  /** `get_balance_factor` */
  function BalanceFactor(t: Tree): int {
    if t.Leaf? then 0 else Height(t.left) - Height(t.right)
  }

  /** `leftmost_leaf_key` */
  function FirstKey(t: Tree): bytes {
    if t.Leaf? then t.key else FirstKey(t.left)
  }

  /** The leaves from left to right. */
  ghost function Items(t: Tree): (s: seq<Item>)
    ensures s != [] && s[0].key == FirstKey(t)
  {
    if t.Leaf? then [Item(t.key, t.value)] else Items(t.left) + Items(t.right)
  }

  ghost function Contents(t: Option<Tree>): map<bytes, bytes> {
    if t.None? then map[] else ToMap(Items(t.value))
  }

  // ---------- the operations ----------

  /** The node with height and size recomputed from its children, stamped with a version. */
  function Refreshed(t: Tree, version: nat): Tree
    requires t.Inner?
  {
    Inner(t.key, 1 + Max(Height(t.left), Height(t.right)), Size(t.left) + Size(t.right), version, t.left, t.right)
  }

  /** `right_rotate`, on a node it succeeds for. */
  function RotateRight(z: Tree, version: nat): Tree
    requires z.Inner? && z.left.Inner?
  {
    var y := z.left;
    var lower := Refreshed(z.(left := y.right), version);
    Refreshed(y.(right := lower), version)
  }

  /** `left_rotate`, on a node it succeeds for. */
  function RotateLeft(z: Tree, version: nat): Tree
    requires z.Inner? && z.right.Inner?
  {
    var y := z.right;
    var lower := Refreshed(z.(right := y.left), version);
    Refreshed(y.(left := lower), version)
  }

  predicate CanRotateRight(z: Tree) {
    z.Inner? && z.left.Inner?
  }

  predicate CanRotateLeft(z: Tree) {
    z.Inner? && z.right.Inner?
  }

  function RotateLeftRight(n: Tree, version: nat): Option<Tree>
    requires n.Inner?
  {
    if !CanRotateLeft(n.left) then None
    else Some(RotateRight(n.(left := RotateLeft(n.left, version)), version))
  }

  function RotateRightLeft(n: Tree, version: nat): Option<Tree>
    requires n.Inner?
  {
    if !CanRotateRight(n.right) then None
    else Some(RotateLeft(n.(right := RotateRight(n.right, version)), version))
  }

  /** The four cases after an insertion below `t`. */
  function SetBalance(t: Tree, k: bytes, version: nat): Option<Tree>
    requires t.Inner?
  {
    var n := Refreshed(t, version);
    if BalanceFactor(n) > 1 then
      if Less(k, n.left.key) then
        if CanRotateRight(n) then Some(RotateRight(n, version)) else None
      else
        RotateLeftRight(n, version)
    else if BalanceFactor(n) < -1 then
      if Less(n.right.key, k) then
        if CanRotateLeft(n) then Some(RotateLeft(n, version)) else None
      else
        RotateRightLeft(n, version)
    else Some(n)
  }

  /** `recursive_set`, `None` where a rotation would have nothing to rotate and `expect` panics. */
  function SetNode(t: Tree, k: bytes, v: bytes, version: nat): Option<Tree> {
    match t
    case Leaf(key, _, _) =>
      if Less(k, key) then Some(Inner(key, 1, 2, version, Leaf(k, v, version), t))
      else if k == key then Some(Leaf(key, v, version))
      else Some(Inner(k, 1, 2, version, t, Leaf(k, v, version)))
    case Inner(key, _, _, _, left, right) =>
      var child := SetNode(if Less(k, key) then left else right, k, v, version);
      if child.None? then None
      else SetBalance(if Less(k, key) then t.(left := child.value) else t.(right := child.value), k, version)
  }

  /** `update_height_and_size_and_balance`, `None` for a failed rotation or a balance factor
      outside -2..2. */
  function Rebalance(t: Tree, version: nat): Option<Tree> {
    if t.Leaf? then Some(t)
    else
      var n := Refreshed(t, t.version);
      if BalanceFactor(n) == -2 then
        if BalanceFactor(n.right) <= 0 then
          if CanRotateLeft(n) then Some(RotateLeft(n, version)) else None
        else RotateRightLeft(n, version)
      else if BalanceFactor(n) == 2 then
        if BalanceFactor(n.left) >= 0 then
          if CanRotateRight(n) then Some(RotateRight(n, version)) else None
        else RotateLeftRight(n, version)
      else if -1 <= BalanceFactor(n) <= 1 then Some(n)
      else None
  }

  /** The outcome of `recursive_remove`: nothing found, the node itself was the leaf to cut,
      or the subtree that takes the node's place and its new leftmost key if that changed. */
  datatype Removal =
    | Absent
    | Cut(value: bytes)
    | Removed(value: bytes, node: Tree, newKey: Option<bytes>)
    | Panic

  function RemoveNode(t: Tree, k: bytes, version: nat): Removal {
    match t
    case Leaf(key, value, _) => if key != k then Absent else Cut(value)
    case Inner(key, _, _, _, left, right) =>
      if Less(k, key) then
        match RemoveNode(left, k, version)
        case Absent => Absent
        case Panic => Panic
        case Cut(value) => Removed(value, right, Some(FirstKey(right)))
        case Removed(value, node, newKey) =>
          var r := Rebalance(t.(version := version, left := node), version);
          if r.None? then Panic else Removed(value, r.value, newKey)
      else
        match RemoveNode(right, k, version)
        case Absent => Absent
        case Panic => Panic
        case Cut(value) => Removed(value, left, None)
        case Removed(value, node, newKey) =>
          var routing := if newKey.Some? then newKey.value else key;
          var r := Rebalance(t.(version := version, right := node, key := routing), version);
          if r.None? then Panic else Removed(value, r.value, None)
  }

  /** `get_`: the leaf the routing keys lead to. */
  function Get(t: Tree, k: bytes): Option<bytes> {
    match t
    case Leaf(key, value, _) => if key == k then Some(value) else None
    case Inner(key, _, _, _, left, right) => if Less(k, key) then Get(left, k) else Get(right, k)
  }

  // ---------- what a tree has to satisfy ----------

  /** Every routing key is the smallest leaf key of the right subtree. */
  ghost predicate Routed(t: Tree) {
    t.Inner? ==> t.key == FirstKey(t.right) && Routed(t.left) && Routed(t.right)
  }

  /** Cached heights and sizes are right and siblings' heights differ by at most one. */
  ghost predicate Balanced(t: Tree) {
    t.Inner? ==>
      && Balanced(t.left) && Balanced(t.right)
      && t == Refreshed(t, t.version)
      && -1 <= BalanceFactor(t) <= 1
  }

  /** No node is newer than its parent, and none newer than `newest`. */
  ghost predicate Versioned(t: Tree, newest: nat) {
    && t.version <= newest
    && (t.Inner? ==> Versioned(t.left, t.version) && Versioned(t.right, t.version))
  }

  ghost predicate Valid(t: Tree) {
    Sorted(Items(t)) && Routed(t) && Balanced(t)
  }

  lemma ValidChildren(t: Tree)
    requires Valid(t) && t.Inner?
    ensures Valid(t.left) && Valid(t.right)
    ensures AllBelow(Items(t.left), t.key) && AllFrom(Items(t.right), t.key)
    ensures Items(t.right)[0].key == t.key
  {
    SortedSplit(Items(t.left), Items(t.right));
  }

  lemma {:induction false} SizeIsCount(t: Tree)
    requires Balanced(t)
    ensures Size(t) == |Items(t)|
  {
    if t.Leaf? {
    } else {
      SizeIsCount(t.left);
      SizeIsCount(t.right);
    }
  }

  lemma {:induction false} VersionedMore(t: Tree, v: nat, w: nat)
    requires Versioned(t, v) && v <= w
    ensures Versioned(t, w)
  {
  }

  // ---------- lookup ----------

  /** Following the routing keys finds exactly the binding the leaves spell. */
  lemma {:induction false} GetIsFind(t: Tree, k: bytes)
    requires Valid(t)
    ensures Get(t, k) == Find(Items(t), k)
  {
    if t.Leaf? {
    } else {
      ValidChildren(t);
      GetIsFind(t.left, k);
      GetIsFind(t.right, k);
      FindSplit(Items(t.left), Items(t.right), t.key, k);
    }
  }

  lemma GetIsLookup(t: Tree, k: bytes)
    requires Valid(t)
    ensures Get(t, k) == if k in Contents(Some(t)) then Some(Contents(Some(t))[k]) else None
  {
    GetIsFind(t, k);
    FindIsLookup(Items(t), k);
  }

  // ---------- rotations ----------

  lemma RotateRightKeeps(z: Tree, version: nat)
    requires CanRotateRight(z)
    ensures Items(RotateRight(z, version)) == Items(z)
    ensures Routed(z) ==> Routed(RotateRight(z, version))
    ensures FirstKey(RotateRight(z, version)) == FirstKey(z)
  {
    var y := z.left;
    assert Items(z) == (Items(y.left) + Items(y.right)) + Items(z.right);
    var lower := Refreshed(z.(left := y.right), version);
    assert Items(lower) == Items(y.right) + Items(z.right);
    assert Items(RotateRight(z, version)) == Items(y.left) + Items(lower);
    assert Routed(z) ==> Routed(y) && Routed(lower);
  }

  lemma RotateLeftKeeps(z: Tree, version: nat)
    requires CanRotateLeft(z)
    ensures Items(RotateLeft(z, version)) == Items(z)
    ensures Routed(z) ==> Routed(RotateLeft(z, version))
    ensures FirstKey(RotateLeft(z, version)) == FirstKey(z)
  {
    var y := z.right;
    assert Items(z) == Items(z.left) + (Items(y.left) + Items(y.right));
    var lower := Refreshed(z.(right := y.left), version);
    assert Items(lower) == Items(z.left) + Items(y.left);
    assert Items(RotateLeft(z, version)) == Items(lower) + Items(y.right);
    assert Routed(z) ==> Routed(y) && Routed(lower);
  }

  lemma RotateLeftRightKeeps(n: Tree, version: nat)
    requires n.Inner? && RotateLeftRight(n, version).Some?
    ensures var r := RotateLeftRight(n, version).value;
      Items(r) == Items(n) && (Routed(n) ==> Routed(r)) && FirstKey(r) == FirstKey(n)
  {
    RotateLeftKeeps(n.left, version);
    RotateRightKeeps(n.(left := RotateLeft(n.left, version)), version);
  }

  lemma RotateRightLeftKeeps(n: Tree, version: nat)
    requires n.Inner? && RotateRightLeft(n, version).Some?
    ensures var r := RotateRightLeft(n, version).value;
      Items(r) == Items(n) && (Routed(n) ==> Routed(r)) && FirstKey(r) == FirstKey(n)
  {
    RotateRightKeeps(n.right, version);
    RotateLeftKeeps(n.(right := RotateRight(n.right, version)), version);
  }

  /** When a rotation leaves both nodes it touches within one level of balance, the result is
      balanced: the subtrees it moves were. */
  lemma RotateRightBalances(z: Tree, version: nat)
    requires CanRotateRight(z) && Balanced(z.left.left) && Balanced(z.left.right) && Balanced(z.right)
    requires -1 <= Height(z.left.right) - Height(z.right) <= 1
    requires -1 <= Height(z.left.left) - 1 - Max(Height(z.left.right), Height(z.right)) <= 1
    ensures Balanced(RotateRight(z, version))
  {
    var lower := Refreshed(z.(left := z.left.right), version);
    assert Balanced(lower);
  }

  lemma RotateLeftBalances(z: Tree, version: nat)
    requires CanRotateLeft(z) && Balanced(z.left) && Balanced(z.right.left) && Balanced(z.right.right)
    requires -1 <= Height(z.left) - Height(z.right.left) <= 1
    requires -1 <= 1 + Max(Height(z.left), Height(z.right.left)) - Height(z.right.right) <= 1
    ensures Balanced(RotateLeft(z, version))
  {
    var lower := Refreshed(z.(right := z.right.left), version);
    assert Balanced(lower);
  }

  // A node that leans two levels to one side is put right by the double rotation when its tall
  // child leans the other way, and by the single rotation otherwise.

  lemma RotateLeftBalancesPart(l: Tree, version: nat)
    requires CanRotateLeft(l) && Balanced(l) && BalanceFactor(l) == -1
    ensures Balanced(RotateLeft(l, version).left)
    ensures Height(RotateLeft(l, version).left) == Height(l.left) + 1
  {
  }

  lemma RotateLeftRightBalances(n: Tree, version: nat)
    requires n.Inner? && Balanced(n.left) && Balanced(n.right)
    requires BalanceFactor(n) == 2 && BalanceFactor(n.left) == -1
    ensures RotateLeftRight(n, version).Some?
    ensures Balanced(RotateLeftRight(n, version).value)
    ensures Height(RotateLeftRight(n, version).value) == Height(n.right) + 2
  {
    var l := n.left;
    var m := l.right;
    assert Balanced(l) && Balanced(m);
    RotateLeftBalancesPart(l, version);
    var n' := n.(left := RotateLeft(l, version));
    assert n'.left.left == Refreshed(l.(right := m.left), version) && n'.left.right == m.right;
    RotateRightBalances(n', version);
  }

  lemma RotateRightBalancesPart(r: Tree, version: nat)
    requires CanRotateRight(r) && Balanced(r) && BalanceFactor(r) == 1
    ensures Balanced(RotateRight(r, version).right)
    ensures Height(RotateRight(r, version).right) == Height(r.right) + 1
  {
  }

  lemma RotateRightLeftBalances(n: Tree, version: nat)
    requires n.Inner? && Balanced(n.left) && Balanced(n.right)
    requires BalanceFactor(n) == -2 && BalanceFactor(n.right) == 1
    ensures RotateRightLeft(n, version).Some?
    ensures Balanced(RotateRightLeft(n, version).value)
    ensures Height(RotateRightLeft(n, version).value) == Height(n.left) + 2
  {
    var r := n.right;
    var m := r.left;
    assert Balanced(r) && Balanced(m);
    RotateRightBalancesPart(r, version);
    var n' := n.(right := RotateRight(r, version));
    assert n'.right.right == Refreshed(r.(left := m.right), version) && n'.right.left == m.left;
    RotateLeftBalances(n', version);
  }

  // ---------- set ----------

  lemma SetBalanceKeeps(t: Tree, k: bytes, version: nat)
    requires t.Inner? && SetBalance(t, k, version).Some?
    ensures var r := SetBalance(t, k, version).value;
      Items(r) == Items(t) && (Routed(t) ==> Routed(r)) && FirstKey(r) == FirstKey(t)
  {
    var n := Refreshed(t, version);
    assert Items(n) == Items(t) && (Routed(t) ==> Routed(n));
    if BalanceFactor(n) > 1 {
      if Less(k, n.left.key) { RotateRightKeeps(n, version); } else { RotateLeftRightKeeps(n, version); }
    } else if BalanceFactor(n) < -1 {
      if Less(n.right.key, k) { RotateLeftKeeps(n, version); } else { RotateRightLeftKeeps(n, version); }
    }
  }

  /** `set` inserts the pair among the leaves and touches no other leaf; routing keys stay right. */
  lemma {:induction false} SetItems(t: Tree, k: bytes, v: bytes, version: nat)
    requires Sorted(Items(t)) && Routed(t) && SetNode(t, k, v, version).Some?
    ensures var r := SetNode(t, k, v, version).value;
      && Items(r) == Insert(Items(t), k, v)
      && Sorted(Items(r)) && Routed(r)
      && (!Less(k, FirstKey(t)) ==> FirstKey(r) == FirstKey(t))
  {
    InsertSorted(Items(t), k, v);
    if t.Leaf? {
      assert Items(t)[1..] == [];
      LessTotal(k, t.key);
      LessIrreflexive(k);
    } else {
      SortedSplit(Items(t.left), Items(t.right));
      InsertSplit(Items(t.left), Items(t.right), t.key, k, v);
      if Less(k, t.key) {
        SetItems(t.left, k, v, version);
        SetBalanceKeeps(t.(left := SetNode(t.left, k, v, version).value), k, version);
      } else {
        SetItems(t.right, k, v, version);
        SetBalanceKeeps(t.(right := SetNode(t.right, k, v, version).value), k, version);
      }
    }
  }

  /** Insertion needs no failing rotation, restores balance, and grows the tree by at most one.
      A tree that grows got a new key, kept its root's routing key, and leans to the side the key
      went to: the fact that makes the comparison with the child's routing key pick the right case. */
  ghost predicate SetGrowth(t: Tree, k: bytes, r: Tree) {
    && Balanced(r)
    && Height(t) <= Height(r) <= Height(t) + 1
    && (Height(r) > Height(t) ==>
      && !HasKey(Items(t), k)
      && (t.Inner? ==>
        && r.Inner? && r.key == t.key
        && (if Less(k, r.key) then BalanceFactor(r) == 1 else BalanceFactor(r) == -1)))
  }

  lemma AbsentRight(a: seq<Item>, b: seq<Item>, pivot: bytes, k: bytes)
    requires AllFrom(b, pivot) && Less(k, pivot) && !HasKey(a, k)
    ensures !HasKey(a + b, k)
  {
    forall i | 0 <= i < |a + b| ensures (a + b)[i].key != k {
      assert (a + b)[i] == if i < |a| then a[i] else b[i - |a|];
    }
  }

  /** A node two levels left-heavy after an insertion below is put right, one level lower. */
  lemma TallLeftSet(u: Tree, k: bytes, version: nat)
    requires u.Inner? && u.left.Inner? && Balanced(u.left) && Balanced(u.right) && BalanceFactor(u) == 2
    requires BalanceFactor(u.left) == if Less(k, u.left.key) then 1 else -1
    ensures SetBalance(u, k, version).Some? && Balanced(SetBalance(u, k, version).value)
    ensures Height(SetBalance(u, k, version).value) == Height(u.right) + 2
  {
    var n := Refreshed(u, version);
    if Less(k, n.left.key) { RotateRightBalances(n, version); } else { RotateLeftRightBalances(n, version); }
  }

  lemma TallRightSet(u: Tree, k: bytes, version: nat)
    requires u.Inner? && u.right.Inner? && Balanced(u.left) && Balanced(u.right) && BalanceFactor(u) == -2
    requires BalanceFactor(u.right) == if Less(u.right.key, k) then -1 else 1
    ensures SetBalance(u, k, version).Some? && Balanced(SetBalance(u, k, version).value)
    ensures Height(SetBalance(u, k, version).value) == Height(u.left) + 2
  {
    var n := Refreshed(u, version);
    if Less(n.right.key, k) { RotateLeftBalances(n, version); } else { RotateRightLeftBalances(n, version); }
  }

  lemma SetLeftGrowth(t: Tree, k: bytes, l: Tree, version: nat)
    requires Valid(t) && t.Inner? && Less(k, t.key) && SetGrowth(t.left, k, l)
    ensures SetBalance(t.(left := l), k, version).Some?
    ensures SetGrowth(t, k, SetBalance(t.(left := l), k, version).value)
  {
    ValidChildren(t);
    if Height(l) > Height(t.left) {
      AbsentRight(Items(t.left), Items(t.right), t.key, k);
      if BalanceFactor(t.(left := l)) == 2 { TallLeftSet(t.(left := l), k, version); }
    }
  }

  lemma RoutingKeyIsPresent(t: Tree)
    requires t.Inner? && Routed(t)
    ensures HasKey(Items(t), t.key)
  {
    assert Items(t)[|Items(t.left)|] == Items(t.right)[0];
  }

  lemma AbsentLeft(a: seq<Item>, b: seq<Item>, pivot: bytes, k: bytes)
    requires AllBelow(a, pivot) && !Less(k, pivot) && !HasKey(b, k)
    ensures !HasKey(a + b, k)
  {
    forall i | 0 <= i < |a + b| ensures (a + b)[i].key != k {
      assert (a + b)[i] == if i < |a| then a[i] else b[i - |a|];
    }
  }

  lemma SetRightGrowth(t: Tree, k: bytes, r: Tree, version: nat)
    requires Valid(t) && t.Inner? && !Less(k, t.key) && SetGrowth(t.right, k, r)
    ensures SetBalance(t.(right := r), k, version).Some?
    ensures SetGrowth(t, k, SetBalance(t.(right := r), k, version).value)
  {
    ValidChildren(t);
    if Height(r) > Height(t.right) {
      AbsentLeft(Items(t.left), Items(t.right), t.key, k);
      if t.right.Inner? {
        RoutingKeyIsPresent(t.right);
        LessTotal(k, r.key);
        assert k != r.key;
      }
      if Less(r.key, k) { LessAsymmetric(r.key, k); }
      if BalanceFactor(t.(right := r)) == -2 { TallRightSet(t.(right := r), k, version); }
    }
  }

  lemma {:induction false} SetBalanced(t: Tree, k: bytes, v: bytes, version: nat)
    requires Valid(t)
    ensures SetNode(t, k, v, version).Some? && SetGrowth(t, k, SetNode(t, k, v, version).value)
  {
    if t.Leaf? {
      LessTotal(k, t.key);
      LessIrreflexive(k);
    } else {
      ValidChildren(t);
      if Less(k, t.key) {
        SetBalanced(t.left, k, v, version);
        SetLeftGrowth(t, k, SetNode(t.left, k, v, version).value, version);
      } else {
        SetBalanced(t.right, k, v, version);
        SetRightGrowth(t, k, SetNode(t.right, k, v, version).value, version);
      }
    }
  }

  // ---------- remove ----------

  lemma RebalanceKeeps(t: Tree, version: nat)
    requires Rebalance(t, version).Some?
    ensures var r := Rebalance(t, version).value;
      Items(r) == Items(t) && (Routed(t) ==> Routed(r)) && FirstKey(r) == FirstKey(t)
  {
    if t.Inner? {
      var n := Refreshed(t, t.version);
      assert Items(n) == Items(t) && (Routed(t) ==> Routed(n));
      if BalanceFactor(n) == -2 {
        if BalanceFactor(n.right) <= 0 { RotateLeftKeeps(n, version); } else { RotateRightLeftKeeps(n, version); }
      } else if BalanceFactor(n) == 2 {
        if BalanceFactor(n.left) >= 0 { RotateRightKeeps(n, version); } else { RotateLeftRightKeeps(n, version); }
      }
    }
  }

  /** Balance is restored whenever the children are balanced and lean at most two levels apart. */
  lemma RebalanceBalances(t: Tree, version: nat)
    requires t.Inner? && Balanced(t.left) && Balanced(t.right) && -2 <= BalanceFactor(t) <= 2
    ensures Rebalance(t, version).Some?
    ensures var r := Rebalance(t, version).value;
      && Balanced(r)
      && Max(Height(t.left), Height(t.right)) <= Height(r) <= 1 + Max(Height(t.left), Height(t.right))
      && (-1 <= BalanceFactor(t) <= 1 ==> Height(r) == 1 + Max(Height(t.left), Height(t.right)))
  {
    var n := Refreshed(t, t.version);
    if BalanceFactor(n) == -2 {
      if BalanceFactor(n.right) <= 0 { RotateLeftBalances(n, version); } else { RotateRightLeftBalances(n, version); }
    } else if BalanceFactor(n) == 2 {
      if BalanceFactor(n.left) >= 0 { RotateRightBalances(n, version); } else { RotateLeftRightBalances(n, version); }
    }
  }

  /** What `recursive_remove` reports about the leaves of a subtree. */
  ghost predicate RemovesItems(t: Tree, k: bytes, r: Removal) {
    match r
    case Absent => !HasKey(Items(t), k)
    case Cut(value) => t.Leaf? && t.key == k && t.value == value
    case Removed(value, node, newKey) =>
      && HasKey(Items(t), k) && Find(Items(t), k) == Some(value)
      && Items(node) == Delete(Items(t), k)
      && Routed(node)
      && FirstKey(node) == (if newKey.Some? then newKey.value else FirstKey(t))
    case Panic => true
  }

  lemma HasKeyOfPart(a: seq<Item>, b: seq<Item>, k: bytes)
    requires HasKey(a, k) || HasKey(b, k)
    ensures HasKey(a + b, k)
  {
    if HasKey(a, k) {
      var i :| 0 <= i < |a| && a[i].key == k;
      assert (a + b)[i].key == k;
    } else {
      var i :| 0 <= i < |b| && b[i].key == k;
      assert (a + b)[|a| + i].key == k;
    }
  }

  lemma RemoveLeftItems(t: Tree, k: bytes, version: nat)
    requires t.Inner? && Routed(t) && Less(k, t.key)
    requires AllFrom(Items(t.right), t.key)
    requires Find(Items(t), k) == Find(Items(t.left), k)
    requires Delete(Items(t), k) == Delete(Items(t.left), k) + Items(t.right)
    requires RemovesItems(t.left, k, RemoveNode(t.left, k, version))
    ensures RemovesItems(t, k, RemoveNode(t, k, version))
  {
    var a, b := Items(t.left), Items(t.right);
    if HasKey(a, k) { HasKeyOfPart(a, b, k); }
    match RemoveNode(t.left, k, version)
    case Absent => AbsentRight(a, b, t.key, k);
    case Panic =>
    case Cut(value) =>
      assert a[0].key == k;
      assert Delete(a, k) == [];
    case Removed(value, node, newKey) =>
      var n := t.(version := version, left := node);
      assert Routed(n);
      if Rebalance(n, version).Some? { RebalanceKeeps(n, version); }
  }

  lemma RemoveRightItems(t: Tree, k: bytes, version: nat)
    requires t.Inner? && Routed(t) && !Less(k, t.key)
    requires AllBelow(Items(t.left), t.key)
    requires Find(Items(t), k) == Find(Items(t.right), k)
    requires Delete(Items(t), k) == Items(t.left) + Delete(Items(t.right), k)
    requires RemovesItems(t.right, k, RemoveNode(t.right, k, version))
    ensures RemovesItems(t, k, RemoveNode(t, k, version))
  {
    var a, b := Items(t.left), Items(t.right);
    if HasKey(b, k) { HasKeyOfPart(a, b, k); }
    match RemoveNode(t.right, k, version)
    case Absent => AbsentLeft(a, b, t.key, k);
    case Panic =>
    case Cut(value) =>
      assert b[0].key == k;
      assert Delete(b, k) == [];
      assert a + [] == a;
    case Removed(value, node, newKey) =>
      var routing := if newKey.Some? then newKey.value else t.key;
      var n := t.(version := version, right := node, key := routing);
      assert Routed(n);
      if Rebalance(n, version).Some? { RebalanceKeeps(n, version); }
  }

  /** `remove` deletes exactly the leaf of the key, returns its value, and repairs the routing keys
      above it, the new smallest key travelling up to the ancestor that routes by the old one. */
  lemma {:induction false} RemoveItems(t: Tree, k: bytes, version: nat)
    requires Sorted(Items(t)) && Routed(t)
    ensures RemovesItems(t, k, RemoveNode(t, k, version))
  {
    if t.Leaf? {
      assert Items(t)[0].key == t.key;
    } else {
      var a, b := Items(t.left), Items(t.right);
      SortedSplit(a, b);
      FindSplit(a, b, t.key, k);
      DeleteSplit(a, b, t.key, k);
      if Less(k, t.key) {
        RemoveItems(t.left, k, version);
        RemoveLeftItems(t, k, version);
      } else {
        RemoveItems(t.right, k, version);
        RemoveRightItems(t, k, version);
      }
    }
  }

  /** Removal never meets a failing rotation or a balance factor outside -2..2, restores balance,
      and shrinks the tree by at most one level. */
  lemma {:induction false} RemoveBalanced(t: Tree, k: bytes, version: nat)
    requires Valid(t)
    ensures !RemoveNode(t, k, version).Panic?
    ensures RemoveNode(t, k, version).Removed? ==>
      var n := RemoveNode(t, k, version).node;
      Balanced(n) && Height(t) - 1 <= Height(n) <= Height(t)
  {
    if t.Leaf? {
    } else {
      ValidChildren(t);
      if Less(k, t.key) {
        RemoveBalanced(t.left, k, version);
        var r := RemoveNode(t.left, k, version);
        if r.Removed? { RebalanceBalances(t.(version := version, left := r.node), version); }
      } else {
        RemoveBalanced(t.right, k, version);
        var r := RemoveNode(t.right, k, version);
        if r.Removed? {
          var routing := if r.newKey.Some? then r.newKey.value else t.key;
          RebalanceBalances(t.(version := version, right := r.node, key := routing), version);
        }
      }
    }
  }

  // ---------- versions ----------

  lemma RotateRightVersioned(z: Tree, version: nat)
    requires CanRotateRight(z) && Versioned(z.left, version) && Versioned(z.right, version)
    ensures Versioned(RotateRight(z, version), version)
  {
    var y := z.left;
    VersionedMore(y.left, y.version, version);
    VersionedMore(y.right, y.version, version);
    assert Versioned(Refreshed(z.(left := y.right), version), version);
  }

  lemma RotateLeftVersioned(z: Tree, version: nat)
    requires CanRotateLeft(z) && Versioned(z.left, version) && Versioned(z.right, version)
    ensures Versioned(RotateLeft(z, version), version)
  {
    var y := z.right;
    VersionedMore(y.left, y.version, version);
    VersionedMore(y.right, y.version, version);
    assert Versioned(Refreshed(z.(right := y.left), version), version);
  }

  lemma DoubleRotationsVersioned(n: Tree, version: nat)
    requires n.Inner? && Versioned(n.left, version) && Versioned(n.right, version)
    ensures RotateLeftRight(n, version).Some? ==> Versioned(RotateLeftRight(n, version).value, version)
    ensures RotateRightLeft(n, version).Some? ==> Versioned(RotateRightLeft(n, version).value, version)
  {
    if CanRotateLeft(n.left) {
      VersionedMore(n.left.left, n.left.version, version);
      VersionedMore(n.left.right, n.left.version, version);
      RotateLeftVersioned(n.left, version);
      RotateRightVersioned(n.(left := RotateLeft(n.left, version)), version);
    }
    if CanRotateRight(n.right) {
      VersionedMore(n.right.left, n.right.version, version);
      VersionedMore(n.right.right, n.right.version, version);
      RotateRightVersioned(n.right, version);
      RotateLeftVersioned(n.(right := RotateRight(n.right, version)), version);
    }
  }

  /** `set` stamps the whole changed path with the working version. */
  lemma {:induction false} SetVersioned(t: Tree, k: bytes, v: bytes, version: nat)
    requires Versioned(t, version) && SetNode(t, k, v, version).Some?
    ensures Versioned(SetNode(t, k, v, version).value, version)
  {
    if t.Leaf? {
    } else {
      VersionedMore(t.left, t.version, version);
      VersionedMore(t.right, t.version, version);
      var t1;
      if Less(k, t.key) {
        SetVersioned(t.left, k, v, version);
        t1 := t.(left := SetNode(t.left, k, v, version).value);
      } else {
        SetVersioned(t.right, k, v, version);
        t1 := t.(right := SetNode(t.right, k, v, version).value);
      }
      var n := Refreshed(t1, version);
      DoubleRotationsVersioned(n, version);
      if CanRotateRight(n) { RotateRightVersioned(n, version); }
      if CanRotateLeft(n) { RotateLeftVersioned(n, version); }
    }
  }

  lemma RebalanceVersioned(t: Tree, version: nat)
    requires Versioned(t, version) && (t.Inner? ==> t.version == version) && Rebalance(t, version).Some?
    ensures Versioned(Rebalance(t, version).value, version)
  {
    if t.Inner? {
      var n := Refreshed(t, t.version);
      DoubleRotationsVersioned(n, version);
      if CanRotateRight(n) { RotateRightVersioned(n, version); }
      if CanRotateLeft(n) { RotateLeftVersioned(n, version); }
    }
  }

  lemma {:induction false} RemoveVersioned(t: Tree, k: bytes, version: nat)
    requires Versioned(t, version) && RemoveNode(t, k, version).Removed?
    ensures Versioned(RemoveNode(t, k, version).node, version)
  {
    VersionedMore(t.left, t.version, version);
    VersionedMore(t.right, t.version, version);
    if Less(k, t.key) {
      var r := RemoveNode(t.left, k, version);
      if r.Removed? {
        RemoveVersioned(t.left, k, version);
        RebalanceVersioned(t.(version := version, left := r.node), version);
      }
    } else {
      var r := RemoveNode(t.right, k, version);
      if r.Removed? {
        RemoveVersioned(t.right, k, version);
        var routing := if r.newKey.Some? then r.newKey.value else t.key;
        RebalanceVersioned(t.(version := version, right := r.node, key := routing), version);
      }
    }
  }

  // ---------- sharing ----------

  ghost predicate Subtree(t: Tree, of: Tree) {
    t == of || (of.Inner? && (Subtree(t, of.left) || Subtree(t, of.right)))
  }

  /** `r` is put together from untouched subtrees of `from` and nodes stamped with the version. */
  ghost predicate Built(r: Tree, from: Tree, version: nat) {
    Subtree(r, from) ||
    (r.version == version && (r.Inner? ==> Built(r.left, from, version) && Built(r.right, from, version)))
  }

  lemma {:induction false} SubtreeTransitive(a: Tree, b: Tree, c: Tree)
    requires Subtree(a, b) && Subtree(b, c)
    ensures Subtree(a, c)
    decreases c
  {
    if b != c {
      if Subtree(b, c.left) { SubtreeTransitive(a, b, c.left); } else { SubtreeTransitive(a, b, c.right); }
    }
  }

  lemma {:induction false} BuiltFromMore(r: Tree, from: Tree, whole: Tree, version: nat)
    requires Built(r, from, version) && Subtree(from, whole)
    ensures Built(r, whole, version)
    decreases r
  {
    if Subtree(r, from) {
      SubtreeTransitive(r, from, whole);
    } else if r.Inner? {
      BuiltFromMore(r.left, from, whole, version);
      BuiltFromMore(r.right, from, whole, version);
    }
  }

  lemma BuiltChildren(r: Tree, from: Tree, version: nat)
    requires Built(r, from, version) && r.Inner?
    ensures Built(r.left, from, version) && Built(r.right, from, version)
  {
    if Subtree(r, from) {
      assert Subtree(r.left, r) && Subtree(r.right, r);
      SubtreeTransitive(r.left, r, from);
      SubtreeTransitive(r.right, r, from);
    }
  }

  lemma RotateRightBuilt(z: Tree, from: Tree, version: nat)
    requires CanRotateRight(z) && Built(z.left, from, version) && Built(z.right, from, version)
    ensures Built(RotateRight(z, version), from, version)
  {
    BuiltChildren(z.left, from, version);
    assert Built(Refreshed(z.(left := z.left.right), version), from, version);
  }

  lemma RotateLeftBuilt(z: Tree, from: Tree, version: nat)
    requires CanRotateLeft(z) && Built(z.left, from, version) && Built(z.right, from, version)
    ensures Built(RotateLeft(z, version), from, version)
  {
    BuiltChildren(z.right, from, version);
    assert Built(Refreshed(z.(right := z.right.left), version), from, version);
  }

  lemma RotationsBuilt(n: Tree, from: Tree, version: nat)
    requires n.Inner? && Built(n.left, from, version) && Built(n.right, from, version)
    ensures CanRotateRight(n) ==> Built(RotateRight(n, version), from, version)
    ensures CanRotateLeft(n) ==> Built(RotateLeft(n, version), from, version)
    ensures RotateLeftRight(n, version).Some? ==> Built(RotateLeftRight(n, version).value, from, version)
    ensures RotateRightLeft(n, version).Some? ==> Built(RotateRightLeft(n, version).value, from, version)
  {
    if CanRotateRight(n) { RotateRightBuilt(n, from, version); }
    if CanRotateLeft(n) { RotateLeftBuilt(n, from, version); }
    if CanRotateLeft(n.left) {
      BuiltChildren(n.left, from, version);
      RotateLeftBuilt(n.left, from, version);
      RotateRightBuilt(n.(left := RotateLeft(n.left, version)), from, version);
    }
    if CanRotateRight(n.right) {
      BuiltChildren(n.right, from, version);
      RotateRightBuilt(n.right, from, version);
      RotateLeftBuilt(n.(right := RotateRight(n.right, version)), from, version);
    }
  }

  /** `set` changes no node without stamping it: everything in the new tree is a subtree of the old one
      or carries the working version. */
  lemma {:induction false} SetBuilt(t: Tree, k: bytes, v: bytes, version: nat)
    requires SetNode(t, k, v, version).Some?
    ensures Built(SetNode(t, k, v, version).value, t, version)
  {
    if t.Inner? {
      assert Subtree(t.left, t) && Subtree(t.right, t);
      var child := if Less(k, t.key) then t.left else t.right;
      SetBuilt(child, k, v, version);
      BuiltFromMore(SetNode(child, k, v, version).value, child, t, version);
      var t1 := if Less(k, t.key) then t.(left := SetNode(t.left, k, v, version).value)
                else t.(right := SetNode(t.right, k, v, version).value);
      RotationsBuilt(Refreshed(t1, version), t, version);
      assert Built(Refreshed(t1, version), t, version);
    } else {
      assert Built(t, t, version) && Built(Leaf(k, v, version), t, version);
    }
  }

  lemma RebalanceBuilt(u: Tree, from: Tree, version: nat)
    requires u.Inner? && u.version == version && Rebalance(u, version).Some?
    requires Built(u.left, from, version) && Built(u.right, from, version)
    ensures Built(Rebalance(u, version).value, from, version)
  {
    RotationsBuilt(Refreshed(u, version), from, version);
  }

  /** `remove` changes no node without stamping it. */
  lemma {:induction false} RemoveBuilt(t: Tree, k: bytes, version: nat)
    requires RemoveNode(t, k, version).Removed?
    ensures Built(RemoveNode(t, k, version).node, t, version)
  {
    assert Subtree(t.left, t) && Subtree(t.right, t);
    var child := if Less(k, t.key) then t.left else t.right;
    var below := RemoveNode(child, k, version);
    if below.Removed? {
      RemoveBuilt(child, k, version);
      BuiltFromMore(below.node, child, t, version);
      if Less(k, t.key) {
        RebalanceBuilt(t.(version := version, left := below.node), t, version);
      } else {
        var routing := if below.newKey.Some? then below.newKey.value else t.key;
        RebalanceBuilt(t.(version := version, right := below.node, key := routing), t, version);
      }
    }
  }

  // ---------- height ----------

  function Fib(n: nat): nat {
    if n < 2 then n else Fib(n - 1) + Fib(n - 2)
  }

  lemma {:induction false} FibMonotone(m: nat, n: nat)
    requires 1 <= m <= n
    ensures Fib(m) <= Fib(n)
    decreases n
  {
    if m < n {
      FibMonotone(m, n - 1);
      assert n >= 2 ==> Fib(n) == Fib(n - 1) + Fib(n - 2);
    }
  }

  /** A balanced tree of height h has at least Fib(h + 2) leaves. */
  lemma {:induction false} LeavesAtLeastFib(t: Tree)
    requires Balanced(t)
    ensures Fib(Height(t) + 2) <= Size(t)
  {
    if t.Leaf? {
    } else {
      LeavesAtLeastFib(t.left);
      LeavesAtLeastFib(t.right);
      if Height(t.left) < Height(t.right) {
        FibMonotone(Height(t.right) - 1 + 2, Height(t.left) + 2);
      } else {
        FibMonotone(Height(t.left) - 1 + 2, Height(t.right) + 2);
      }
    }
  }

  /** Fib(48) is beyond what a `u32` can count. */
  lemma Fib48() returns (n: nat)
    ensures 1 <= n <= 48 && Fib(n) == 4807526976
  {
    assert Fib(8) == 21 && Fib(9) == 34;
    assert Fib(16) == 987 && Fib(17) == 1597;
    assert Fib(24) == 46368 && Fib(25) == 75025;
    assert Fib(32) == 2178309 && Fib(33) == 3524578;
    assert Fib(40) == 102334155 && Fib(41) == 165580141;
    n := 48;
  }

  /** A balanced tree whose leaves a `u32` can count is at most 45 high. */
  lemma HeightBound(t: Tree)
    requires Balanced(t) && Size(t) < 0x1_0000_0000
    ensures Height(t) <= 45
  {
    LeavesAtLeastFib(t);
    if Height(t) > 45 {
      var n := Fib48();
      FibMonotone(n, Height(t) + 2);
    }
  }

  // ---------- whole trees ----------

  ghost predicate ValidRoot(o: Option<Tree>, newest: nat) {
    o.Some? ==> Valid(o.value) && Versioned(o.value, newest)
  }

  /** `Tree::set` */
  function SetRoot(o: Option<Tree>, k: bytes, v: bytes, version: nat): Option<Tree> {
    if o.None? then Some(Leaf(k, v, version)) else SetNode(o.value, k, v, version)
  }

  /** `Tree::remove`: the flag that says the root itself was the leaf to cut is dropped. */
  function RemoveRoot(o: Option<Tree>, k: bytes, version: nat): (Option<bytes>, Option<Tree>) {
    if o.None? then (None, None)
    else match RemoveNode(o.value, k, version)
      case Removed(value, node, _) => (Some(value), Some(node))
      case Cut(value) => (Some(value), o)
      case _ => (None, o)
  }

  /** `set` binds the key and changes nothing else, on every tree, and keeps the tree valid. */
  lemma SetCorrect(o: Option<Tree>, k: bytes, v: bytes, version: nat)
    requires ValidRoot(o, version)
    ensures SetRoot(o, k, v, version).Some?
    ensures ValidRoot(SetRoot(o, k, v, version), version)
    ensures Contents(SetRoot(o, k, v, version)) == Contents(o)[k := v]
  {
    if o.None? {
      var t := Leaf(k, v, version);
      assert Items(t) == [Item(k, v)] && Items(t)[1..] == [];
      assert ToMap(Items(t)) == ToMap(Items(t)[1..])[k := v] == map[k := v];
    } else {
      SetBalanced(o.value, k, v, version);
      SetItems(o.value, k, v, version);
      SetVersioned(o.value, k, v, version);
      InsertIsUpdate(Items(o.value), k, v);
    }
  }

  /** `remove` returns the value bound to the key and keeps the tree valid; it unbinds the key and
      changes nothing else exactly when the root is not itself the leaf of that key. In that one
      case, and when the key is absent, the tree stays as it is. */
  lemma RemoveCorrect(o: Option<Tree>, k: bytes, version: nat)
    requires ValidRoot(o, version)
    ensures var (value, o') := RemoveRoot(o, k, version);
      && ValidRoot(o', version)
      && value == (if k in Contents(o) then Some(Contents(o)[k]) else None)
      && (Contents(o') == Contents(o) - {k} <==> !(o.Some? && o.value.Leaf? && o.value.key == k))
      && (k !in Contents(o) || (o.value.Leaf? && o.value.key == k) ==> o' == o)
  {
    if o.Some? {
      var t := o.value;
      ToMapHas(Items(t), k);
      FindIsLookup(Items(t), k);
      DeleteIsRemoval(Items(t), k);
      RemoveItems(t, k, version);
      RemoveBalanced(t, k, version);
      if RemoveNode(t, k, version).Removed? { RemoveVersioned(t, k, version); }
      if t.Leaf? && t.key == k { assert Items(t)[0].key == k; }
    }
  }

  // ---------- sizes ----------

  ghost function RootSize(o: Option<Tree>): nat {
    if o.None? then 0 else Size(o.value)
  }

  /** `set` adds a leaf exactly when the key is new. */
  lemma SetSize(t: Tree, k: bytes, v: bytes, version: nat)
    requires Valid(t)
    ensures SetNode(t, k, v, version).Some?
    ensures Size(SetNode(t, k, v, version).value) == Size(t) + if HasKey(Items(t), k) then 0 else 1
  {
    SetBalanced(t, k, v, version);
    SetItems(t, k, v, version);
    InsertLength(Items(t), k, v);
    SizeIsCount(t);
    SizeIsCount(SetNode(t, k, v, version).value);
  }

  lemma RemoveSize(t: Tree, k: bytes, version: nat)
    requires Valid(t)
    ensures RemoveNode(t, k, version).Removed? ==> Size(RemoveNode(t, k, version).node) == Size(t) - 1
  {
    var r := RemoveNode(t, k, version);
    if r.Removed? {
      RemoveItems(t, k, version);
      RemoveBalanced(t, k, version);
      DeleteLength(Items(t), k);
      SizeIsCount(t);
      SizeIsCount(r.node);
    }
  }

  lemma SetRootSize(o: Option<Tree>, k: bytes, v: bytes, version: nat)
    requires ValidRoot(o, version)
    ensures RootSize(SetRoot(o, k, v, version)) == RootSize(o) + if k in Contents(o) then 0 else 1
  {
    if o.Some? {
      SetSize(o.value, k, v, version);
      ToMapHas(Items(o.value), k);
    }
  }

  lemma RemoveRootSize(o: Option<Tree>, k: bytes, version: nat)
    requires ValidRoot(o, version)
    ensures ValidRoot(RemoveRoot(o, k, version).1, version)
    ensures RootSize(RemoveRoot(o, k, version).1) <= RootSize(o)
  {
    RemoveCorrect(o, k, version);
    if o.Some? { RemoveSize(o.value, k, version); }
  }

  /** Removing a key from a one-leaf tree returns its value and leaves it there. */
  lemma LastLeafStays(k: bytes, v: bytes, version: nat)
    ensures RemoveRoot(Some(Leaf(k, v, version)), k, version) == (Some(v), Some(Leaf(k, v, version)))
    ensures k in Contents(RemoveRoot(Some(Leaf(k, v, version)), k, version).1)
  {
    ToMapHas(Items(Leaf(k, v, version)), k);
    assert Items(Leaf(k, v, version))[0].key == k;
  }
}
