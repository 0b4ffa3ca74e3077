/** Which tree `set` and `remove` leave: its shape and the versions of its nodes, both of which the
    root hash covers, written out on the subtrees of the old tree. */
module TreeShape {
  import opened Bytes
  import opened Options
  import opened SortedItems
  import opened AvlTree

  /** A node of a version over two subtrees. */
  ghost function Over(key: bytes, version: nat, l: Tree, r: Tree): Tree {
    Inner(key, 1 + if Height(l) < Height(r) then Height(r) else Height(l), Size(l) + Size(r), version, l, r)
  }

  // ---------- height ----------

  /** Some leaf is `d` levels down. */
  ghost predicate LeafAt(t: Tree, d: nat) {
    if t.Leaf? then d == 0 else d > 0 && (LeafAt(t.left, d - 1) || LeafAt(t.right, d - 1))
  }

  /** The cached height of a balanced tree is the depth of its deepest leaf. */
  lemma {:induction false} HeightIsDepth(t: Tree)
    requires Balanced(t)
    ensures LeafAt(t, Height(t)) && forall d: nat :: LeafAt(t, d) ==> d <= Height(t)
  {
    if t.Leaf? {
    } else {
      HeightIsDepth(t.left);
      HeightIsDepth(t.right);
    }
  }

  // ---------- rearrangements ----------

  /** The single rotation to the right, of a node over `l` and `r`. */
  ghost function RaisedLeft(l: Tree, key: bytes, r: Tree, version: nat): Tree
    requires l.Inner?
  {
    Over(l.key, version, l.left, Over(key, version, l.right, r))
  }

  ghost function RaisedRight(l: Tree, key: bytes, r: Tree, version: nat): Tree
    requires r.Inner?
  {
    Over(r.key, version, Over(key, version, l, r.left), r.right)
  }

  /** The double rotations: the grandchild in the middle goes to the top. */
  ghost function RaisedLeftRight(l: Tree, key: bytes, r: Tree, version: nat): Tree
    requires l.Inner? && l.right.Inner?
  {
    Over(l.right.key, version, Over(l.key, version, l.left, l.right.left), Over(key, version, l.right.right, r))
  }

  ghost function RaisedRightLeft(l: Tree, key: bytes, r: Tree, version: nat): Tree
    requires r.Inner? && r.left.Inner?
  {
    Over(r.left.key, version, Over(key, version, l, r.left.left), Over(r.key, version, r.left.right, r.right))
  }

  /** The node that takes the place of one over `l` and `r`: nothing is rotated within one level of
      balance; otherwise the double rotation is made if the taller child leans inward, and the single
      one if it does not. */
  ghost function Arranged(l: Tree, key: bytes, r: Tree, version: nat): Tree {
    if Height(l) >= Height(r) + 2 && l.Inner? then
      if Height(l.left) >= Height(l.right) || l.right.Leaf? then RaisedLeft(l, key, r, version)
      else RaisedLeftRight(l, key, r, version)
    else if Height(r) >= Height(l) + 2 && r.Inner? then
      if Height(r.right) >= Height(r.left) || r.left.Leaf? then RaisedRight(l, key, r, version)
      else RaisedRightLeft(l, key, r, version)
    else Over(key, version, l, r)
  }

  lemma TallIsInner(t: Tree)
    requires Balanced(t) && Height(t) > 0
    ensures t.Inner? && Height(t) == 1 + Max(Height(t.left), Height(t.right))
  {
  }

  lemma RightIs(l: Tree, key: bytes, h: nat, s: nat, w: nat, r: Tree, version: nat)
    requires l.Inner?
    ensures RotateRight(Inner(key, h, s, w, l, r), version) == RaisedLeft(l, key, r, version)
  {
  }

  lemma LeftIs(l: Tree, key: bytes, h: nat, s: nat, w: nat, r: Tree, version: nat)
    requires r.Inner?
    ensures RotateLeft(Inner(key, h, s, w, l, r), version) == RaisedRight(l, key, r, version)
  {
  }

  lemma LeftRightIs(l: Tree, key: bytes, h: nat, s: nat, w: nat, r: Tree, version: nat)
    requires l.Inner? && l.right.Inner?
    ensures RotateLeftRight(Inner(key, h, s, w, l, r), version) == Some(RaisedLeftRight(l, key, r, version))
  {
    LeftIs(l.left, l.key, l.height, l.size, l.version, l.right, version);
    RightIs(RotateLeft(l, version), key, h, s, w, r, version);
  }

  lemma RightLeftIs(l: Tree, key: bytes, h: nat, s: nat, w: nat, r: Tree, version: nat)
    requires r.Inner? && r.left.Inner?
    ensures RotateRightLeft(Inner(key, h, s, w, l, r), version) == Some(RaisedRightLeft(l, key, r, version))
  {
    RightIs(r.left, r.key, r.height, r.size, r.version, r.right, version);
    LeftIs(l, key, h, s, w, RotateRight(r, version), version);
  }

  /** Rebalancing a node of the working version makes exactly that arrangement. */
  lemma RebalanceArranges(u: Tree, version: nat)
    requires u.Inner? && u.version == version && Balanced(u.left) && Balanced(u.right) && -2 <= BalanceFactor(u) <= 2
    ensures Rebalance(u, version) == Some(Arranged(u.left, u.key, u.right, version))
  {
    var n := Refreshed(u, u.version);
    if BalanceFactor(n) == 2 {
      TallIsInner(n.left);
      if BalanceFactor(n.left) >= 0 {
        RightIs(n.left, n.key, n.height, n.size, n.version, n.right, version);
      } else {
        TallIsInner(n.left.right);
        LeftRightIs(n.left, n.key, n.height, n.size, n.version, n.right, version);
      }
    } else if BalanceFactor(n) == -2 {
      TallIsInner(n.right);
      if BalanceFactor(n.right) <= 0 {
        LeftIs(n.left, n.key, n.height, n.size, n.version, n.right, version);
      } else {
        TallIsInner(n.right.left);
        RightLeftIs(n.left, n.key, n.height, n.size, n.version, n.right, version);
      }
    }
  }

  /** At a node leaning two levels to the left the single rotation is made if and only if the tall child
      does not lean inward, and otherwise the double one. */
  lemma LeaningLeft(u: Tree, version: nat)
    requires u.Inner? && u.version == version && Balanced(u.left) && Balanced(u.right)
    requires Height(u.left) == Height(u.right) + 2
    ensures u.left.Inner? && (Height(u.left.left) < Height(u.left.right) ==> u.left.right.Inner?)
    ensures Rebalance(u, version) == Some(RaisedLeft(u.left, u.key, u.right, version))
      <==> Height(u.left.left) >= Height(u.left.right)
    ensures Height(u.left.left) < Height(u.left.right) ==>
      Rebalance(u, version) == Some(RaisedLeftRight(u.left, u.key, u.right, version))
  {
    RebalanceArranges(u, version);
    TallIsInner(u.left);
    if Height(u.left.left) < Height(u.left.right) { TallIsInner(u.left.right); }
  }

  lemma LeaningRight(u: Tree, version: nat)
    requires u.Inner? && u.version == version && Balanced(u.left) && Balanced(u.right)
    requires Height(u.right) == Height(u.left) + 2
    ensures u.right.Inner? && (Height(u.right.right) < Height(u.right.left) ==> u.right.left.Inner?)
    ensures Rebalance(u, version) == Some(RaisedRight(u.left, u.key, u.right, version))
      <==> Height(u.right.right) >= Height(u.right.left)
    ensures Height(u.right.right) < Height(u.right.left) ==>
      Rebalance(u, version) == Some(RaisedRightLeft(u.left, u.key, u.right, version))
  {
    RebalanceArranges(u, version);
    TallIsInner(u.right);
    if Height(u.right.right) < Height(u.right.left) { TallIsInner(u.right.left); }
  }

  // ---------- set ----------

  /** Plain insertion into a search tree: the leaf is put in, the nodes above it are new, and everything
      else is as it was. */
  ghost function Inserted(t: Tree, k: bytes, v: bytes, version: nat): Tree {
    if t.Inner? then
      if Less(k, t.key) then Over(t.key, version, Inserted(t.left, k, v, version), t.right)
      else Over(t.key, version, t.left, Inserted(t.right, k, v, version))
    else if k == t.key then Leaf(k, v, version)
    else if Less(k, t.key) then Over(t.key, version, Leaf(k, v, version), t)
    else Over(k, version, t, Leaf(k, v, version))
  }

  /** A tree with its deepest node that is out of balance rearranged. */
  ghost function Repaired(p: Tree, version: nat): Tree {
    if Balanced(p) || p.Leaf? then p
    else if !Balanced(p.left) then Over(p.key, version, Repaired(p.left, version), p.right)
    else if !Balanced(p.right) then Over(p.key, version, p.left, Repaired(p.right, version))
    else Arranged(p.left, p.key, p.right, version)
  }

  lemma SetLeftRepaired(t: Tree, k: bytes, p: Tree, l: Tree, version: nat)
    requires Valid(t) && t.Inner? && Less(k, t.key) && SetGrowth(t.left, k, l)
    requires l == Repaired(p, version) && (!Balanced(p) ==> p.Inner? && Height(l) == Height(t.left))
    ensures SetBalance(t.(left := l), k, version) == Some(Repaired(Over(t.key, version, p, t.right), version))
    ensures !Balanced(Over(t.key, version, p, t.right)) ==> Height(SetBalance(t.(left := l), k, version).value) == Height(t)
  {
    var n := Refreshed(t.(left := l), version);
    assert n == Over(t.key, version, l, t.right);
    if Balanced(p) && BalanceFactor(n) == 2 {
      TallIsInner(l);
      TallLeftSet(t.(left := l), k, version);
      if Less(k, l.key) {
        RightIs(l, n.key, n.height, n.size, n.version, n.right, version);
      } else {
        TallIsInner(l.right);
        LeftRightIs(l, n.key, n.height, n.size, n.version, n.right, version);
      }
    }
  }

  lemma SetRightRepaired(t: Tree, k: bytes, p: Tree, r: Tree, version: nat)
    requires Valid(t) && t.Inner? && !Less(k, t.key) && SetGrowth(t.right, k, r)
    requires r == Repaired(p, version) && (!Balanced(p) ==> p.Inner? && Height(r) == Height(t.right))
    ensures SetBalance(t.(right := r), k, version) == Some(Repaired(Over(t.key, version, t.left, p), version))
    ensures !Balanced(Over(t.key, version, t.left, p)) ==> Height(SetBalance(t.(right := r), k, version).value) == Height(t)
  {
    var n := Refreshed(t.(right := r), version);
    assert n == Over(t.key, version, t.left, r);
    if Balanced(p) && BalanceFactor(n) == -2 {
      TallIsInner(r);
      ValidChildren(t);
      RoutingKeyIsPresent(t.right);
      LessTotal(k, r.key);
      if Less(r.key, k) { LessAsymmetric(r.key, k); }
      TallRightSet(t.(right := r), k, version);
      if Less(r.key, k) {
        LeftIs(n.left, n.key, n.height, n.size, n.version, r, version);
      } else {
        TallIsInner(r.left);
        RightLeftIs(n.left, n.key, n.height, n.size, n.version, r, version);
      }
    }
  }

  /** `set` is plain insertion followed by at most one rearrangement, at the deepest node that is out of
      balance: that brings the height back to what it was. */
  lemma {:induction false} SetIsRepaired(t: Tree, k: bytes, v: bytes, version: nat)
    requires Valid(t)
    ensures SetNode(t, k, v, version) == Some(Repaired(Inserted(t, k, v, version), version))
    ensures !Balanced(Inserted(t, k, v, version)) ==> Height(SetNode(t, k, v, version).value) == Height(t)
  {
    SetBalanced(t, k, v, version);
    if t.Leaf? {
      LessIrreflexive(k);
    } else {
      ValidChildren(t);
      if Less(k, t.key) {
        SetIsRepaired(t.left, k, v, version);
        SetBalanced(t.left, k, v, version);
        SetLeftRepaired(t, k, Inserted(t.left, k, v, version), SetNode(t.left, k, v, version).value, version);
      } else {
        SetIsRepaired(t.right, k, v, version);
        SetBalanced(t.right, k, v, version);
        SetRightRepaired(t, k, Inserted(t.right, k, v, version), SetNode(t.right, k, v, version).value, version);
      }
    }
  }

  /** When plain insertion leaves a balanced tree, `set` makes that tree and rotates nothing. */
  lemma SetIsInserted(t: Tree, k: bytes, v: bytes, version: nat)
    requires Valid(t) && Balanced(Inserted(t, k, v, version))
    ensures SetNode(t, k, v, version) == Some(Inserted(t, k, v, version))
  {
    SetIsRepaired(t, k, v, version);
  }

  // ---------- remove ----------

  /** Plain deletion from a search tree: the sibling of the leaf takes their parent's place as it is, the
      nodes above are new and route by the leftmost key on their right, and everything else is as it was. */
  ghost function Deleted(t: Tree, k: bytes, version: nat): Tree
    requires t.Inner?
  {
    if Less(k, t.key) then
      if t.left.Leaf? then t.right else Over(t.key, version, Deleted(t.left, k, version), t.right)
    else if t.right.Leaf? then t.left
    else
      var r := Deleted(t.right, k, version);
      Over(FirstKey(r), version, t.left, r)
  }

  /** The same with every node above the leaf arranged. */
  ghost function DeletedArranged(t: Tree, k: bytes, version: nat): Tree
    requires t.Inner?
  {
    if Less(k, t.key) then
      if t.left.Leaf? then t.right else Arranged(DeletedArranged(t.left, k, version), t.key, t.right, version)
    else if t.right.Leaf? then t.left
    else
      var r := DeletedArranged(t.right, k, version);
      Arranged(t.left, FirstKey(r), r, version)
  }

  lemma FoundBelow(t: Tree, k: bytes)
    requires Valid(t) && t.Inner? && HasKey(Items(t), k)
    ensures HasKey(Items(if Less(k, t.key) then t.left else t.right), k)
  {
    ValidChildren(t);
    if Less(k, t.key) {
      if !HasKey(Items(t.left), k) { AbsentRight(Items(t.left), Items(t.right), t.key, k); }
    } else {
      if !HasKey(Items(t.right), k) { AbsentLeft(Items(t.left), Items(t.right), t.key, k); }
    }
  }

  lemma LeafHasKey(t: Tree, k: bytes)
    requires t.Leaf?
    ensures HasKey(Items(t), k) <==> t.key == k
  {
    assert Items(t)[0].key == t.key;
  }

  /** `remove` of a key that is there, and not alone, leaves exactly that tree. */
  lemma {:induction false} RemoveIsArranged(t: Tree, k: bytes, version: nat)
    requires Valid(t) && t.Inner? && HasKey(Items(t), k)
    ensures RemoveNode(t, k, version).Removed? && RemoveNode(t, k, version).node == DeletedArranged(t, k, version)
  {
    ValidChildren(t);
    FoundBelow(t, k);
    var child := if Less(k, t.key) then t.left else t.right;
    if child.Leaf? {
      LeafHasKey(child, k);
    } else {
      RemoveIsArranged(child, k, version);
      RemoveBalanced(child, k, version);
      RemoveItems(child, k, version);
      var r := RemoveNode(child, k, version);
      if Less(k, t.key) {
        RebalanceArranges(t.(version := version, left := r.node), version);
      } else {
        var routing := if r.newKey.Some? then r.newKey.value else t.key;
        assert routing == FirstKey(r.node);
        RebalanceArranges(t.(version := version, right := r.node, key := routing), version);
      }
    }
  }

  lemma {:induction false} DeletedBalanced(t: Tree, k: bytes, version: nat)
    requires t.Inner? && Balanced(Deleted(t, k, version))
    ensures DeletedArranged(t, k, version) == Deleted(t, k, version)
  {
    if Less(k, t.key) {
      if t.left.Inner? { DeletedBalanced(t.left, k, version); }
    } else {
      if t.right.Inner? { DeletedBalanced(t.right, k, version); }
    }
  }

  /** When plain deletion leaves a balanced tree, `remove` makes that tree and rotates nothing. */
  lemma RemoveIsDeleted(t: Tree, k: bytes, version: nat)
    requires Valid(t) && t.Inner? && HasKey(Items(t), k) && Balanced(Deleted(t, k, version))
    ensures RemoveNode(t, k, version).Removed? && RemoveNode(t, k, version).node == Deleted(t, k, version)
  {
    RemoveIsArranged(t, k, version);
    DeletedBalanced(t, k, version);
  }

  // ---------- leaves ----------

  ghost function Leaves(t: Tree): set<Tree> {
    if t.Leaf? then {t} else Leaves(t.left) + Leaves(t.right)
  }

  ghost function RootLeaves(o: Option<Tree>): set<Tree> {
    if o.None? then {} else Leaves(o.value)
  }

  ghost function Others(s: set<Tree>, k: bytes): set<Tree> {
    set x | x in s && x.key != k
  }

  lemma {:induction false} LeavesHaveKeys(t: Tree, x: Tree)
    requires x in Leaves(t)
    ensures x.Leaf? && HasKey(Items(t), x.key)
  {
    if t.Leaf? {
      assert Items(t)[0].key == t.key;
    } else {
      if x in Leaves(t.left) { LeavesHaveKeys(t.left, x); } else { LeavesHaveKeys(t.right, x); }
      HasKeyOfPart(Items(t.left), Items(t.right), x.key);
    }
  }

  /** The leaves of the child that a key does not belong under have other keys. */
  lemma OtherSide(t: Tree, k: bytes)
    requires Valid(t) && t.Inner?
    ensures var other := if Less(k, t.key) then t.right else t.left; Others(Leaves(other), k) == Leaves(other)
  {
    ValidChildren(t);
    var other := if Less(k, t.key) then t.right else t.left;
    forall x | x in Leaves(other) ensures x.key != k {
      LeavesHaveKeys(other, x);
      LessIrreflexive(k);
    }
  }

  lemma ArrangedLeaves(l: Tree, key: bytes, r: Tree, version: nat)
    ensures Leaves(Arranged(l, key, r, version)) == Leaves(l) + Leaves(r)
  {
  }

  lemma {:induction false} RepairedLeaves(p: Tree, version: nat)
    ensures Leaves(Repaired(p, version)) == Leaves(p)
  {
    if Balanced(p) || p.Leaf? {
    } else if !Balanced(p.left) {
      RepairedLeaves(p.left, version);
    } else if !Balanced(p.right) {
      RepairedLeaves(p.right, version);
    } else {
      ArrangedLeaves(p.left, p.key, p.right, version);
    }
  }

  lemma {:induction false} InsertedLeaves(t: Tree, k: bytes, v: bytes, version: nat)
    requires Valid(t)
    ensures Leaves(Inserted(t, k, v, version)) == Others(Leaves(t), k) + {Leaf(k, v, version)}
  {
    if t.Leaf? {
    } else {
      ValidChildren(t);
      OtherSide(t, k);
      if Less(k, t.key) { InsertedLeaves(t.left, k, v, version); } else { InsertedLeaves(t.right, k, v, version); }
    }
  }

  /** `set` puts one leaf of the working version in, for the leaf of the key if there was one, and leaves
      every other leaf as it was, its version included. */
  lemma SetLeaves(o: Option<Tree>, k: bytes, v: bytes, version: nat)
    requires ValidRoot(o, version)
    ensures RootLeaves(SetRoot(o, k, v, version)) == Others(RootLeaves(o), k) + {Leaf(k, v, version)}
  {
    if o.Some? {
      SetIsRepaired(o.value, k, v, version);
      InsertedLeaves(o.value, k, v, version);
      RepairedLeaves(Inserted(o.value, k, v, version), version);
    }
  }

  lemma {:induction false} DeletedLeaves(t: Tree, k: bytes, version: nat)
    requires Valid(t) && t.Inner? && HasKey(Items(t), k)
    ensures Leaves(DeletedArranged(t, k, version)) == Others(Leaves(t), k)
  {
    ValidChildren(t);
    FoundBelow(t, k);
    OtherSide(t, k);
    var child := if Less(k, t.key) then t.left else t.right;
    if child.Leaf? {
      LeafHasKey(child, k);
    } else {
      DeletedLeaves(child, k, version);
      var c := DeletedArranged(child, k, version);
      if Less(k, t.key) { ArrangedLeaves(c, t.key, t.right, version); } else { ArrangedLeaves(t.left, FirstKey(c), c, version); }
    }
  }

  /** `remove` takes out the leaf of the key, unless that is the root, and leaves every other leaf as it
      was, its version included. */
  lemma RemoveLeaves(o: Option<Tree>, k: bytes, version: nat)
    requires ValidRoot(o, version)
    ensures RootLeaves(RemoveRoot(o, k, version).1)
      == if o.Some? && o.value.Leaf? then RootLeaves(o) else Others(RootLeaves(o), k)
  {
    if o.Some? && o.value.Inner? {
      RemoveItems(o.value, k, version);
      RemoveBalanced(o.value, k, version);
      if HasKey(Items(o.value), k) {
        RemoveIsArranged(o.value, k, version);
        DeletedLeaves(o.value, k, version);
      } else {
        forall x | x in Leaves(o.value) ensures x.key != k { LeavesHaveKeys(o.value, x); }
      }
    }
  }

  // ---------- what is shared ----------

  /** A whole subtree beside the way to a key: one that a lookup of the key passes by, or the leaf of
      another key where it ends. */
  ghost predicate Beside(x: Tree, t: Tree, k: bytes) {
    if t.Leaf? then x == t && t.key != k
    else if Less(k, t.key) then Subtree(x, t.right) || Beside(x, t.left, k)
    else Subtree(x, t.left) || Beside(x, t.right, k)
  }

  lemma DoubleLeftBeside(l: Tree, key: bytes, r: Tree, k: bytes, version: nat, x: Tree)
    requires l.Inner? && l.right.Inner? && Less(k, key) && !Less(k, l.key)
    requires Subtree(x, r) || Beside(x, l, k)
    ensures Beside(x, RaisedLeftRight(l, key, r, version), k)
  {
    var m := l.right;
    var a, b := Over(l.key, version, l.left, m.left), Over(key, version, m.right, r);
    assert Subtree(x, l.left) || Subtree(x, m.left) ==> Subtree(x, a);
    assert Subtree(x, m.right) || Subtree(x, r) ==> Subtree(x, b);
    assert Subtree(x, l.left) || Beside(x, m.left, k) ==> Beside(x, a, k);
    assert Subtree(x, r) || Beside(x, m.right, k) ==> Beside(x, b, k);
  }

  lemma DoubleRightBeside(l: Tree, key: bytes, r: Tree, k: bytes, version: nat, x: Tree)
    requires r.Inner? && r.left.Inner? && !Less(k, key) && Less(k, r.key)
    requires Subtree(x, l) || Beside(x, r, k)
    ensures Beside(x, RaisedRightLeft(l, key, r, version), k)
  {
    var m := r.left;
    var a, b := Over(key, version, l, m.left), Over(r.key, version, m.right, r.right);
    assert Subtree(x, l) || Subtree(x, m.left) ==> Subtree(x, a);
    assert Subtree(x, m.right) || Subtree(x, r.right) ==> Subtree(x, b);
    assert Subtree(x, l) || Beside(x, m.left, k) ==> Beside(x, a, k);
    assert Subtree(x, r.right) || Beside(x, m.right, k) ==> Beside(x, b, k);
  }

  lemma LeftKeepsBeside(u: Tree, k: bytes, version: nat, x: Tree)
    requires u.Inner? && Less(k, u.key) && SetBalance(u, k, version).Some? && BalanceFactor(u) >= -1
    requires Beside(x, u, k)
    ensures Beside(x, SetBalance(u, k, version).value, k)
  {
    var n := Refreshed(u, version);
    if BalanceFactor(n) > 1 {
      if Less(k, u.left.key) {
        RightIs(u.left, u.key, n.height, n.size, version, u.right, version);
      } else {
        LeftRightIs(u.left, u.key, n.height, n.size, version, u.right, version);
        DoubleLeftBeside(u.left, u.key, u.right, k, version, x);
      }
    }
  }

  lemma RightKeepsBeside(u: Tree, k: bytes, version: nat, x: Tree)
    requires u.Inner? && !Less(k, u.key) && SetBalance(u, k, version).Some? && BalanceFactor(u) <= 1
    requires BalanceFactor(u) < -1 ==> k != u.right.key
    requires Beside(x, u, k)
    ensures Beside(x, SetBalance(u, k, version).value, k)
  {
    var n := Refreshed(u, version);
    if BalanceFactor(n) < -1 {
      LessTotal(k, u.right.key);
      if Less(u.right.key, k) {
        LessAsymmetric(u.right.key, k);
        LeftIs(u.left, u.key, n.height, n.size, version, u.right, version);
      } else {
        RightLeftIs(u.left, u.key, n.height, n.size, version, u.right, version);
        DoubleRightBeside(u.left, u.key, u.right, k, version, x);
      }
    }
  }

  lemma GrownKey(t: Tree, k: bytes, r: Tree)
    requires Valid(t) && SetGrowth(t, k, r) && Height(r) > Height(t) && t.Inner?
    ensures k != r.key
  {
    RoutingKeyIsPresent(t);
  }

  /** `set` leaves every subtree beside the way to the key as it was, its versions included. */
  lemma {:induction false} SetKeepsBeside(t: Tree, k: bytes, v: bytes, version: nat, x: Tree)
    requires Valid(t) && Beside(x, t, k)
    ensures SetNode(t, k, v, version).Some?
    ensures Beside(x, SetNode(t, k, v, version).value, k)
  {
    SetBalanced(t, k, v, version);
    if t.Leaf? {
      LessIrreflexive(k);
    } else {
      ValidChildren(t);
      var child := if Less(k, t.key) then t.left else t.right;
      SetBalanced(child, k, v, version);
      var c := SetNode(child, k, v, version).value;
      if Beside(x, child, k) { SetKeepsBeside(child, k, v, version, x); }
      if Less(k, t.key) {
        LeftKeepsBeside(t.(left := c), k, version, x);
      } else {
        if t.right.Inner? && Height(c) > Height(t.right) { GrownKey(t.right, k, c); }
        RightKeepsBeside(t.(right := c), k, version, x);
      }
    }
  }

  /** A tree put together from subtrees beside the way to the key and from nodes of the version. */
  ghost predicate Fresh(r: Tree, t: Tree, k: bytes, version: nat) {
    Beside(r, t, k) || (r.version == version && (r.Inner? ==> Fresh(r.left, t, k, version) && Fresh(r.right, t, k, version)))
  }

  lemma {:induction false} BesideChildren(r: Tree, t: Tree, k: bytes)
    requires Beside(r, t, k) && r.Inner?
    ensures Beside(r.left, t, k) && Beside(r.right, t, k)
  {
    var off, child := if Less(k, t.key) then t.right else t.left, if Less(k, t.key) then t.left else t.right;
    if Subtree(r, off) {
      assert Subtree(r.left, r) && Subtree(r.right, r);
      SubtreeTransitive(r.left, r, off);
      SubtreeTransitive(r.right, r, off);
    } else {
      BesideChildren(r, child, k);
    }
  }

  lemma {:induction false} FreshMore(r: Tree, t: Tree, k: bytes, version: nat)
    requires t.Inner? && Fresh(r, if Less(k, t.key) then t.left else t.right, k, version)
    ensures Fresh(r, t, k, version)
  {
    if !Beside(r, t, k) && r.Inner? {
      FreshMore(r.left, t, k, version);
      FreshMore(r.right, t, k, version);
    }
  }

  lemma FreshParts(r: Tree, t: Tree, k: bytes, version: nat)
    requires Fresh(r, t, k, version) && r.Inner?
    ensures Fresh(r.left, t, k, version) && Fresh(r.right, t, k, version)
  {
    if Beside(r, t, k) { BesideChildren(r, t, k); }
  }

  lemma OverFresh(l: Tree, key: bytes, r: Tree, t: Tree, k: bytes, version: nat)
    requires Fresh(l, t, k, version) && Fresh(r, t, k, version)
    ensures Fresh(Over(key, version, l, r), t, k, version)
  {
  }

  lemma ArrangedFresh(l: Tree, key: bytes, r: Tree, t: Tree, k: bytes, version: nat)
    requires Fresh(l, t, k, version) && Fresh(r, t, k, version)
    ensures Fresh(Arranged(l, key, r, version), t, k, version)
  {
    if l.Inner? {
      FreshParts(l, t, k, version);
      OverFresh(l.right, key, r, t, k, version);
      if l.right.Inner? {
        FreshParts(l.right, t, k, version);
        OverFresh(l.left, l.key, l.right.left, t, k, version);
        OverFresh(l.right.right, key, r, t, k, version);
      }
    }
    if r.Inner? {
      FreshParts(r, t, k, version);
      OverFresh(l, key, r.left, t, k, version);
      if r.left.Inner? {
        FreshParts(r.left, t, k, version);
        OverFresh(l, key, r.left.left, t, k, version);
        OverFresh(r.left.right, r.key, r.right, t, k, version);
      }
    }
  }

  lemma {:induction false} InsertedFresh(t: Tree, k: bytes, v: bytes, version: nat)
    ensures Fresh(Inserted(t, k, v, version), t, k, version)
  {
    if t.Leaf? {
      var added := Leaf(k, v, version);
      assert Fresh(added, t, k, version);
      if k != t.key {
        assert Fresh(t, t, k, version);
        OverFresh(added, t.key, t, t, k, version);
        OverFresh(t, k, added, t, k, version);
      }
    } else if Less(k, t.key) {
      var c := Inserted(t.left, k, v, version);
      InsertedFresh(t.left, k, v, version);
      FreshMore(c, t, k, version);
      assert Subtree(t.right, t.right) && Beside(t.right, t, k);
      OverFresh(c, t.key, t.right, t, k, version);
    } else {
      var c := Inserted(t.right, k, v, version);
      InsertedFresh(t.right, k, v, version);
      FreshMore(c, t, k, version);
      assert Subtree(t.left, t.left) && Beside(t.left, t, k);
      OverFresh(t.left, t.key, c, t, k, version);
    }
  }

  lemma {:induction false} RepairedFresh(p: Tree, t: Tree, k: bytes, version: nat)
    requires Fresh(p, t, k, version)
    ensures Fresh(Repaired(p, version), t, k, version)
  {
    if Balanced(p) || p.Leaf? {
    } else {
      FreshParts(p, t, k, version);
      if !Balanced(p.left) {
        RepairedFresh(p.left, t, k, version);
        OverFresh(Repaired(p.left, version), p.key, p.right, t, k, version);
      } else if !Balanced(p.right) {
        RepairedFresh(p.right, t, k, version);
        OverFresh(p.left, p.key, Repaired(p.right, version), t, k, version);
      } else {
        ArrangedFresh(p.left, p.key, p.right, t, k, version);
      }
    }
  }

  /** Everything else in the new tree carries the working version. */
  lemma SetIsFresh(t: Tree, k: bytes, v: bytes, version: nat)
    requires Valid(t)
    ensures SetNode(t, k, v, version).Some? && Fresh(SetNode(t, k, v, version).value, t, k, version)
  {
    SetIsRepaired(t, k, v, version);
    InsertedFresh(t, k, v, version);
    RepairedFresh(Inserted(t, k, v, version), t, k, version);
  }
}
