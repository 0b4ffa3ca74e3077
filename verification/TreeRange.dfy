/** Iterating over a tree between two bounds, from either end. */
module TreeRange {
  import opened Bytes
  import opened Options
  import opened SortedItems
  import opened Hashing
  import opened AvlTree
  import opened Persistence
  import opened LazyNode
  import opened MergedRange

  /** `std::ops::Bound` */
  datatype Limit = Included(key: bytes) | Excluded(key: bytes) | Unlimited

  predicate AfterStart(k: bytes, start: Limit) {
    match start
    case Included(l) => !Less(k, l)
    case Excluded(l) => Less(l, k)
    case Unlimited => true
  }

  predicate BeforeEnd(k: bytes, end: Limit) {
    match end
    case Included(u) => !Less(u, k)
    case Excluded(u) => Less(k, u)
    case Unlimited => true
  }

  datatype Bounds = Bounds(start: Limit, end: Limit) {
    predicate Hold(k: bytes) {
      AfterStart(k, start) && BeforeEnd(k, end)
    }
  }

  /** An included limit is within the bounds, and an excluded one is not. */
  lemma LimitsHold(l: bytes, u: bytes, k: bytes)
    ensures Bounds(Included(l), Included(u)).Hold(k) <==> AtMost(l, k) && AtMost(k, u)
    ensures Bounds(Included(l), Excluded(u)).Hold(k) <==> AtMost(l, k) && Less(k, u)
    ensures Bounds(Excluded(l), Included(u)).Hold(k) <==> Less(l, k) && AtMost(k, u)
    ensures Bounds(Excluded(l), Excluded(u)).Hold(k) <==> Less(l, k) && Less(k, u)
    ensures Bounds(Included(l), Unlimited).Hold(k) <==> AtMost(l, k)
    ensures Bounds(Unlimited, Excluded(u)).Hold(k) <==> Less(k, u)
    ensures Bounds(Excluded(l), Unlimited).Hold(k) <==> Less(l, k)
    ensures Bounds(Unlimited, Included(u)).Hold(k) <==> AtMost(k, u)
    ensures Bounds(Unlimited, Unlimited).Hold(k)
  {
    LessTotal(k, l);
    LessTotal(k, u);
    LessIrreflexive(k);
    if Less(k, l) { LessAsymmetric(k, l); }
    if Less(u, k) { LessAsymmetric(u, k); }
  }

  /** The items within the bounds. */
  ghost function Selected(s: seq<Item>, b: Bounds): seq<Item> {
    if s == [] then [] else (if b.Hold(s[0].key) then [s[0]] else []) + Selected(s[1..], b)
  }

  /** The part of a map within the bounds. */
  ghost function Part(m: map<bytes, bytes>, b: Bounds): map<bytes, bytes> {
    map k | k in m && b.Hold(k) :: m[k]
  }

  lemma {:induction false} SelectedAppend(s: seq<Item>, t: seq<Item>, b: Bounds)
    ensures Selected(s + t, b) == Selected(s, b) + Selected(t, b)
  {
    if s == [] {
      assert s + t == t;
    } else {
      assert (s + t)[1..] == s[1..] + t;
      SelectedAppend(s[1..], t, b);
    }
  }

  lemma {:induction false} SelectedNone(s: seq<Item>, b: Bounds)
    requires forall i :: 0 <= i < |s| ==> !b.Hold(s[i].key)
    ensures Selected(s, b) == []
  {
    if s != [] { SelectedNone(s[1..], b); }
  }

  lemma PartOfUpdate(m: map<bytes, bytes>, k: bytes, v: bytes, b: Bounds)
    ensures Part(m[k := v], b) == if b.Hold(k) then Part(m, b)[k := v] else Part(m, b) - {k}
  {
  }

  lemma {:induction false} SelectedToMap(s: seq<Item>, b: Bounds)
    requires Sorted(s)
    ensures ToMap(Selected(s, b)) == Part(ToMap(s), b)
  {
    if s == [] {
    } else {
      var x, rest := s[0], Selected(s[1..], b);
      SelectedToMap(s[1..], b);
      FirstOnce(s);
      PartOfUpdate(ToMap(s[1..]), x.key, x.value, b);
      assert ([x] + rest)[1..] == rest && [] + rest == rest;
    }
  }

  lemma {:induction false} SelectedAmong(s: seq<Item>, b: Bounds, x: Item)
    requires x in Selected(s, b)
    ensures exists i :: 0 <= i < |s| && s[i] == x
  {
    if s[0] != x {
      SelectedAmong(s[1..], b, x);
      var i :| 0 <= i < |s[1..]| && s[1..][i] == x;
      assert s[i + 1] == x;
    }
  }

  lemma {:induction false} SelectedSorted(s: seq<Item>, b: Bounds)
    requires Sorted(s)
    ensures Sorted(Selected(s, b))
  {
    if s == [] {
    } else {
      var rest := Selected(s[1..], b);
      SelectedSorted(s[1..], b);
      forall i | 0 <= i < |rest| ensures Less(s[0].key, rest[i].key) {
        SelectedAmong(s[1..], b, rest[i]);
        var j :| 0 <= j < |s[1..]| && s[1..][j] == rest[i];
        assert s[j + 1] == rest[i];
      }
    }
  }

  /** What lies within the bounds is in key order, and is the part of the map within the bounds. */
  lemma SelectedIsPart(s: seq<Item>, b: Bounds)
    requires Sorted(s)
    ensures Sorted(Selected(s, b)) && ToMap(Selected(s, b)) == Part(ToMap(s), b)
  {
    SelectedSorted(s, b);
    SelectedToMap(s, b);
  }

  // ---------- the stacks ----------

  /** What a stack of trees holds, the top of the stack first. */
  ghost function Pending(ts: seq<Tree>): seq<Item> {
    if ts == [] then [] else Items(ts[|ts| - 1]) + Pending(ts[..|ts| - 1])
  }

  /** The same for the stack of the other end, the top of the stack last. */
  ghost function PendingRev(ts: seq<Tree>): seq<Item> {
    if ts == [] then [] else PendingRev(ts[..|ts| - 1]) + Items(ts[|ts| - 1])
  }

  ghost function NodeCount(t: Tree): nat {
    if t.Leaf? then 1 else 1 + NodeCount(t.left) + NodeCount(t.right)
  }

  ghost function Weight(ts: seq<Tree>): nat {
    if ts == [] then 0 else NodeCount(ts[|ts| - 1]) + Weight(ts[..|ts| - 1])
  }

  lemma Push(ts: seq<Tree>, t: Tree)
    ensures Pending(ts + [t]) == Items(t) + Pending(ts) && PendingRev(ts + [t]) == PendingRev(ts) + Items(t)
    ensures Weight(ts + [t]) == NodeCount(t) + Weight(ts)
  {
    assert (ts + [t])[..|ts|] == ts;
  }

  lemma Single(t: Tree)
    ensures Pending([t]) == Items(t) && PendingRev([t]) == Items(t)
  {
    Push([], t);
    assert [] + [t] == [t] && Items(t) + [] == Items(t) && [] + Items(t) == Items(t);
  }

  /** The children of an inner node that are walked into. */
  ghost function WalkLeft(t: Tree, b: Bounds): seq<Tree>
    requires t.Inner?
  {
    if AfterStart(t.key, b.start) then [t.left] else []
  }

  ghost function WalkRight(t: Tree, b: Bounds): seq<Tree>
    requires t.Inner?
  {
    if BeforeEnd(t.key, b.end) then [t.right] else []
  }

  lemma BelowStart(k: bytes, key: bytes, start: Limit)
    requires Less(k, key) && !AfterStart(key, start)
    ensures !AfterStart(k, start)
  {
    if start.Included? { LessTransitive(k, key, start.key); }
    if start.Excluded? {
      LessTotal(start.key, key);
      if Less(start.key, k) { LessTransitive(start.key, k, key); }
    }
  }

  lemma PastEnd(key: bytes, k: bytes, end: Limit)
    requires !Less(k, key) && !BeforeEnd(key, end)
    ensures !BeforeEnd(k, end)
  {
    LessTotal(k, key);
    if end.Included? && key != k { LessTransitive(end.key, key, k); }
    if end.Excluded? && Less(k, end.key) && key != k { LessTransitive(key, k, end.key); }
  }

  /** Nothing within the bounds is under a child that is passed by. */
  lemma PassedBy(t: Tree, b: Bounds)
    requires Valid(t) && t.Inner?
    ensures WalkLeft(t, b) == [] ==> Selected(Items(t.left), b) == []
    ensures WalkRight(t, b) == [] ==> Selected(Items(t.right), b) == []
  {
    ValidChildren(t);
    if WalkLeft(t, b) == [] {
      forall i | 0 <= i < |Items(t.left)| ensures !b.Hold(Items(t.left)[i].key) {
        BelowStart(Items(t.left)[i].key, t.key, b.start);
      }
      SelectedNone(Items(t.left), b);
    }
    if WalkRight(t, b) == [] {
      forall i | 0 <= i < |Items(t.right)| ensures !b.Hold(Items(t.right)[i].key) {
        PastEnd(t.key, Items(t.right)[i].key, b.end);
      }
      SelectedNone(Items(t.right), b);
    }
  }

  lemma PushMaybe(ts: seq<Tree>, c: Tree, child: seq<Tree>, b: Bounds)
    requires child == [c] || (child == [] && Selected(Items(c), b) == [])
    ensures Selected(Pending(ts + child), b) == Selected(Items(c), b) + Selected(Pending(ts), b)
    ensures Selected(PendingRev(ts + child), b) == Selected(PendingRev(ts), b) + Selected(Items(c), b)
    ensures Weight(ts + child) <= NodeCount(c) + Weight(ts)
  {
    if child == [] {
      assert ts + child == ts;
    } else {
      Push(ts, c);
      SelectedAppend(Items(c), Pending(ts), b);
      SelectedAppend(PendingRev(ts), Items(c), b);
    }
  }

  lemma ItemsSelected(t: Tree, b: Bounds)
    ensures t.Inner? ==> Selected(Items(t), b) == Selected(Items(t.left), b) + Selected(Items(t.right), b)
    ensures t.Leaf? ==> Selected(Items(t), b) == if b.Hold(t.key) then [Item(t.key, t.value)] else []
  {
    if t.Inner? {
      SelectedAppend(Items(t.left), Items(t.right), b);
    } else {
      assert Items(t) == [Item(t.key, t.value)] && Items(t)[1..] == [];
    }
  }

  /** Replacing the tree on top by the children walked into leaves the same items to come. */
  lemma OpenedFront(ts: seq<Tree>, t: Tree, b: Bounds)
    requires Valid(t) && t.Inner?
    ensures Selected(Pending(ts + WalkRight(t, b) + WalkLeft(t, b)), b) == Selected(Items(t), b) + Selected(Pending(ts), b)
    ensures Weight(ts + WalkRight(t, b) + WalkLeft(t, b)) < NodeCount(t) + Weight(ts)
  {
    var l, r := WalkLeft(t, b), WalkRight(t, b);
    PassedBy(t, b);
    PushMaybe(ts, t.right, r, b);
    PushMaybe(ts + r, t.left, l, b);
    ItemsSelected(t, b);
    Associates(Selected(Items(t.left), b), Selected(Items(t.right), b), Selected(Pending(ts), b));
  }

  lemma OpenedBack(ts: seq<Tree>, t: Tree, b: Bounds)
    requires Valid(t) && t.Inner?
    ensures Selected(PendingRev(ts + WalkLeft(t, b) + WalkRight(t, b)), b) == Selected(PendingRev(ts), b) + Selected(Items(t), b)
    ensures Weight(ts + WalkLeft(t, b) + WalkRight(t, b)) < NodeCount(t) + Weight(ts)
  {
    var l, r := WalkLeft(t, b), WalkRight(t, b);
    PassedBy(t, b);
    PushMaybe(ts, t.left, l, b);
    PushMaybe(ts + l, t.right, r, b);
    ItemsSelected(t, b);
    Associates(Selected(PendingRev(ts), b), Selected(Items(t.left), b), Selected(Items(t.right), b));
  }

  lemma TakeEnds(x: Item, s: seq<Item>)
    ensures Take([x] + s, true) == (Some(x), s) && Take(s + [x], false) == (Some(x), s)
    ensures [] + s == s && s + [] == s
  {
  }

  /** What is to come when `t` is on top: for a leaf, itself if it is within the bounds, and for an inner
      node what is under the children walked into. */
  lemma TopFront(ts: seq<Tree>, t: Tree, b: Bounds)
    requires Valid(t)
    ensures var all, rest := Selected(Pending(ts + [t]), b), Selected(Pending(ts), b);
      if t.Inner? then all == Selected(Pending(ts + WalkRight(t, b) + WalkLeft(t, b)), b)
      else if b.Hold(t.key) then Take(all, true) == (Some(Item(t.key, t.value)), rest)
      else all == rest
    ensures Weight(ts) < Weight(ts + [t])
    ensures t.Inner? ==> Weight(ts + WalkRight(t, b) + WalkLeft(t, b)) < Weight(ts + [t])
  {
    Push(ts, t);
    SelectedAppend(Items(t), Pending(ts), b);
    ItemsSelected(t, b);
    if t.Inner? { OpenedFront(ts, t, b); } else { TakeEnds(Item(t.key, t.value), Selected(Pending(ts), b)); }
  }

  lemma TopBack(ts: seq<Tree>, t: Tree, b: Bounds)
    requires Valid(t)
    ensures var all, rest := Selected(PendingRev(ts + [t]), b), Selected(PendingRev(ts), b);
      if t.Inner? then all == Selected(PendingRev(ts + WalkLeft(t, b) + WalkRight(t, b)), b)
      else if b.Hold(t.key) then Take(all, false) == (Some(Item(t.key, t.value)), rest)
      else all == rest
    ensures Weight(ts) < Weight(ts + [t])
    ensures t.Inner? ==> Weight(ts + WalkLeft(t, b) + WalkRight(t, b)) < Weight(ts + [t])
  {
    Push(ts, t);
    SelectedAppend(PendingRev(ts), Items(t), b);
    ItemsSelected(t, b);
    if t.Inner? { OpenedBack(ts, t, b); } else { TakeEnds(Item(t.key, t.value), Selected(PendingRev(ts), b)); }
  }

  /** The nodes on a stack stand for the trees, and are among `repr` with all that is loaded below. */
  ghost predicate Stack(nodes: seq<Node>, trees: seq<Tree>, repr: set<Node>, stored: set<Tree>)
    reads repr
  {
    && |nodes| == |trees|
    && forall i :: 0 <= i < |nodes| ==>
         nodes[i] in repr && nodes[i].Repr <= repr && nodes[i].Rep(trees[i], stored) && Valid(trees[i])
  }

  lemma StackMore(nodes: seq<Node>, trees: seq<Tree>, repr: set<Node>, node: Node, t: Tree, stored: set<Tree>)
    requires Stack(nodes, trees, repr, stored) && node in node.Repr && node.Rep(t, stored) && Valid(t)
    ensures Stack(nodes + [node], trees + [t], repr + node.Repr, stored)
    ensures Stack(nodes, trees, repr + node.Repr, stored)
  {
  }

  /** A child node, from the database if it is not loaded. */
  method Fetched(child: Node?, hash: Hash, nodeDb: NodeDB, ghost c: Tree) returns (node: Node)
    requires nodeDb.Valid() && Child(child, hash, c, nodeDb.nodes)
    modifies nodeDb`cache
    ensures nodeDb.Valid() && node.Rep(c, nodeDb.nodes) && node in node.Repr
    ensures if child == null then fresh(node) && fresh(node.Repr) else node == child
  {
    if child == null {
      node := nodeDb.GetNode(hash);
    } else {
      node := child;
      assert node.Shape(c, nodeDb.nodes);
    }
  }

  class TreeRange {
    const bounds: Bounds
    const nodeDb: NodeDB
    var delayed: seq<Node>
    var delayedRev: seq<Node>
    ghost var trees: seq<Tree>
    ghost var treesRev: seq<Tree>
    ghost var Repr: set<Node>

    ghost predicate Valid()
      reads this, nodeDb, nodeDb.db.db, Repr
    {
      nodeDb.Valid() && Stack(delayed, trees, Repr, nodeDb.nodes) && Stack(delayedRev, treesRev, Repr, nodeDb.nodes)
    }

    /** What `next` has still to yield, and what `next_back` has. */
    ghost function Remaining(): seq<Item>
      reads this
    {
      Selected(Pending(trees), bounds)
    }

    ghost function RemainingBack(): seq<Item>
      reads this
    {
      Selected(PendingRev(treesRev), bounds)
    }

    constructor (bounds: Bounds, front: Node?, back: Node?, nodeDb: NodeDB, ghost o: Option<Tree>)
      requires nodeDb.Valid() && Holds(front, o, nodeDb.nodes) && Holds(back, o, nodeDb.nodes)
      requires o.Some? ==> AvlTree.Valid(o.value)
      ensures Valid() && this.bounds == bounds && this.nodeDb == nodeDb
      ensures Repr == Footprint(front) + Footprint(back)
      ensures Remaining() == RemainingBack() == if o.None? then [] else Selected(Items(o.value), bounds)
    {
      this.bounds, this.nodeDb := bounds, nodeDb;
      delayed := if front == null then [] else [front];
      delayedRev := if back == null then [] else [back];
      trees := if o.None? then [] else [o.value];
      treesRev := if o.None? then [] else [o.value];
      Repr := Footprint(front) + Footprint(back);
      if o.Some? {
        Single(o.value);
      }
    }

    method PlaceFront(node: Node, ghost c: Tree)
      requires Valid() && node in node.Repr && node.Rep(c, nodeDb.nodes) && AvlTree.Valid(c)
      modifies this`delayed, this`trees, this`Repr
      ensures Valid() && trees == old(trees) + [c] && Repr == old(Repr) + old(node.Repr)
    {
      StackMore(delayed, trees, Repr, node, c, nodeDb.nodes);
      StackMore(delayedRev, treesRev, Repr, node, c, nodeDb.nodes);
      delayed, trees, Repr := delayed + [node], trees + [c], Repr + node.Repr;
    }

    /** The child goes on top of the stack, fetched if it is not loaded. */
    method PushFront(child: Node?, hash: Hash, ghost c: Tree)
      requires Valid() && Child(child, hash, c, nodeDb.nodes) && AvlTree.Valid(c)
      requires child != null ==> child in Repr && child.Repr <= Repr
      modifies this`delayed, this`trees, this`Repr, nodeDb`cache
      ensures Valid() && trees == old(trees) + [c]
      ensures old(Repr) <= Repr && fresh(Repr - old(Repr))
    {
      var node := Fetched(child, hash, nodeDb, c);
      PlaceFront(node, c);
    }

    method PlaceBack(node: Node, ghost c: Tree)
      requires Valid() && node in node.Repr && node.Rep(c, nodeDb.nodes) && AvlTree.Valid(c)
      modifies this`delayedRev, this`treesRev, this`Repr
      ensures Valid() && treesRev == old(treesRev) + [c] && Repr == old(Repr) + old(node.Repr)
    {
      StackMore(delayed, trees, Repr, node, c, nodeDb.nodes);
      StackMore(delayedRev, treesRev, Repr, node, c, nodeDb.nodes);
      delayedRev, treesRev, Repr := delayedRev + [node], treesRev + [c], Repr + node.Repr;
    }

    method PushBack(child: Node?, hash: Hash, ghost c: Tree)
      requires Valid() && Child(child, hash, c, nodeDb.nodes) && AvlTree.Valid(c)
      requires child != null ==> child in Repr && child.Repr <= Repr
      modifies this`delayedRev, this`treesRev, this`Repr, nodeDb`cache
      ensures Valid() && treesRev == old(treesRev) + [c]
      ensures old(Repr) <= Repr && fresh(Repr - old(Repr))
    {
      var node := Fetched(child, hash, nodeDb, c);
      PlaceBack(node, c);
    }

    /** The children of an inner node that was on top, left above right. */
    method OpenFront(node: Node, ghost t: Tree)
      requires Valid() && node.Rep(t, nodeDb.nodes) && t.Inner? && AvlTree.Valid(t) && node.Repr <= Repr
      modifies this`delayed, this`trees, this`Repr, nodeDb`cache
      ensures Valid() && trees == old(trees) + WalkRight(t, bounds) + WalkLeft(t, bounds)
      ensures old(Repr) <= Repr && fresh(Repr - old(Repr))
    {
      ghost var stored := nodeDb.nodes;
      ValidChildren(t);
      assert node.Shape(t, stored) && Child(node.right, node.data.rightHash, t.right, stored);
      assert Child(node.left, node.data.leftHash, t.left, stored);
      if BeforeEnd(node.data.key, bounds.end) { PushFront(node.right, node.data.rightHash, t.right); }
      if AfterStart(node.data.key, bounds.start) { PushFront(node.left, node.data.leftHash, t.left); }
    }

    method OpenBack(node: Node, ghost t: Tree)
      requires Valid() && node.Rep(t, nodeDb.nodes) && t.Inner? && AvlTree.Valid(t) && node.Repr <= Repr
      modifies this`delayedRev, this`treesRev, this`Repr, nodeDb`cache
      ensures Valid() && treesRev == old(treesRev) + WalkLeft(t, bounds) + WalkRight(t, bounds)
      ensures old(Repr) <= Repr && fresh(Repr - old(Repr))
    {
      ghost var stored := nodeDb.nodes;
      ValidChildren(t);
      assert node.Shape(t, stored) && Child(node.right, node.data.rightHash, t.right, stored);
      assert Child(node.left, node.data.leftHash, t.left, stored);
      if AfterStart(node.data.key, bounds.start) { PushBack(node.left, node.data.leftHash, t.left); }
      if BeforeEnd(node.data.key, bounds.end) { PushBack(node.right, node.data.rightHash, t.right); }
    }

    method PopFront() returns (node: Node, ghost t: Tree)
      requires Valid() && |delayed| > 0
      modifies this`delayed, this`trees
      ensures Valid() && old(trees) == trees + [t]
      ensures AvlTree.Valid(t) && node.Rep(t, nodeDb.nodes) && node.Repr <= Repr
    {
      node, t := delayed[|delayed| - 1], trees[|trees| - 1];
      delayed, trees := delayed[..|delayed| - 1], trees[..|trees| - 1];
    }

    /** One node of the walk: yields the first item, or brings it nearer. */
    method WalkFront() returns (r: Option<Item>)
      requires Valid() && |delayed| > 0
      modifies this`delayed, this`trees, this`Repr, nodeDb`cache
      ensures Valid() && old(Repr) <= Repr && fresh(Repr - old(Repr))
      ensures if r.Some? then (r, Remaining()) == Take(old(Remaining()), true)
              else Remaining() == old(Remaining()) && Weight(trees) < old(Weight(trees))
    {
      var node;
      ghost var t;
      node, t := PopFront();
      TopFront(trees, t, bounds);
      if node.data.LeafData? {
        if AfterStart(node.data.key, bounds.start) && BeforeEnd(node.data.key, bounds.end) {
          r := Some(Item(node.data.key, node.data.value));
        } else {
          r := None;
        }
      } else {
        OpenFront(node, t);
        r := None;
      }
    }

    /** `traverse`: takes the first item still to come at this end; the other end is not touched. */
    method Next() returns (r: Option<Item>)
      requires Valid()
      modifies this`delayed, this`trees, this`Repr, nodeDb`cache
      ensures Valid() && (r, Remaining()) == Take(old(Remaining()), true)
      ensures old(Repr) <= Repr && fresh(Repr - old(Repr))
      decreases Weight(trees)
    {
      if |delayed| == 0 { return None; }
      r := WalkFront();
      if r.None? { r := Next(); }
    }

    method PopBack() returns (node: Node, ghost t: Tree)
      requires Valid() && |delayedRev| > 0
      modifies this`delayedRev, this`treesRev
      ensures Valid() && old(treesRev) == treesRev + [t]
      ensures AvlTree.Valid(t) && node.Rep(t, nodeDb.nodes) && node.Repr <= Repr
    {
      node, t := delayedRev[|delayedRev| - 1], treesRev[|treesRev| - 1];
      delayedRev, treesRev := delayedRev[..|delayedRev| - 1], treesRev[..|treesRev| - 1];
    }

    /** One node of the walk: yields the first item, or brings it nearer. */
    method WalkBack() returns (r: Option<Item>)
      requires Valid() && |delayedRev| > 0
      modifies this`delayedRev, this`treesRev, this`Repr, nodeDb`cache
      ensures Valid() && old(Repr) <= Repr && fresh(Repr - old(Repr))
      ensures if r.Some? then (r, RemainingBack()) == Take(old(RemainingBack()), false)
              else RemainingBack() == old(RemainingBack()) && Weight(treesRev) < old(Weight(treesRev))
    {
      var node;
      ghost var t;
      node, t := PopBack();
      TopBack(treesRev, t, bounds);
      if node.data.LeafData? {
        if AfterStart(node.data.key, bounds.start) && BeforeEnd(node.data.key, bounds.end) {
          r := Some(Item(node.data.key, node.data.value));
        } else {
          r := None;
        }
      } else {
        OpenBack(node, t);
        r := None;
      }
    }

    /** `traverse_rev`: takes the last item still to come at this end. */
    method NextBack() returns (r: Option<Item>)
      requires Valid()
      modifies this`delayedRev, this`treesRev, this`Repr, nodeDb`cache
      ensures Valid() && (r, RemainingBack()) == Take(old(RemainingBack()), false)
      ensures old(Repr) <= Repr && fresh(Repr - old(Repr))
      decreases Weight(treesRev)
    {
      if |delayedRev| == 0 { return None; }
      r := WalkBack();
      if r.None? { r := NextBack(); }
    }
  }

  method Copy(root: Node?, ghost o: Option<Tree>, ghost stored: set<Tree>) returns (copy: Node?)
    requires Holds(root, o, stored)
    ensures Holds(copy, o, stored) && fresh(Footprint(copy))
  {
    if root == null { return null; }
    copy := root.Clone(o.value, stored);
  }

  /** `Range::new`, of a tree between two bounds: both ends start from a copy of the tree. */
  method RangeOf(root: Node?, bounds: Bounds, nodeDb: NodeDB, ghost o: Option<Tree>) returns (r: TreeRange)
    requires nodeDb.Valid() && Holds(root, o, nodeDb.nodes) && (o.Some? ==> Valid(o.value))
    ensures fresh(r) && fresh(r.Repr) && r.Valid() && r.bounds == bounds && r.nodeDb == nodeDb
    ensures r.Remaining() == r.RemainingBack() && Sorted(r.Remaining())
    ensures ToMap(r.Remaining()) == Part(Contents(o), bounds)
  {
    if o.Some? { SelectedIsPart(Items(o.value), bounds); }
    var front := Copy(root, o, nodeDb.nodes);
    var back := Copy(root, o, nodeDb.nodes);
    r := new TreeRange(bounds, front, back, nodeDb, o);
  }

  // ---------- the two ends together ----------

  /** What a series of calls yields when each end goes through the items on its own. */
  ghost function TwoEnds(front: seq<Item>, back: seq<Item>, calls: seq<bool>): seq<Option<Item>> {
    if calls == [] then []
    else if calls[0] then [Take(front, true).0] + TwoEnds(Take(front, true).1, back, calls[1..])
    else [Take(back, false).0] + TwoEnds(front, Take(back, false).1, calls[1..])
  }

  ghost predicate OneEnd(calls: seq<bool>, front: bool) {
    forall i :: 0 <= i < |calls| ==> calls[i] == front
  }

  lemma OneEndTail(calls: seq<bool>)
    requires calls != []
    ensures forall front :: OneEnd(calls, front) <==> calls[0] == front && OneEnd(calls[1..], front)
  {
    forall front | calls[0] == front && OneEnd(calls[1..], front) ensures OneEnd(calls, front) {
      forall i | 0 <= i < |calls| ensures calls[i] == front {
        if i > 0 { assert calls[1..][i - 1] == front; }
      }
    }
  }

  lemma FrontTaken(s: seq<Item>, i: nat, j: nat)
    requires i < j <= |s|
    ensures Take(s[i..], true) == (Some(s[i]), s[i + 1..]) && Take(s[i..j], true) == (Some(s[i]), s[i + 1..j])
  {
  }

  lemma BackTaken(s: seq<Item>, i: nat, j: nat)
    requires i < j <= |s|
    ensures Take(s[..j], false) == (Some(s[j - 1]), s[..j - 1]) && Take(s[i..j], false) == (Some(s[j - 1]), s[i..j - 1])
  {
    assert s[..j][..j - 1] == s[..j - 1] && s[i..j][..j - i - 1] == s[i..j - 1];
  }

  lemma SameHead(s: seq<Item>, i: nat, j: nat, calls: seq<bool>)
    requires i <= j <= |s| && calls != []
    ensures var (a, b) := (TwoEnds(s[i..], s[..j], calls), OneQueue(s[i..j], calls));
      a == b <==> a[0] == b[0] && a[1..] == b[1..]
  {
    var (a, b) := (TwoEnds(s[i..], s[..j], calls), OneQueue(s[i..j], calls));
    assert a == [a[0]] + a[1..] && b == [b[0]] + b[1..];
  }

  lemma {:induction false} AgreeBetween(s: seq<Item>, i: nat, j: nat, calls: seq<bool>)
    requires i <= j <= |s|
    ensures TwoEnds(s[i..], s[..j], calls) == OneQueue(s[i..j], calls)
      <==> s == [] || |calls| <= j - i || (OneEnd(calls, true) && j == |s|) || (OneEnd(calls, false) && i == 0)
    decreases |calls|
  {
    if calls == [] {
    } else {
      var rest := calls[1..];
      OneEndTail(calls);
      if calls[0] {
        if i < j { AgreeBetween(s, i + 1, j, rest); FrontTaken(s, i, j); } else if i == |s| { AgreeBetween(s, i, j, rest); }
      } else {
        if i < j { AgreeBetween(s, i, j - 1, rest); BackTaken(s, i, j); } else if j == 0 { AgreeBetween(s, i, j, rest); }
      }
      SameHead(s, i, j, calls);
    }
  }

  /** The calls for which two ends that do not know of each other act as one iterator: only one end is
      used, or there are no items, or no more calls than items. */
  ghost predicate ActsAsOne(s: seq<Item>, calls: seq<bool>) {
    s == [] || |calls| <= |s| || OneEnd(calls, true) || OneEnd(calls, false)
  }

  lemma TwoEndsAgree(s: seq<Item>, calls: seq<bool>)
    ensures TwoEnds(s, s, calls) == OneQueue(s, calls) <==> ActsAsOne(s, calls)
  {
    assert s[0..] == s[..|s|] == s[0..|s|] == s;
    AgreeBetween(s, 0, |s|, calls);
  }

  method EachCall(range: TreeRange, calls: seq<bool>) returns (rs: seq<Option<Item>>)
    requires range.Valid()
    modifies range, range.nodeDb`cache
    ensures range.Valid() && rs == TwoEnds(old(range.Remaining()), old(range.RemainingBack()), calls)
    decreases |calls|
  {
    if calls == [] { return []; }
    var r;
    if calls[0] { r := range.Next(); } else { r := range.NextBack(); }
    var rest := EachCall(range, calls[1..]);
    rs := [r] + rest;
  }

  /** What any series of calls to a range yields, `true` for `next`. The ends do not know of each other,
      so a new range yields what a double-ended iterator over its items should exactly for the calls
      that act as one. */
  method Calls(range: TreeRange, calls: seq<bool>) returns (rs: seq<Option<Item>>)
    requires range.Valid()
    modifies range, range.nodeDb`cache
    ensures range.Valid() && rs == TwoEnds(old(range.Remaining()), old(range.RemainingBack()), calls)
    ensures old(range.Remaining() == range.RemainingBack()) ==>
      (rs == OneQueue(old(range.Remaining()), calls) <==> ActsAsOne(old(range.Remaining()), calls))
  {
    TwoEndsAgree(range.Remaining(), calls);
    rs := EachCall(range, calls);
  }

  /** The smallest input for which they do not: the unbounded range of a one-leaf tree yields its only
      item at both ends. */
  lemma OutTwice(k: bytes, v: bytes, version: nat)
    ensures var s, calls := Selected(Items(Leaf(k, v, version)), Bounds(Unlimited, Unlimited)), [true, false];
      && s == [Item(k, v)] && !ActsAsOne(s, calls)
      && TwoEnds(s, s, calls) == [Some(Item(k, v)), Some(Item(k, v))]
      && OneQueue(s, calls) == [Some(Item(k, v)), None]
  {
    ItemsSelected(Leaf(k, v, version), Bounds(Unlimited, Unlimited));
    var s, calls := [Item(k, v)], [true, false];
    assert calls[1..] == [false] && [false][1..] == [];
    assert Take(s, true) == (Some(Item(k, v)), []) && Take(s, false) == (Some(Item(k, v)), []);
    assert TwoEnds([], s, [false]) == [Some(Item(k, v))] && OneQueue([], [false]) == [None];
    assert calls[0] && !calls[1];
  }
}
