/** The keys and entries a tree leaves in its database, and why single writes never break them. */
module Persistence {
  import opened Bytes
  import opened Options
  import opened Varint
  import opened Hashing
  import opened AvlTree
  import opened NodeCodec

  /** `get_root_key` */
  function RootKey(version: nat): bytes {
    [1] + EncodeVar(version)
  }

  /** `get_node_key` */
  function NodeKey(hash: Hash): bytes {
    [2] + hash
  }

  /** `Tree::root_hash` */
  function RootHash(o: Option<Tree>): Hash {
    if o.None? then EmptyHash() else HashOf(o.value)
  }

  /** A root key is the prefix byte and at most five bytes that decode to the version; the keys of the
      versions 1 and 300 byte by byte. */
  lemma RootKeyForm(version: nat)
    requires version <= U32_MAX
    ensures RootKey(1) == [1, 1] && RootKey(300) == [1, 172, 2]
    ensures 2 <= |RootKey(version)| <= 6 && [1] <= RootKey(version)
    ensures DecodeVarUpTo(RootKey(version)[1..], U32_MAX) == Some((version, |RootKey(version)| - 1))
  {
    DecodeEncode(version, []);
    assert EncodeVar(version) + [] == EncodeVar(version) == RootKey(version)[1..];
    LengthBound(version, 5);
  }

  lemma RootKeyInjective(v: nat, w: nat)
    requires RootKey(v) == RootKey(w)
    ensures v == w
  {
    assert EncodeVar(v) == RootKey(v)[1..] == RootKey(w)[1..] == EncodeVar(w);
    assert EncodeVar(v) + [] == EncodeVar(w) + [];
    VarPrefixFree(v, [], w, []);
  }

  /** A node key is the prefix byte and the hash. */
  lemma NodeKeyForm(h: Hash)
    ensures |NodeKey(h)| == 33 && NodeKey(h)[0] == 2 && NodeKey(h)[1..] == h
    ensures NodeKey(h) == [2] + h
  {
  }

  lemma LeafHashForm(k: bytes, v: bytes, version: nat)
    ensures HashOf(Leaf(k, v, version))
         == Sha256([0] + ([2] + (EncodeVar(2 * version) + (Counted(k) + ([32] + Sha256(v))))))
  {
    HashedForm(0, 0, version, k, v, EmptyHash(), EmptyHash());
    assert Data(Leaf(k, v, version)) == LeafData(v, k, version);
  }

  lemma InnerHashForm(k: bytes, version: nat, h: nat, n: nat, l: Tree, r: Tree)
    ensures HashOf(Inner(k, h, n, version, l, r))
         == Sha256(EncodeVar(2 * h) + (EncodeVar(2 * n) + (EncodeVar(2 * version) + (([32] + HashOf(l)) + ([32] + HashOf(r))))))
  {
    HashedForm(h, n, version, k, [], HashOf(l), HashOf(r));
    assert Data(Inner(k, h, n, version, l, r)) == InnerData(h, n, HashOf(l), HashOf(r), k, version);
  }

  /** The root hash, node by node: the digest of the fields in their hashed form, the children's digests
      among them, and for the empty tree the digest of nothing. */
  lemma RootHashForm(o: Option<Tree>)
    ensures RootHash(o) ==
      match o
      case None => Sha256([])
      case Some(Leaf(k, v, version)) =>
        Sha256([0] + ([2] + (EncodeVar(2 * version) + (Counted(k) + ([32] + Sha256(v))))))
      case Some(Inner(_, h, n, version, l, r)) =>
        Sha256(EncodeVar(2 * h) + (EncodeVar(2 * n) + (EncodeVar(2 * version)
          + (([32] + RootHash(Some(l))) + ([32] + RootHash(Some(r)))))))
  {
    match o
    case None =>
    case Some(Leaf(k, v, version)) => LeafHashForm(k, v, version);
    case Some(Inner(k, h, n, version, l, r)) => InnerHashForm(k, version, h, n, l, r);
  }

  lemma NodeKeyInjective(g: Hash, h: Hash)
    requires NodeKey(g) == NodeKey(h)
    ensures g == h
  {
    assert g == NodeKey(g)[1..] && h == NodeKey(h)[1..];
  }

  lemma KeysApart(v: nat, h: Hash)
    ensures NodeKey(h) != RootKey(v) && !([1] <= NodeKey(h))
  {
    assert NodeKey(h)[0] == 2 && RootKey(v)[0] == 1;
  }

  /** A tree that may be stored: valid and within its Rust types. */
  ghost predicate Storable(t: Tree) {
    Valid(t) && TreeFits(t)
  }

  /** A tree's root node is in the database, and both its children are in `nodes`. */
  ghost predicate StoredNode(view: map<bytes, bytes>, nodes: set<Tree>, t: Tree) {
    && Storable(t)
    && HashOf(t) != EmptyHash()
    && NodeKey(HashOf(t)) in view && view[NodeKey(HashOf(t))] == Serialize(Data(t))
    && (t.Inner? ==> t.left in nodes && t.right in nodes)
  }

  /** `nodes` are exactly the trees whose nodes the database holds, closed under children. */
  ghost predicate NodesOk(view: map<bytes, bytes>, nodes: set<Tree>) {
    && (forall t {:trigger StoredNode(view, nodes, t)} :: t in nodes ==> StoredNode(view, nodes, t))
    && (forall h: Hash :: NodeKey(h) in view ==> exists t :: t in nodes && HashOf(t) == h)
  }

  /** A committed version: its root entry is there and its tree is stored. */
  ghost predicate CommittedRoot(view: map<bytes, bytes>, nodes: set<Tree>, v: nat, o: Option<Tree>) {
    && 1 <= v <= U32_MAX
    && RootKey(v) in view && view[RootKey(v)] == RootHash(o)
    && (o.Some? ==> o.value in nodes && Versioned(o.value, v))
  }

  /** `committed` are exactly the versions with a root entry. */
  ghost predicate RootsOk(view: map<bytes, bytes>, nodes: set<Tree>, committed: map<nat, Option<Tree>>) {
    && (forall v {:trigger CommittedRoot(view, nodes, v, committed[v])} ::
          v in committed ==> CommittedRoot(view, nodes, v, committed[v]))
    && (forall k :: k in view && [1] <= k ==> exists v :: v in committed && k == RootKey(v))
  }

  ghost predicate StoreOk(view: map<bytes, bytes>, nodes: set<Tree>, committed: map<nat, Option<Tree>>) {
    NodesOk(view, nodes) && RootsOk(view, nodes, committed)
  }

  ghost function AsSet(o: Option<Tree>): set<Tree> {
    if o.None? then {} else {o.value}
  }

  /** There is room for the key: it is there already, or the number of leaves is not yet the largest
      `u32`. */
  ghost predicate HasRoom(o: Option<Tree>, k: bytes) {
    RootSize(o) < U32_MAX || (RootSize(o) == U32_MAX && k in Contents(o))
  }

  lemma CommittedIsValid(view: map<bytes, bytes>, nodes: set<Tree>, committed: map<nat, Option<Tree>>, v: nat)
    requires StoreOk(view, nodes, committed) && v in committed
    ensures ValidRoot(committed[v], v) && ValidRoot(committed[v], v + 1) && RootSize(committed[v]) <= U32_MAX
    ensures 1 <= v <= U32_MAX
  {
    assert CommittedRoot(view, nodes, v, committed[v]);
    if committed[v].Some? {
      assert StoredNode(view, nodes, committed[v].value);
      VersionedMore(committed[v].value, v, v + 1);
      assert Fits(Data(committed[v].value));
    }
  }

  lemma CommittedIsStorable(view: map<bytes, bytes>, nodes: set<Tree>, committed: map<nat, Option<Tree>>, v: nat)
    requires StoreOk(view, nodes, committed) && v in committed
    ensures committed[v].Some? ==> Storable(committed[v].value)
  {
    assert CommittedRoot(view, nodes, v, committed[v]);
    if committed[v].Some? { assert StoredNode(view, nodes, committed[v].value); }
  }

  /** All inputs that were hashed for a set of trees, and the empty string. */
  ghost predicate HashInputs(nodes: set<Tree>, inputs: set<bytes>) {
    [] in inputs && forall t {:trigger Preimages(t)} :: t in nodes ==> Preimages(t) <= inputs
  }

  /** `view'` holds everything `view` holds. */
  ghost predicate Extends(view': map<bytes, bytes>, view: map<bytes, bytes>) {
    forall k :: k in view ==> k in view' && view'[k] == view[k]
  }

  lemma StoredNodeStays(view: map<bytes, bytes>, nodes: set<Tree>, t: Tree,
                        view': map<bytes, bytes>, nodes': set<Tree>)
    requires StoredNode(view, nodes, t) && Extends(view', view) && nodes <= nodes'
    ensures StoredNode(view', nodes', t)
  {
  }

  lemma CommittedRootStays(view: map<bytes, bytes>, nodes: set<Tree>, v: nat, o: Option<Tree>,
                           view': map<bytes, bytes>, nodes': set<Tree>)
    requires CommittedRoot(view, nodes, v, o) && Extends(view', view) && nodes <= nodes'
    ensures CommittedRoot(view', nodes', v, o)
  {
  }

  /** A node's entry never replaces a different one: a stored node with the same hash is the same. */
  lemma SameHashSameNode(view: map<bytes, bytes>, nodes: set<Tree>, t: Tree, inputs: set<bytes>)
    requires NodesOk(view, nodes) && Storable(t)
    requires CollisionFree(inputs) && HashInputs(nodes + {t}, inputs)
    ensures forall u :: u in nodes && HashOf(u) == HashOf(t) ==> u == t
    ensures NodeKey(HashOf(t)) in view ==> t in nodes
  {
    forall u | u in nodes && HashOf(u) == HashOf(t) ensures u == t {
      assert StoredNode(view, nodes, u);
      HashDetermines(u, t, inputs);
    }
  }

  lemma PutNodeNodes(view: map<bytes, bytes>, nodes: set<Tree>, t: Tree, view': map<bytes, bytes>)
    requires NodesOk(view, nodes) && Extends(view', view)
    requires view' == view[NodeKey(HashOf(t)) := Serialize(Data(t))]
    requires Storable(t) && HashOf(t) != EmptyHash()
    requires t.Inner? ==> t.left in nodes && t.right in nodes
    ensures NodesOk(view', nodes + {t})
  {
    forall u | u in nodes + {t} ensures StoredNode(view', nodes + {t}, u) {
      if u in nodes { StoredNodeStays(view, nodes, u, view', nodes + {t}); }
    }
    forall h: Hash | NodeKey(h) in view' ensures exists u :: u in nodes + {t} && HashOf(u) == h {
      if NodeKey(h) !in view {
        NodeKeyInjective(h, HashOf(t));
        assert t in nodes + {t} && HashOf(t) == h;
      } else {
        var u :| u in nodes && HashOf(u) == h;
        assert u in nodes + {t} && HashOf(u) == h;
      }
    }
  }

  /** Writing one node whose children are already stored keeps everything in order, and overwrites
      nothing with anything different. */
  lemma PutNodeKeeps(view: map<bytes, bytes>, nodes: set<Tree>, committed: map<nat, Option<Tree>>,
                     t: Tree, inputs: set<bytes>, view': map<bytes, bytes>)
    requires StoreOk(view, nodes, committed) && Storable(t)
    requires t.Inner? ==> t.left in nodes && t.right in nodes
    requires CollisionFree(inputs) && HashInputs(nodes + {t}, inputs)
    requires view' == view[NodeKey(HashOf(t)) := Serialize(Data(t))]
    ensures StoreOk(view', nodes + {t}, committed) && Extends(view', view)
  {
    SameHashSameNode(view, nodes, t, inputs);
    NeverEmptyHash(t, inputs);
    if t in nodes { assert StoredNode(view, nodes, t); }
    assert Extends(view', view);
    PutNodeNodes(view, nodes, t, view');
    KeysApart(0, HashOf(t));
    forall v | v in committed ensures CommittedRoot(view', nodes + {t}, v, committed[v]) {
      CommittedRootStays(view, nodes, v, committed[v], view', nodes + {t});
    }
  }

  lemma PutRootNodes(view: map<bytes, bytes>, nodes: set<Tree>, v: nat, hash: Hash, view': map<bytes, bytes>)
    requires NodesOk(view, nodes) && RootKey(v) !in view && view' == view[RootKey(v) := hash]
    ensures NodesOk(view', nodes)
  {
    forall t | t in nodes ensures StoredNode(view', nodes, t) {
      StoredNodeStays(view, nodes, t, view', nodes);
    }
    forall h: Hash | NodeKey(h) in view' ensures NodeKey(h) in view { KeysApart(v, h); }
  }

  lemma RootKeyUnused(view: map<bytes, bytes>, nodes: set<Tree>, committed: map<nat, Option<Tree>>, v: nat)
    requires RootsOk(view, nodes, committed) && v !in committed
    ensures RootKey(v) !in view
  {
    if RootKey(v) in view {
      assert [1] <= RootKey(v);
      var w :| w in committed && RootKey(v) == RootKey(w);
      RootKeyInjective(v, w);
    }
  }

  lemma PutRootRoots(view: map<bytes, bytes>, nodes: set<Tree>, committed: map<nat, Option<Tree>>,
                     v: nat, o: Option<Tree>, view': map<bytes, bytes>)
    requires RootsOk(view, nodes, committed) && RootKey(v) !in view
    requires view' == view[RootKey(v) := RootHash(o)]
    requires CommittedRoot(view', nodes, v, o)
    ensures RootsOk(view', nodes, committed[v := o])
  {
    var committed' := committed[v := o];
    forall w | w in committed' ensures CommittedRoot(view', nodes, w, committed'[w]) {
      if w != v { CommittedRootStays(view, nodes, w, committed[w], view', nodes); }
    }
    forall k | k in view' && [1] <= k ensures exists w :: w in committed' && k == RootKey(w) {
      if k == RootKey(v) {
        assert v in committed' && k == RootKey(v);
      } else {
        var w :| w in committed && k == RootKey(w);
        assert w in committed' && k == RootKey(w);
      }
    }
  }

  /** Writing a root entry for a stored tree commits it and leaves every other version alone. */
  lemma PutRootKeeps(view: map<bytes, bytes>, nodes: set<Tree>, committed: map<nat, Option<Tree>>,
                     v: nat, o: Option<Tree>, view': map<bytes, bytes>)
    requires StoreOk(view, nodes, committed)
    requires 1 <= v <= U32_MAX && v !in committed
    requires o.Some? ==> o.value in nodes && Versioned(o.value, v)
    requires view' == view[RootKey(v) := RootHash(o)]
    ensures StoreOk(view', nodes, committed[v := o]) && Extends(view', view)
  {
    RootKeyUnused(view, nodes, committed, v);
    PutRootNodes(view, nodes, v, RootHash(o), view');
    PutRootRoots(view, nodes, committed, v, o, view');
  }

  // ---------- the writes of a commit, one by one ----------

  ghost function WithNode(view: map<bytes, bytes>, t: Tree): map<bytes, bytes> {
    view[NodeKey(HashOf(t)) := Serialize(Data(t))]
  }

  /** The database after writing some nodes, in order. */
  ghost function PutNodes(view: map<bytes, bytes>, ts: seq<Tree>): map<bytes, bytes> {
    if ts == [] then view else WithNode(PutNodes(view, ts[..|ts| - 1]), ts[|ts| - 1])
  }

  /** The database after each of these writes. */
  ghost function Views(view: map<bytes, bytes>, ts: seq<Tree>): seq<map<bytes, bytes>> {
    if ts == [] then [] else Views(view, ts[..|ts| - 1]) + [PutNodes(view, ts)]
  }

  ghost function Elements(ts: seq<Tree>): set<Tree> {
    set t | t in ts
  }

  /** Every one of the trees is part of `t`. */
  ghost predicate PartsOf(ts: seq<Tree>, t: Tree) {
    forall x :: x in ts ==> Subtree(x, t)
  }

  /** Every node is written after its children, unless they were stored before. */
  ghost predicate ChildrenFirst(nodes: set<Tree>, ts: seq<Tree>) {
    ts != [] ==>
      var init, last := ts[..|ts| - 1], ts[|ts| - 1];
      && ChildrenFirst(nodes, init)
      && (last.Inner? ==> last.left in nodes + Elements(init) && last.right in nodes + Elements(init))
  }

  /** What a series of writes can be told by: the database, the trees stored, and the log of what the
      database was after every single write. */
  datatype Snapshot = Snapshot(view: map<bytes, bytes>, nodes: set<Tree>, log: seq<map<bytes, bytes>>)

  ghost function Write(x: Snapshot, t: Tree): Snapshot {
    Snapshot(WithNode(x.view, t), x.nodes + {t}, x.log + [WithNode(x.view, t)])
  }

  ghost function WriteAll(x: Snapshot, ts: seq<Tree>): Snapshot {
    if ts == [] then x else Write(WriteAll(x, ts[..|ts| - 1]), ts[|ts| - 1])
  }

  /** From one snapshot to the other exactly these nodes were written, one at a time, in this order,
      and children first. */
  ghost predicate Wrote(before: Snapshot, after: Snapshot, ts: seq<Tree>) {
    after == WriteAll(before, ts) && ChildrenFirst(before.nodes, ts)
  }

  lemma {:induction false} WriteAllAppend(x: Snapshot, a: seq<Tree>, b: seq<Tree>)
    ensures WriteAll(x, a + b) == WriteAll(WriteAll(x, a), b)
  {
    if b == [] {
      assert a + b == a;
    } else {
      assert (a + b)[..|a + b| - 1] == a + b[..|b| - 1];
      WriteAllAppend(x, a, b[..|b| - 1]);
    }
  }

  lemma Associates<T>(a: seq<T>, b: seq<T>, c: seq<T>)
    ensures a + b + c == a + (b + c)
  {
  }

  lemma ElementsAppend(a: seq<Tree>, b: seq<Tree>)
    ensures Elements(a + b) == Elements(a) + Elements(b)
  {
  }

  lemma {:induction false} WriteAllView(x: Snapshot, ts: seq<Tree>)
    ensures WriteAll(x, ts).view == PutNodes(x.view, ts)
  {
    if ts == [] {
    } else {
      WriteAllView(x, ts[..|ts| - 1]);
    }
  }

  lemma {:induction false} WriteAllNodes(x: Snapshot, ts: seq<Tree>)
    ensures WriteAll(x, ts).nodes == x.nodes + Elements(ts)
  {
    if ts == [] {
      assert Elements(ts) == {};
    } else {
      var init, last := ts[..|ts| - 1], ts[|ts| - 1];
      WriteAllNodes(x, init);
      ElementsAppend(init, [last]);
      assert ts == init + [last] && Elements([last]) == {last};
    }
  }

  lemma {:induction false} WriteAllLog(x: Snapshot, ts: seq<Tree>)
    ensures WriteAll(x, ts).log == x.log + Views(x.view, ts)
  {
    if ts == [] {
    } else {
      var init := ts[..|ts| - 1];
      WriteAllLog(x, init);
      WriteAllView(x, ts);
      Associates(x.log, Views(x.view, init), [PutNodes(x.view, ts)]);
    }
  }

  lemma WriteAllIs(x: Snapshot, ts: seq<Tree>)
    ensures WriteAll(x, ts) == Snapshot(PutNodes(x.view, ts), x.nodes + Elements(ts), x.log + Views(x.view, ts))
  {
    WriteAllView(x, ts);
    WriteAllNodes(x, ts);
    WriteAllLog(x, ts);
  }

  lemma {:induction false} ChildrenFirstAppend(nodes: set<Tree>, a: seq<Tree>, b: seq<Tree>)
    requires ChildrenFirst(nodes, a) && ChildrenFirst(nodes + Elements(a), b)
    ensures ChildrenFirst(nodes, a + b)
  {
    if b == [] {
      assert a + b == a;
    } else {
      var init := b[..|b| - 1];
      assert (a + b)[..|a + b| - 1] == a + init;
      ChildrenFirstAppend(nodes, a, init);
      ElementsAppend(a, init);
      assert nodes + Elements(a) + Elements(init) == nodes + Elements(a + init);
    }
  }

  lemma WroteNone(x: Snapshot)
    ensures Wrote(x, x, [])
  {
  }

  lemma WroteOne(x: Snapshot, t: Tree)
    requires t.Inner? ==> t.left in x.nodes && t.right in x.nodes
    ensures Wrote(x, Write(x, t), [t])
  {
    assert [t][..0] == [] && WriteAll(x, []) == x;
  }

  lemma WroteMore(x: Snapshot, y: Snapshot, z: Snapshot, a: seq<Tree>, b: seq<Tree>)
    requires Wrote(x, y, a) && Wrote(y, z, b)
    ensures Wrote(x, z, a + b)
  {
    WriteAllAppend(x, a, b);
    WriteAllIs(x, a);
    ChildrenFirstAppend(x.nodes, a, b);
  }

  /** Entries of roots, and nothing else, are the same. */
  ghost predicate SameRoots(view': map<bytes, bytes>, view: map<bytes, bytes>) {
    forall k :: [1] <= k ==> Lookup(view', k) == Lookup(view, k)
  }

  // ---------- reading back ----------

  /** The node entries of the database that decode, as the nodes they decode to. */
  function Decoding(view: map<bytes, bytes>): map<bytes, NodeData> {
    map k | k in view && [2] <= k && Deserialize(view[k]).Done? :: Deserialize(view[k]).value
  }

  /** What a reader of the database sees: every node of the tree decodes from its hash's entry. */
  ghost predicate Reads(loaded: map<bytes, NodeData>, t: Tree) {
    && NodeKey(HashOf(t)) in loaded
    && loaded[NodeKey(HashOf(t))] == Data(t)
    && (t.Inner? ==> Reads(loaded, t.left) && Reads(loaded, t.right))
  }

  lemma StoredDecodes(view: map<bytes, bytes>, nodes: set<Tree>, t: Tree)
    requires StoredNode(view, nodes, t)
    ensures NodeKey(HashOf(t)) in Decoding(view) && Decoding(view)[NodeKey(HashOf(t))] == Data(t)
  {
    DeserializeSerialize(Data(t));
  }

  /** A stored tree is fully reachable: every node down to the leaves reads back. */
  lemma {:induction false} StoredReads(view: map<bytes, bytes>, nodes: set<Tree>, t: Tree)
    requires NodesOk(view, nodes) && t in nodes
    ensures Reads(Decoding(view), t)
  {
    assert StoredNode(view, nodes, t);
    StoredDecodes(view, nodes, t);
    if t.Leaf? {
    } else {
      StoredReads(view, nodes, t.left);
      StoredReads(view, nodes, t.right);
    }
  }

  /** A hash reads back as one tree only, with no assumption on the hash function: the database
      itself fixes what each hash stands for. */
  lemma {:induction false} ReadsOnce(loaded: map<bytes, NodeData>, a: Tree, b: Tree)
    requires Reads(loaded, a) && Reads(loaded, b) && HashOf(a) == HashOf(b)
    ensures a == b
  {
    assert Data(a) == Data(b);
    if a.Leaf? {
    } else {
      ReadsOnce(loaded, a.left, b.left);
      ReadsOnce(loaded, a.right, b.right);
    }
  }

  datatype Answer = Found(value: Option<bytes>) | Broken

  /** A lookup by hash that has nothing but the stored nodes and gives up after `steps` of them. */
  function Walk(loaded: map<bytes, NodeData>, hash: Hash, k: bytes, steps: nat): Answer
    decreases steps
  {
    if steps == 0 || NodeKey(hash) !in loaded then Broken
    else match loaded[NodeKey(hash)]
      case LeafData(value, key, _) => Found(if key == k then Some(value) else None)
      case InnerData(_, _, left, right, key, _) =>
        Walk(loaded, if Less(k, key) then left else right, k, steps - 1)
  }

  /** The answer a query at a version gets from the database alone, reading at most 46 nodes. */
  function QueryAt(view: map<bytes, bytes>, v: nat, k: bytes): Answer {
    if RootKey(v) !in view || |view[RootKey(v)]| != 32 then Broken
    else if view[RootKey(v)] == EmptyHash() then Found(None)
    else Walk(Decoding(view), view[RootKey(v)], k, 46)
  }

  /** A lookup reads at most one node per level. */
  lemma {:induction false} WalkFinds(loaded: map<bytes, NodeData>, t: Tree, k: bytes, steps: nat)
    requires Reads(loaded, t) && Balanced(t) && Height(t) < steps
    ensures Walk(loaded, HashOf(t), k, steps) == Found(Get(t, k))
  {
    if t.Leaf? {
    } else {
      WalkFinds(loaded, if Less(k, t.key) then t.left else t.right, k, steps - 1);
    }
  }

  lemma HeightBoundOfFits(t: Tree)
    requires Storable(t)
    ensures Height(t) <= 45
  {
    assert Fits(Data(t));
    HeightBound(t);
  }

  /** Querying a committed version answers every key from the map that was committed. */
  lemma QueryIsCommitted(view: map<bytes, bytes>, nodes: set<Tree>, committed: map<nat, Option<Tree>>,
                         v: nat, k: bytes)
    requires StoreOk(view, nodes, committed) && v in committed
    ensures QueryAt(view, v, k) == Found(Lookup(Contents(committed[v]), k))
  {
    assert CommittedRoot(view, nodes, v, committed[v]);
    if committed[v].Some? {
      var t := committed[v].value;
      assert StoredNode(view, nodes, t);
      StoredReads(view, nodes, t);
      HeightBoundOfFits(t);
      WalkFinds(Decoding(view), t, k, 46);
      GetIsLookup(t, k);
    }
  }

  /** Crash safety, read off the bytes: every inner node that is stored has both children stored,
      and every recorded root is stored. */
  ghost predicate Closed(view: map<bytes, bytes>) {
    && (forall h: Hash :: NodeKey(h) in view ==>
          match Deserialize(view[NodeKey(h)])
          case Done(InnerData(_, _, left, right, _, _)) => NodeKey(left) in view && NodeKey(right) in view
          case Done(LeafData(_, _, _)) => true
          case _ => false)
    && (forall k :: k in view && [1] <= k ==>
          |view[k]| == 32 && (view[k] == EmptyHash() || NodeKey(view[k]) in view))
  }

  lemma StoreOkClosed(view: map<bytes, bytes>, nodes: set<Tree>, committed: map<nat, Option<Tree>>)
    requires StoreOk(view, nodes, committed)
    ensures Closed(view)
  {
    forall h: Hash | NodeKey(h) in view
      ensures match Deserialize(view[NodeKey(h)])
        case Done(InnerData(_, _, left, right, _, _)) => NodeKey(left) in view && NodeKey(right) in view
        case Done(LeafData(_, _, _)) => true
        case _ => false
    {
      var t :| t in nodes && HashOf(t) == h;
      assert StoredNode(view, nodes, t);
      DeserializeSerialize(Data(t));
      if t.Inner? {
        assert StoredNode(view, nodes, t.left) && StoredNode(view, nodes, t.right);
      }
    }
    forall k | k in view && [1] <= k
      ensures |view[k]| == 32 && (view[k] == EmptyHash() || NodeKey(view[k]) in view)
    {
      var v :| v in committed && k == RootKey(v);
      assert CommittedRoot(view, nodes, v, committed[v]);
      if committed[v].Some? { assert StoredNode(view, nodes, committed[v].value); }
    }
  }
}
