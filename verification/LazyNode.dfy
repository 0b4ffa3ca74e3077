/** The nodes as they live in memory, changed in place, and the node database that supplies the
    children that are not loaded. */
module LazyNode {
  import opened Bytes
  import opened Options
  import opened SortedItems
  import opened Varint
  import opened Hashing
  import opened AvlTree
  import opened NodeCodec
  import opened Prefixes
  import opened Database
  import opened Persistence

  /** A value of Rust type `u8`, where the addition that made it did not overflow. */
  function U8(n: nat): nat
    requires n <= U8_MAX
  {
    n
  }

  /** A value of Rust type `u32`, where the addition that made it did not overflow. */
  function U32(n: nat): nat
    requires n <= U32_MAX
  {
    n
  }

  function DataHeight(d: NodeData): nat {
    if d.LeafData? then 0 else d.height
  }

  function DataSize(d: NodeData): nat {
    if d.LeafData? then 1 else d.size
  }

  function Stamped(d: NodeData, version: nat): NodeData
    requires d.InnerData?
  {
    InnerData(d.height, d.size, d.leftHash, d.rightHash, d.key, version)
  }

  /** A stored hash decodes, and to the root node of every stored tree that has it. */
  lemma NodesDecode(view: map<bytes, bytes>, nodes: set<Tree>, hash: Hash)
    requires NodesOk(view, nodes)
    ensures NodeKey(hash) in view ==> Deserialize(view[NodeKey(hash)]).Done?
    ensures forall t :: t in nodes && HashOf(t) == hash ==>
      && NodeKey(hash) in view && Deserialize(view[NodeKey(hash)]) == Done(Data(t))
      && (t.Inner? ==> t.left in nodes && t.right in nodes)
  {
    forall t | t in nodes && HashOf(t) == hash
      ensures NodeKey(hash) in view && Deserialize(view[NodeKey(hash)]) == Done(Data(t))
      ensures t.Inner? ==> t.left in nodes && t.right in nodes
    {
      assert StoredNode(view, nodes, t);
      DeserializeSerialize(Data(t));
    }
  }

  /** The nodes loaded under a child, in the order in which they are written. */
  ghost function ChildOrder(child: Node?, t: Tree): seq<Tree>
    reads child, Footprint(child)
    decreases t, 1
  {
    if child == null then [] else child.WriteOrder(t)
  }

  /** A child and the order in which what is loaded of it will be written. */
  ghost predicate Ordered(child: Node?, hash: Hash, t: Tree, stored: set<Tree>, order: seq<Tree>)
    reads child, Footprint(child)
  {
    Child(child, hash, t, stored) && order == ChildOrder(child, t)
  }

  lemma ChildMore(child: Node?, hash: Hash, t: Tree, stored: set<Tree>, more: set<Tree>, order: seq<Tree>)
    requires Ordered(child, hash, t, stored, order) && stored <= more
    ensures Ordered(child, hash, t, more, order)
  {
    if child != null { child.RepMore(t, stored, more); }
  }

  /** Every cached node is what its database entry decodes to. */
  ghost predicate CacheOk(cache: map<Hash, NodeData>, view: map<bytes, bytes>) {
    forall h :: h in cache ==> NodeKey(h) in view && Deserialize(view[NodeKey(h)]) == Done(cache[h])
  }

  lemma CacheMore(cache: map<Hash, NodeData>, cache': map<Hash, NodeData>, view: map<bytes, bytes>, hash: Hash, node: NodeData)
    requires CacheOk(cache, view)
    requires NodeKey(hash) in view && Deserialize(view[NodeKey(hash)]) == Done(node)
    requires forall h :: h in cache' ==> if h == hash then cache'[h] == node else h in cache && cache'[h] == cache[h]
    ensures CacheOk(cache', view)
  {
  }

  lemma CacheStays(cache: map<Hash, NodeData>, view: map<bytes, bytes>, view': map<bytes, bytes>)
    requires CacheOk(cache, view) && Extends(view', view)
    ensures CacheOk(cache, view')
  {
  }

  datatype TreeError = VersionNotFound(version: nat) | Overwrite

  /** A root field and the tree it stands for. */
  ghost predicate Holds(root: Node?, o: Option<Tree>, stored: set<Tree>)
    reads root, Footprint(root)
  {
    if root == null then o == None else o.Some? && root.Rep(o.value, stored)
  }

  lemma StorableChildren(t: Tree)
    requires Storable(t) && t.Inner?
    ensures Storable(t.left) && Storable(t.right)
    ensures Preimages(t.left) <= Preimages(t) && Preimages(t.right) <= Preimages(t)
  {
    ValidChildren(t);
  }

  lemma EncodeVarInjective(v: nat, w: nat)
    requires EncodeVar(v) == EncodeVar(w)
    ensures v == w
  {
    VarPrefixFree(v, [], w, []);
  }

  /** The version a root entry's key, without its prefix, decodes to. */
  ghost function VersionOf(k: bytes): nat {
    var d := DecodeVarUpTo(k, U32_MAX);
    if d.Some? then d.value.0 else 0
  }

  lemma UnderPrefix(entries: seq<Item>, p: bytes, k: bytes)
    ensures HasKey(Stripped(entries, p), k) <==> p + k in ToMap(entries)
  {
    FindStripped(entries, p, k);
    FindIsLookup(Stripped(entries, p), k);
    FindIsLookup(entries, p + k);
    ToMapHas(Stripped(entries, p), k);
  }

  ghost predicate DecodesTo(k: bytes, committed: map<nat, Option<Tree>>) {
    var d := DecodeVarUpTo(k, U32_MAX);
    d.Some? && d.value.0 in committed && k == EncodeVar(d.value.0)
  }

  lemma DecodesCommitted(view: map<bytes, bytes>, nodes: set<Tree>, committed: map<nat, Option<Tree>>, v: nat)
    requires RootsOk(view, nodes, committed) && v in committed
    ensures DecodesTo(EncodeVar(v), committed)
  {
    assert CommittedRoot(view, nodes, v, committed[v]);
    DecodeEncode(v, []);
    assert EncodeVar(v) + [] == EncodeVar(v);
  }

  lemma RootKeyDecodes(view: map<bytes, bytes>, nodes: set<Tree>, committed: map<nat, Option<Tree>>, k: bytes)
    requires RootsOk(view, nodes, committed) && [1] + k in view
    ensures DecodesTo(k, committed)
  {
    assert [1] <= [1] + k;
    var v :| v in committed && [1] + k == RootKey(v);
    assert k == ([1] + k)[1..] == RootKey(v)[1..] == EncodeVar(v);
    DecodesCommitted(view, nodes, committed, v);
  }

  /** Under the prefix of root keys the database holds keys that decode, to exactly the committed
      versions. */
  lemma RootEntries(entries: seq<Item>, nodes: set<Tree>, committed: map<nat, Option<Tree>>)
    requires RootsOk(ToMap(entries), nodes, committed)
    ensures var pairs := Stripped(entries, [1]);
      && (forall i :: 0 <= i < |pairs| ==> DecodeVarUpTo(pairs[i].key, U32_MAX).Some?)
      && committed.Keys == set i | 0 <= i < |pairs| :: VersionOf(pairs[i].key)
  {
    var pairs := Stripped(entries, [1]);
    forall i | 0 <= i < |pairs| ensures DecodesTo(pairs[i].key, committed) {
      assert HasKey(pairs, pairs[i].key);
      UnderPrefix(entries, [1], pairs[i].key);
      RootKeyDecodes(ToMap(entries), nodes, committed, pairs[i].key);
    }
    forall v | v in committed ensures exists i :: 0 <= i < |pairs| && VersionOf(pairs[i].key) == v {
      assert CommittedRoot(ToMap(entries), nodes, v, committed[v]);
      UnderPrefix(entries, [1], EncodeVar(v));
      DecodesCommitted(ToMap(entries), nodes, committed, v);
      var i :| 0 <= i < |pairs| && pairs[i].key == EncodeVar(v);
      EncodeVarInjective(v, VersionOf(pairs[i].key));
    }
  }

  lemma {:induction false} UnderHas(entries: seq<Item>, p: bytes)
    ensures forall i :: 0 <= i < |Under(entries, p)| ==> StartsWith(Under(entries, p)[i].key, p)
    ensures Under(entries, p) == [] <==> forall k :: k in ToMap(entries) ==> !StartsWith(k, p)
  {
    if entries == [] {
    } else {
      UnderHas(entries[1..], p);
    }
  }

  lemma BareEntries(entries: seq<Item>, nodes: set<Tree>, committed: map<nat, Option<Tree>>)
    requires RootsOk(ToMap(entries), nodes, committed)
    ensures forall i :: 0 <= i < |Under(entries, [1])| ==> DecodeVarUpTo(Under(entries, [1])[i].key, U32_MAX) == Some((1, 1))
    ensures Under(entries, [1]) == [] <==> committed == map[]
  {
    UnderHas(entries, [1]);
    forall k | StartsWith(k, [1]) ensures DecodeVarUpTo(k, U32_MAX) == Some((1, 1)) {
      assert k[0] == 1;
    }
    if v :| v in committed {
      assert CommittedRoot(ToMap(entries), nodes, v, committed[v]);
      assert StartsWith(RootKey(v), [1]);
    }
  }

  /** `get_versions` on a database that is not seen through a prefix: the keys still have the prefix of
      root keys on, and every one of them decodes to its first byte. */
  method BareVersions(db: MemDB, ghost nodes: set<Tree>, ghost committed: map<nat, Option<Tree>>) returns (versions: set<nat>)
    requires RootsOk(ToMap(db.store), nodes, committed)
    ensures versions == if committed == map[] then {} else {1}
    ensures versions == committed.Keys <==> committed.Keys <= {1}
  {
    var pairs := db.PrefixIterator([1]);
    BareEntries(db.store, nodes, committed);
    versions := {};
    for i := 0 to |pairs|
      invariant versions == if i == 0 then {} else {1}
    {
      var decoded := DecodeVarUpTo(pairs[i].key, U32_MAX);
      versions := versions + {decoded.value.0};
    }
  }

  /** The smallest database on which that goes wrong: the empty tree saved twice. */
  lemma TwoEmptyVersions()
    ensures var view, committed := map[RootKey(1) := EmptyHash(), RootKey(2) := EmptyHash()], map[1 := None, 2 := None];
      StoreOk(view, {}, committed) && !(committed.Keys <= {1})
  {
    var view: map<bytes, bytes> := map[RootKey(1) := EmptyHash(), RootKey(2) := EmptyHash()];
    var committed: map<nat, Option<Tree>> := map[1 := None, 2 := None];
    assert RootKey(1) == [1, 1] && RootKey(2) == [1, 2];
    forall h: Hash ensures NodeKey(h) !in view {
      KeysApart(1, h);
      KeysApart(2, h);
    }
    forall k | k in view ensures exists v :: v in committed && k == RootKey(v) {
      assert 1 in committed && 2 in committed;
    }
    assert CommittedRoot(view, {}, 1, committed[1]) && CommittedRoot(view, {}, 2, committed[2]);
  }

  ghost function Footprint(child: Node?): set<Node>
    reads child
  {
    if child == null then {} else {child} + child.Repr
  }

  /** The child field of a node represents `t`: a loaded child does, and in place of one not loaded
      the tree is stored under the recorded hash. */
  ghost predicate Child(child: Node?, hash: Hash, t: Tree, stored: set<Tree>)
    reads child, Footprint(child)
    decreases t, 2
  {
    if child == null then t in stored && hash == HashOf(t) else child.Rep(t, stored)
  }

  lemma {:induction false} ChildUnique(child: Node?, hash: Hash, t: Tree, u: Tree, view: map<bytes, bytes>, stored: set<Tree>)
    requires NodesOk(view, stored) && Child(child, hash, t, stored) && Child(child, hash, u, stored)
    ensures t == u
    decreases t, 1
  {
    if child == null {
      StoredReads(view, stored, t);
      StoredReads(view, stored, u);
      ReadsOnce(Decoding(view), t, u);
    } else {
      child.RepUnique(t, u, view, stored);
    }
  }

  /** The four results of `recursive_remove` say what happened. */
  ghost predicate Reports(r: Removal, value: Option<bytes>, newHash: Option<Hash>, leafCut: bool, newKey: Option<bytes>) {
    match r
    case Absent => value == None && newHash == None && !leafCut && newKey == None
    case Cut(v) => value == Some(v) && newHash == None && leafCut && newKey == None
    case Removed(v, node, k) => value == Some(v) && newHash == Some(HashOf(node)) && !leafCut && newKey == k
    case Panic => false
  }

  /** The tree a removal leaves in place: a leaf to cut is left to its parent. */
  ghost function After(t: Tree, r: Removal): Tree {
    if r.Removed? then r.node else t
  }

  ghost predicate BalancedBelow(t: Tree)
    requires t.Inner?
  {
    Balanced(t.left) && Balanced(t.right) && Size(t.left) + Size(t.right) <= U32_MAX
  }

  lemma BalancedBelowFits(t: Tree)
    requires t.Inner? && BalancedBelow(t)
    ensures Height(t.left) <= 45 && Height(t.right) <= 45
  {
    HeightBound(t.left);
    HeightBound(t.right);
  }

  /** The widths hold throughout a right rotation. */
  ghost predicate RotatesRight(t: Tree) {
    && CanRotateRight(t)
    && Height(t.left.left) <= 100 && Height(t.left.right) <= 100 && Height(t.right) <= 100
    && Size(t.left.left) + Size(t.left.right) + Size(t.right) <= U32_MAX
  }

  ghost predicate RotatesLeft(t: Tree) {
    && CanRotateLeft(t)
    && Height(t.left) <= 100 && Height(t.right.left) <= 100 && Height(t.right.right) <= 100
    && Size(t.left) + Size(t.right.left) + Size(t.right.right) <= U32_MAX
  }

  /** The widths hold throughout both rotations. */
  ghost predicate RotatesLeftRight(t: Tree) {
    t.Inner? && RotatesLeft(t.left) && RotatesRight(t.(left := RotateLeft(t.left, 0)))
  }

  lemma TallLeftFits(n: Tree)
    requires n.Inner? && BalancedBelow(n) && BalanceFactor(n) == 2
    ensures RotatesRight(n) && (BalanceFactor(n.left) < 0 ==> RotatesLeftRight(n))
  {
    BalancedBelowFits(n);
    assert n.left == Refreshed(n.left, n.left.version);
    if BalanceFactor(n.left) < 0 {
      assert Balanced(n.left.right) && n.left.right == Refreshed(n.left.right, n.left.right.version);
    }
  }

  ghost predicate RotatesRightLeft(t: Tree) {
    t.Inner? && RotatesRight(t.right) && RotatesLeft(t.(right := RotateRight(t.right, 0)))
  }

  lemma TallRightFits(n: Tree)
    requires n.Inner? && BalancedBelow(n) && BalanceFactor(n) == -2
    ensures RotatesLeft(n) && (BalanceFactor(n.right) > 0 ==> RotatesRightLeft(n))
  {
    BalancedBelowFits(n);
    assert n.right == Refreshed(n.right, n.right.version);
    if BalanceFactor(n.right) > 0 {
      assert Balanced(n.right.left) && n.right.left == Refreshed(n.right.left, n.right.left.version);
    }
  }

  /** The rotations the four cases of an insertion choose stay within the widths. */
  ghost predicate SetRotates(t1: Tree, key: bytes, version: nat)
    requires t1.Inner?
  {
    var n := Refreshed(t1, version);
    && (BalanceFactor(n) > 1 ==> if Less(key, n.left.key) then RotatesRight(n) else RotatesLeftRight(n))
    && (BalanceFactor(n) < -1 ==> if Less(n.right.key, key) then RotatesLeft(n) else RotatesRightLeft(n))
  }

  /** The node after the insertion below it, before its own fields are brought up to date. */
  ghost function SetBelow(t: Tree, key: bytes, value: bytes, version: nat): Tree
    requires t.Inner? && SetNode(if Less(key, t.key) then t.left else t.right, key, value, version).Some?
  {
    if Less(key, t.key) then t.(left := SetNode(t.left, key, value, version).value)
    else t.(right := SetNode(t.right, key, value, version).value)
  }

  lemma ChildHasKey(t: Tree, key: bytes)
    requires Valid(t) && t.Inner? && HasKey(Items(t), key)
    ensures HasKey(Items(if Less(key, t.key) then t.left else t.right), key)
  {
    ValidChildren(t);
    if Less(key, t.key) {
      if !HasKey(Items(t.left), key) { AbsentRight(Items(t.left), Items(t.right), t.key, key); }
    } else {
      if !HasKey(Items(t.right), key) { AbsentLeft(Items(t.left), Items(t.right), t.key, key); }
    }
  }

  lemma SetRotatesLeft(t: Tree, key: bytes, l: Tree, version: nat)
    requires Valid(t) && t.Inner? && Less(key, t.key) && SetGrowth(t.left, key, l)
    requires Size(l) + Size(t.right) <= U32_MAX
    ensures BalancedBelow(t.(left := l)) && SetRotates(t.(left := l), key, version)
  {
    var n := Refreshed(t.(left := l), version);
    if BalanceFactor(n) > 1 {
      TallLeftFits(n);
    }
  }

  lemma SetRotatesRight(t: Tree, key: bytes, r: Tree, version: nat)
    requires Valid(t) && t.Inner? && !Less(key, t.key) && SetGrowth(t.right, key, r)
    requires Size(t.left) + Size(r) <= U32_MAX
    ensures BalancedBelow(t.(right := r)) && SetRotates(t.(right := r), key, version)
  {
    var n := Refreshed(t.(right := r), version);
    if BalanceFactor(n) < -1 {
      TallRightFits(n);
      SetRightGrowth(t, key, r, version);
      if t.right.Inner? { LessTotal(key, r.key); RoutingKeyIsPresent(t.right); }
      if Less(r.key, key) { LessAsymmetric(r.key, key); }
    }
  }

  /** After an insertion below `t` the node is still within the widths, and so are the rotations it
      may need. */
  lemma SetBelowFits(t: Tree, key: bytes, value: bytes, version: nat)
    requires Valid(t) && t.Inner? && HasRoom(Some(t), key)
    ensures Valid(t.left) && Valid(t.right) && Size(t.left) < U32_MAX && Size(t.right) < U32_MAX
    ensures SetNode(if Less(key, t.key) then t.left else t.right, key, value, version).Some?
    ensures BalancedBelow(SetBelow(t, key, value, version)) && SetRotates(SetBelow(t, key, value, version), key, version)
  {
    ValidChildren(t);
    SizeIsCount(t.left);
    SizeIsCount(t.right);
    ToMapHas(Items(t), key);
    if HasKey(Items(t), key) { ChildHasKey(t, key); }
    if Less(key, t.key) {
      SetSize(t.left, key, value, version);
      SetBalanced(t.left, key, value, version);
      SetRotatesLeft(t, key, SetNode(t.left, key, value, version).value, version);
    } else {
      SetSize(t.right, key, value, version);
      SetBalanced(t.right, key, value, version);
      SetRotatesRight(t, key, SetNode(t.right, key, value, version).value, version);
    }
  }

  /** Rebalancing after a removal below `t` stays within the widths and within -2..2. */
  ghost predicate RemoveFits(t: Tree, key: bytes, version: nat)
    requires t.Inner?
  {
    var r := RemoveNode(if Less(key, t.key) then t.left else t.right, key, version);
    && !r.Panic?
    && (r.Removed? ==>
      var u := if Less(key, t.key) then t.(left := r.node) else t.(right := r.node);
      BalancedBelow(u) && -2 <= BalanceFactor(u) <= 2)
  }

  lemma RemoveBelowFits(t: Tree, key: bytes, version: nat)
    requires Valid(t) && t.Inner? && Size(t) <= U32_MAX
    ensures Valid(t.left) && Valid(t.right) && Size(t.left) <= U32_MAX && Size(t.right) <= U32_MAX
    ensures RemoveFits(t, key, version)
  {
    ValidChildren(t);
    var child := if Less(key, t.key) then t.left else t.right;
    RemoveBalanced(child, key, version);
    RemoveSize(child, key, version);
  }

  /** The content-addressed node store with its cache. */
  class NodeDB {
    const db: PrefixDB
    /** The LRU cache: which entries it keeps is left open. */
    var cache: map<Hash, NodeData>
    /** The trees whose nodes are stored, and the tree committed under each version. */
    ghost var nodes: set<Tree>
    ghost var committed: map<nat, Option<Tree>>
    /** What the database was after every single write. */
    ghost var log: seq<map<bytes, bytes>>

    ghost predicate Valid()
      reads this, db.db
    {
      && db.db.Valid()
      && StoreOk(db.View(), nodes, committed)
      && CacheOk(cache, db.View())
    }

    ghost function Now(): Snapshot
      reads this, db.db
    {
      Snapshot(db.View(), nodes, log)
    }

    constructor (db: PrefixDB, ghost nodes: set<Tree>, ghost committed: map<nat, Option<Tree>>)
      requires db.db.Valid() && StoreOk(db.View(), nodes, committed)
      ensures Valid()
      ensures this.db == db && this.nodes == nodes && this.committed == committed && log == []
    {
      this.db := db;
      this.cache := map[];
      this.log := [];
      this.nodes := nodes;
      this.committed := committed;
    }

    /** Puts an entry into the cache, which may drop any others. */
    method CachePut(hash: Hash, node: NodeData)
      modifies this`cache
      ensures forall h :: h in cache ==>
        if h == hash then cache[h] == node else h in old(cache) && cache[h] == old(cache[h])
    {
      var kept: set<Hash> := *;
      cache := (map h | h in cache && h in kept :: cache[h])[hash := node];
    }

    /** `get_node`: the node of a hash, without its children, from the cache or the database.
        The answer does not depend on what is cached. */
    method GetNode(hash: Hash) returns (r: Node?)
      requires Valid()
      modifies this`cache
      ensures Valid()
      ensures r == null <==> [2] + hash !in db.View()
      ensures r != null ==> fresh(r) && r.Repr == {r} && r.left == null && r.right == null
      ensures r != null ==> Deserialize(db.View()[NodeKey(hash)]) == Done(r.data)
      ensures forall t :: t in nodes && HashOf(t) == hash ==> r != null && r.Rep(t, nodes)
    {
      NodesDecode(db.View(), nodes, hash);
      NodeKeyForm(hash);
      if hash in cache {
        r := new Node(cache[hash], null, null);
      } else {
        var bytes := db.Get(NodeKey(hash));
        if bytes.None? { return null; }
        var node := Deserialize(bytes.value);
        CachePut(hash, node.value);
        r := new Node(node.value, null, null);
      }
      forall t | t in nodes && HashOf(t) == hash ensures r.Rep(t, nodes) {
        r.BareRep(t, nodes);
      }
    }

    // ---------- saving ----------

    /** One write to the database, put on record. */
    method Put(key: bytes, value: bytes)
      requires db.db.Valid()
      modifies this`log, db.db
      ensures db.db.Valid() && db.View() == old(db.View())[key := value]
      ensures log == old(log) + [db.View()]
      ensures SameApart(old(db.db.store), db.db.store, db.prefix)
    {
      db.Put(key, value);
      log := log + [db.View()];
    }

    method FillCache(hash: Hash, node: NodeData)
      requires Valid() && Fits(node)
      requires NodeKey(hash) in db.View() && db.View()[NodeKey(hash)] == Serialize(node)
      modifies this`cache
      ensures Valid()
    {
      ghost var view, before := db.View(), cache;
      DeserializeSerialize(node);
      CachePut(hash, node);
      CacheMore(before, cache, view, hash, node);
    }

    /** `save_node`: one write, of a node whose children are stored. The database is in order
        before it and after it. */
    method SaveNode(node: Node, hash: Hash, ghost t: Tree, ghost inputs: set<bytes>)
      requires Valid() && Storable(t) && node.data == Data(t) && hash == HashOf(t)
      requires t.Inner? ==> t.left in nodes && t.right in nodes
      requires CollisionFree(inputs) && HashInputs(nodes + {t}, inputs)
      modifies this, db.db
      ensures Valid() && Now() == Write(old(Now()), t) && committed == old(committed)
      ensures db.View() == old(db.View())[[2] + hash := Serialize(node.data)]
      ensures Extends(db.View(), old(db.View())) && SameApart(old(db.db.store), db.db.store, db.prefix)
    {
      ghost var view := db.View();
      NodeKeyForm(hash);
      Put(NodeKey(hash), Serialize(node.data));
      PutNodeKeeps(view, nodes, committed, t, inputs, db.View());
      CacheStays(cache, view, db.View());
      nodes := nodes + {t};
      FillCache(hash, node.data);
    }

    /** `recursive_tree_save`: every loaded node is written, each after its loaded children. */
    method RecursiveTreeSave(node: Node, hash: Hash, ghost t: Tree, ghost inputs: set<bytes>) returns (ghost puts: seq<Tree>)
      requires Valid() && Storable(t) && node.Rep(t, nodes) && hash == HashOf(t)
      requires CollisionFree(inputs) && HashInputs(nodes + {t}, inputs)
      modifies this, db.db
      ensures Valid() && old(nodes) + {t} <= nodes && committed == old(committed)
      ensures Wrote(old(Now()), Now(), puts)
      ensures puts == old(node.WriteOrder(t))
      ensures HashInputs(nodes, inputs) && Extends(db.View(), old(db.View()))
      ensures SameApart(old(db.db.store), db.db.store, db.prefix)
      decreases t, 1
    {
      ghost var before := Now();
      if node.data.InnerData? {
        puts := SaveChildren(node, t, inputs);
      } else {
        puts := [];
        WroteNone(before);
      }
      ghost var between := Now();
      SaveNode(node, hash, t, inputs);
      WroteOne(between, t);
      WroteMore(before, between, Now(), puts, [t]);
      puts := puts + [t];
    }

    method SaveChild(child: Node?, hash: Hash, ghost t: Tree, ghost inputs: set<bytes>) returns (ghost puts: seq<Tree>)
      requires Valid() && Storable(t) && Child(child, hash, t, nodes) && (child != null ==> hash == HashOf(t))
      requires CollisionFree(inputs) && HashInputs(nodes + {t}, inputs)
      modifies this, db.db
      ensures Valid() && old(nodes) + {t} <= nodes && committed == old(committed)
      ensures Wrote(old(Now()), Now(), puts)
      ensures puts == old(ChildOrder(child, t))
      ensures HashInputs(nodes, inputs) && Extends(db.View(), old(db.View()))
      ensures SameApart(old(db.db.store), db.db.store, db.prefix)
      decreases t, 2
    {
      if child == null {
        puts := [];
        WroteNone(Now());
      } else {
        puts := RecursiveTreeSave(child, hash, t, inputs);
      }
    }

    method SaveChildren(node: Node, ghost t: Tree, ghost inputs: set<bytes>) returns (ghost puts: seq<Tree>)
      requires Valid() && Storable(t) && t.Inner? && node.Rep(t, nodes)
      requires CollisionFree(inputs) && HashInputs(nodes + {t}, inputs)
      modifies this, db.db
      ensures Valid() && old(nodes) + {t.left, t.right} <= nodes && committed == old(committed)
      ensures Wrote(old(Now()), Now(), puts)
      ensures puts + [t] == old(node.WriteOrder(t))
      ensures HashInputs(nodes, inputs) && Extends(db.View(), old(db.View()))
      ensures SameApart(old(db.db.store), db.db.store, db.prefix)
      decreases t, 0
    {
      ghost var before := Now();
      StorableChildren(t);
      assert Child(node.left, node.data.leftHash, t.left, nodes) && Child(node.right, node.data.rightHash, t.right, nodes);
      node.OrderOfChildren(t, nodes);
      ghost var second := ChildOrder(node.right, t.right);
      assert Ordered(node.right, node.data.rightHash, t.right, nodes, second);
      puts := SaveChild(node.left, node.data.leftHash, t.left, inputs);
      ghost var between := Now();
      ChildMore(node.right, node.data.rightHash, t.right, before.nodes, nodes, second);
      ghost var more := SaveChild(node.right, node.data.rightHash, t.right, inputs);
      WroteMore(before, between, Now(), puts, more);
      puts := puts + more;
    }

    /** `save_tree`: the whole tree is stored and only the root stays loaded. */
    method SaveTree(root: Node, ghost t: Tree, ghost inputs: set<bytes>) returns (rootHash: Hash, ghost puts: seq<Tree>)
      requires Valid() && Storable(t) && root.Rep(t, nodes)
      requires CollisionFree(inputs) && HashInputs(nodes + {t}, inputs)
      modifies this, db.db, root`left, root`right
      ensures Valid() && old(nodes) + {t} <= nodes && committed == old(committed)
      ensures Wrote(old(Now()), Now(), puts) && t in puts && PartsOf(puts, t)
      ensures puts == old(root.WriteOrder(t))
      ensures HashInputs(nodes, inputs) && Extends(db.View(), old(db.View()))
      ensures SameApart(old(db.db.store), db.db.store, db.prefix)
      ensures rootHash == HashOf(t) && root.Rep(t, nodes) && root.left == null && root.right == null
    {
      rootHash := HashData(root.data);
      root.OrderWithin(t);
      puts := RecursiveTreeSave(root, rootHash, t, inputs);
      root.left, root.right := null, null;
      assert StoredNode(db.View(), nodes, t);
      root.BareRep(t, nodes);
    }

    /** `save_version`: the root entry, written last. */
    method SaveVersion(version: nat, hash: Hash, ghost o: Option<Tree>)
      requires Valid() && 1 <= version <= U32_MAX && version !in committed && hash == RootHash(o)
      requires o.Some? ==> o.value in nodes && Versioned(o.value, version)
      modifies this`committed, this`log, db.db
      ensures Valid() && committed == old(committed)[version := o]
      ensures db.View() == old(db.View())[RootKey(version) := hash] && log == old(log) + [db.View()]
      ensures Extends(db.View(), old(db.View())) && SameApart(old(db.db.store), db.db.store, db.prefix)
    {
      ghost var view := db.View();
      Put(RootKey(version), hash);
      PutRootKeeps(view, nodes, committed, version, o, db.View());
      CacheStays(cache, view, db.View());
      committed := committed[version := o];
    }

    // ---------- reading roots ----------

    /** `get_versions`: exactly the committed versions. */
    method GetVersions() returns (versions: set<nat>)
      requires Valid()
      ensures versions == committed.Keys
    {
      var pairs := db.PrefixIterator([1]);
      RootEntries(db.Entries(), nodes, committed);
      versions := {};
      for i := 0 to |pairs|
        invariant versions == set j | 0 <= j < i :: VersionOf(pairs[j].key)
      {
        var decoded := DecodeVarUpTo(pairs[i].key, U32_MAX);
        versions := versions + {decoded.value.0};
      }
    }

    /** `get_root_hash`, `None` for `VersionNotFound`. */
    method GetRootHash(version: nat) returns (r: Option<Hash>)
      requires Valid()
      ensures r == if version in committed then Some(RootHash(committed[version])) else None
    {
      var bytes := db.Get(RootKey(version));
      if version in committed { assert CommittedRoot(db.View(), nodes, version, committed[version]); }
      else { RootKeyUnused(db.View(), nodes, committed, version); }
      if bytes.None? { return None; }
      r := Some(bytes.value);
    }

    /** `get_root_node`: the root of a committed version, `null` for a version committed empty. */
    method GetRootNode(version: nat) returns (r: Result<Node?, TreeError>)
      requires Valid()
      modifies this`cache
      ensures Valid()
      ensures r == Err(VersionNotFound(version)) <==> version !in committed
      ensures version in committed ==> r.Ok? && Holds(r.value, committed[version], nodes)
      ensures r.Ok? && r.value != null ==> fresh(r.value) && fresh(r.value.Repr)
    {
      var hash := GetRootHash(version);
      if hash.None? { return Err(VersionNotFound(version)); }
      ghost var o := committed[version];
      assert CommittedRoot(db.View(), nodes, version, o);
      if o.Some? { assert StoredNode(db.View(), nodes, o.value); }
      if hash.value == EmptyHash() { return Ok(null); }
      var node := GetNode(hash.value);
      r := Ok(node);
    }
  }

  /** A boxed node: its own fields, and the children that are loaded. `null` means the child is
      what the database holds under the child's hash. */
  class Node {
    var data: NodeData
    var left: Node?
    var right: Node?
    ghost var Repr: set<Node>

    /** The loaded part has the shape of `t`, and the nodes of the two sides are disjoint. */
    ghost predicate Shape(t: Tree, stored: set<Tree>)
      reads this, Repr
      decreases t, 0
    {
      && this in Repr
      && (t.Leaf? ==> data.LeafData? && left == null && right == null)
      && (t.Inner? ==>
        && data.InnerData?
        && (left != null ==> left in Repr) && (right != null ==> right in Repr)
        && Footprint(left) + Footprint(right) <= Repr - {this}
        && Footprint(left) !! Footprint(right)
        && Child(left, data.leftHash, t.left, stored)
        && Child(right, data.rightHash, t.right, stored))
    }

    /** The node represents `t`: the shape is right and so are all its own fields, the two child
        hashes among them. */
    ghost predicate Rep(t: Tree, stored: set<Tree>)
      reads this, Repr
      decreases t, 1
    {
      Shape(t, stored) && data == Data(t)
    }

    /** The nodes that are loaded, each after its children, the left before the right. */
    ghost function WriteOrder(t: Tree): seq<Tree>
      reads this, Repr
      decreases t, 0
    {
      if t.Leaf? then [t]
      else
        (if left != null && left in Repr && left.Repr <= Repr then ChildOrder(left, t.left) else [])
        + (if right != null && right in Repr && right.Repr <= Repr then ChildOrder(right, t.right) else [])
        + [t]
    }

    /** They are parts of the tree, its root among them. */
    lemma {:induction false} OrderWithin(t: Tree)
      ensures PartsOf(WriteOrder(t), t) && t in WriteOrder(t)
      decreases t
    {
      if t.Leaf? {
      } else {
        if left != null && left in Repr && left.Repr <= Repr { left.OrderWithin(t.left); }
        if right != null && right in Repr && right.Repr <= Repr { right.OrderWithin(t.right); }
      }
    }

    lemma OrderOfChildren(t: Tree, stored: set<Tree>)
      requires Rep(t, stored) && t.Inner?
      ensures WriteOrder(t) == ChildOrder(left, t.left) + ChildOrder(right, t.right) + [t]
    {
    }

    /** Storing more trees breaks no node's representation. */
    lemma {:induction false} RepMore(t: Tree, stored: set<Tree>, more: set<Tree>)
      requires Rep(t, stored) && stored <= more
      ensures Rep(t, more)
      decreases t
    {
      if t.Leaf? {
      } else {
        assert Child(left, data.leftHash, t.left, stored) && Child(right, data.rightHash, t.right, stored);
        if left != null { left.RepMore(t.left, stored, more); }
        if right != null { right.RepMore(t.right, stored, more); }
        assert Child(left, data.leftHash, t.left, more) && Child(right, data.rightHash, t.right, more);
      }
    }

    /** A node without loaded children represents a tree whose children are stored. */
    lemma BareRep(t: Tree, stored: set<Tree>)
      requires data == Data(t) && left == null && right == null && this in Repr
      requires t.Inner? ==> t.left in stored && t.right in stored
      ensures Rep(t, stored)
    {
      if t.Inner? {
        assert Child(left, data.leftHash, t.left, stored) && Child(right, data.rightHash, t.right, stored);
      }
    }

    /** As `Rep`, except that the recorded hash of a loaded left child may be out of date. */
    ghost predicate StaleLeft(t: Tree, stored: set<Tree>)
      reads this, Repr
    {
      Shape(t, stored) && t.Inner?
      && data == InnerData(t.height, t.size, data.leftHash, HashOf(t.right), t.key, t.version)
    }

    ghost predicate StaleRight(t: Tree, stored: set<Tree>)
      reads this, Repr
    {
      Shape(t, stored) && t.Inner?
      && data == InnerData(t.height, t.size, HashOf(t.left), data.rightHash, t.key, t.version)
    }

    constructor (data: NodeData, left: Node?, right: Node?)
      ensures this.data == data && this.left == left && this.right == right
      ensures Repr == {this} + Footprint(left) + Footprint(right)
    {
      this.data, this.left, this.right := data, left, right;
      Repr := {this} + Footprint(left) + Footprint(right);
    }

    /** `get_mut_left_node`: loads the left child if it is not loaded. */
    method GetMutLeftNode(db: NodeDB, ghost t: Tree) returns (l: Node)
      requires db.Valid() && Shape(t, db.nodes) && t.Inner?
      modifies this`left, this`Repr, db`cache
      ensures db.Valid() && Shape(t, db.nodes) && l == left && l.Rep(t.left, db.nodes)
      ensures fresh(Repr - old(Repr))
      ensures old(left) != null ==> l == old(left) && Repr == old(Repr)
    {
      if left == null {
        var node := db.GetNode(data.leftHash);
        left := node;
        Repr := Repr + node.Repr;
      }
      l := left;
      assert Child(l, data.leftHash, t.left, db.nodes);
    }

    method GetMutRightNode(db: NodeDB, ghost t: Tree) returns (r: Node)
      requires db.Valid() && Shape(t, db.nodes) && t.Inner?
      modifies this`right, this`Repr, db`cache
      ensures db.Valid() && Shape(t, db.nodes) && r == right && r.Rep(t.right, db.nodes)
      ensures fresh(Repr - old(Repr))
      ensures old(right) != null ==> r == old(right) && Repr == old(Repr)
    {
      if right == null {
        var node := db.GetNode(data.rightHash);
        right := node;
        Repr := Repr + node.Repr;
      }
      r := right;
      assert Child(r, data.rightHash, t.right, db.nodes);
    }

    method UpdateLeftHash()
      requires data.InnerData?
      modifies this`data
      ensures data == if left == null then old(data) else old(data).(leftHash := HashData(old(left.data)))
    {
      if left != null { data := data.(leftHash := HashData(left.data)); }
    }

    method UpdateRightHash()
      requires data.InnerData?
      modifies this`data
      ensures data == if right == null then old(data) else old(data).(rightHash := HashData(old(right.data)))
    {
      if right != null { data := data.(rightHash := HashData(right.data)); }
    }

    /** The cached height and size of the left child, loaded or not. */
    method LeftHeightAndSize(db: NodeDB, ghost t: Tree) returns (height: nat, size: nat)
      requires db.Valid() && Shape(t, db.nodes) && t.Inner?
      modifies db`cache
      ensures db.Valid() && height == Height(t.left) && size == Size(t.left)
    {
      assert Child(left, data.leftHash, t.left, db.nodes);
      if left != null {
        assert left.Rep(t.left, db.nodes);
        height, size := DataHeight(left.data), DataSize(left.data);
      } else {
        var node := db.GetNode(data.leftHash);
        assert node.Rep(t.left, db.nodes);
        height, size := DataHeight(node.data), DataSize(node.data);
      }
    }

    method RightHeightAndSize(db: NodeDB, ghost t: Tree) returns (height: nat, size: nat)
      requires db.Valid() && Shape(t, db.nodes) && t.Inner?
      modifies db`cache
      ensures db.Valid() && height == Height(t.right) && size == Size(t.right)
    {
      assert Child(right, data.rightHash, t.right, db.nodes);
      if right != null {
        assert right.Rep(t.right, db.nodes);
        height, size := DataHeight(right.data), DataSize(right.data);
      } else {
        var node := db.GetNode(data.rightHash);
        assert node.Rep(t.right, db.nodes);
        height, size := DataHeight(node.data), DataSize(node.data);
      }
    }

    /** `get_balance_factor` */
    method GetBalanceFactor(db: NodeDB, ghost t: Tree) returns (factor: int)
      requires db.Valid() && Shape(t, db.nodes)
      modifies db`cache
      ensures db.Valid() && factor == BalanceFactor(t)
    {
      if data.LeafData? { return 0; }
      var leftHeight, _ := LeftHeightAndSize(db, t);
      var rightHeight, _ := RightHeightAndSize(db, t);
      factor := leftHeight as int - rightHeight as int;
    }

    /** `update_height_and_size_get_balance_factor` */
    method UpdateHeightAndSizeGetBalanceFactor(db: NodeDB, ghost t: Tree) returns (factor: int)
      requires db.Valid() && Shape(t, db.nodes) && t.Inner?
      requires Height(t.left) < U8_MAX && Height(t.right) < U8_MAX && Size(t.left) + Size(t.right) <= U32_MAX
      modifies this`data, db`cache
      ensures db.Valid() && factor == BalanceFactor(t)
      ensures data == old(data).(height := 1 + Max(Height(t.left), Height(t.right)), size := Size(t.left) + Size(t.right))
      ensures forall u: Tree :: u.Inner? && u.left == t.left && u.right == t.right ==> Shape(u, db.nodes)
    {
      var leftHeight, leftSize := LeftHeightAndSize(db, t);
      var rightHeight, rightSize := RightHeightAndSize(db, t);
      data := data.(height := U8(1 + Max(leftHeight, rightHeight)), size := U32(leftSize + rightSize));
      factor := leftHeight as int - rightHeight as int;
    }

    /** The node takes the given fields and children. */
    method Adopt(d: NodeData, l: Node?, r: Node?, ghost u: Tree, ghost stored: set<Tree>)
      requires this in Repr && u.Inner? && d.InnerData?
      requires Child(l, d.leftHash, u.left, stored) && Child(r, d.rightHash, u.right, stored)
      requires Footprint(l) !! Footprint(r) && this !in Footprint(l) + Footprint(r)
      modifies this
      ensures Shape(u, stored) && data == d
      ensures Repr == old(Repr) + old(Footprint(l)) + old(Footprint(r))
    {
      data, left, right := d, l, r;
      Repr := Repr + Footprint(l) + Footprint(r);
      assert Child(left, d.leftHash, u.left, stored) && Child(right, d.rightHash, u.right, stored);
    }

    /** The tail of both halves of a rotation: the node takes the given fields and children, then
        its height, size and version are brought up to date. */
    method TakeChildren(d: NodeData, l: Node?, r: Node?, version: nat, db: NodeDB, ghost u: Tree)
      requires db.Valid() && this in Repr && u.Inner? && d.InnerData? && d.key == u.key
      requires Child(l, d.leftHash, u.left, db.nodes) && d.leftHash == HashOf(u.left)
      requires Child(r, d.rightHash, u.right, db.nodes) && d.rightHash == HashOf(u.right)
      requires Footprint(l) !! Footprint(r) && this !in Footprint(l) + Footprint(r)
      requires Height(u.left) < U8_MAX && Height(u.right) < U8_MAX && Size(u.left) + Size(u.right) <= U32_MAX
      modifies this, db`cache
      ensures db.Valid() && Rep(Refreshed(u, version), db.nodes)
      ensures Repr == old(Repr) + old(Footprint(l)) + old(Footprint(r))
    {
      Adopt(d, l, r, u, db.nodes);
      var _ := UpdateHeightAndSizeGetBalanceFactor(db, u);
      ghost var stored := db.nodes;
      data := Stamped(data, version);
      assert Shape(Refreshed(u, version), stored);
    }

    /** The node a right rotation pushes down: this one over the left child's right child. */
    method LowerRight(y: Node, version: nat, db: NodeDB, ghost t: Tree) returns (z: Node)
      requires db.Valid() && StaleLeft(t, db.nodes) && RotatesRight(t) && y == left
      modifies db`cache
      ensures db.Valid() && z.Rep(Refreshed(t.(left := t.left.right), version), db.nodes)
      ensures fresh(z) && z.Repr == {z} + Footprint(y.right) + Footprint(right)
    {
      assert Child(y, data.leftHash, t.left, db.nodes) && y.Rep(t.left, db.nodes) && y.Shape(t.left, db.nodes);
      assert Child(y.right, y.data.rightHash, t.left.right, db.nodes);
      assert Child(right, data.rightHash, t.right, db.nodes);
      z := new Node(data, null, null);
      z.TakeChildren(data.(leftHash := y.data.rightHash), y.right, right, version, db, t.(left := t.left.right));
    }

    /** The left child takes this node's place, and this node goes below it. */
    method RaiseLeft(y: Node, version: nat, db: NodeDB, ghost t: Tree)
      requires db.Valid() && StaleLeft(t, db.nodes) && RotatesRight(t) && y == left
      modifies this, db`cache
      ensures db.Valid() && fresh(Repr - old(Repr)) && Rep(RotateRight(t, version), db.nodes)
    {
      ghost var stored := db.nodes;
      assert Child(y, data.leftHash, t.left, stored) && y.Rep(t.left, stored) && y.Shape(t.left, stored);
      assert Child(y.left, y.data.leftHash, t.left.left, stored);
      assert Footprint(right) + Footprint(y.left) + Footprint(y.right) <= Repr;
      var z := LowerRight(y, version, db, t);
      ghost var lower := Refreshed(t.(left := t.left.right), version);
      assert Child(z, HashData(z.data), lower, stored) && Child(y.left, y.data.leftHash, t.left.left, stored);
      TakeChildren(y.data.(rightHash := HashData(z.data)), y.left, z, version, db, t.left.(right := lower));
    }

    /** `right_rotate`, `false` for its error. The recorded hash of the left child may be out of
        date; every hash recorded afterwards is right. */
    method RightRotate(version: nat, db: NodeDB, ghost t: Tree) returns (ok: bool)
      requires db.Valid() && Shape(t, db.nodes) && (t.Inner? ==> StaleLeft(t, db.nodes))
      requires CanRotateRight(t) ==> RotatesRight(t)
      modifies Repr, db`cache
      ensures db.Valid() && (ok <==> CanRotateRight(t)) && fresh(Repr - old(Repr))
      ensures ok ==> Rep(RotateRight(t, version), db.nodes)
    {
      if data.LeafData? { return false; }
      var y := GetMutLeftNode(db, t);
      if y.data.LeafData? { return false; }
      RaiseLeft(y, version, db, t);
      ok := true;
    }

    /** The node a left rotation pushes down: this one over the right child's left child. */
    method LowerLeft(y: Node, version: nat, db: NodeDB, ghost t: Tree) returns (z: Node)
      requires db.Valid() && StaleRight(t, db.nodes) && RotatesLeft(t) && y == right
      modifies db`cache
      ensures db.Valid() && z.Rep(Refreshed(t.(right := t.right.left), version), db.nodes)
      ensures fresh(z) && z.Repr == {z} + Footprint(left) + Footprint(y.left)
    {
      assert Child(y, data.rightHash, t.right, db.nodes) && y.Rep(t.right, db.nodes) && y.Shape(t.right, db.nodes);
      assert Child(y.left, y.data.leftHash, t.right.left, db.nodes);
      assert Child(left, data.leftHash, t.left, db.nodes);
      z := new Node(data, null, null);
      z.TakeChildren(data.(rightHash := y.data.leftHash), left, y.left, version, db, t.(right := t.right.left));
    }

    /** The right child takes this node's place, and this node goes below it. */
    method RaiseRight(y: Node, version: nat, db: NodeDB, ghost t: Tree)
      requires db.Valid() && StaleRight(t, db.nodes) && RotatesLeft(t) && y == right
      modifies this, db`cache
      ensures db.Valid() && fresh(Repr - old(Repr)) && Rep(RotateLeft(t, version), db.nodes)
    {
      ghost var stored := db.nodes;
      assert Child(y, data.rightHash, t.right, stored) && y.Rep(t.right, stored) && y.Shape(t.right, stored);
      assert Child(y.right, y.data.rightHash, t.right.right, stored);
      assert Footprint(left) + Footprint(y.left) + Footprint(y.right) <= Repr;
      var z := LowerLeft(y, version, db, t);
      ghost var lower := Refreshed(t.(right := t.right.left), version);
      assert Child(z, HashData(z.data), lower, stored) && Child(y.right, y.data.rightHash, t.right.right, stored);
      TakeChildren(y.data.(leftHash := HashData(z.data)), z, y.right, version, db, t.right.(left := lower));
    }

    /** `left_rotate`, `false` for its error. The recorded hash of the right child may be out of
        date; every hash recorded afterwards is right. */
    method LeftRotate(version: nat, db: NodeDB, ghost t: Tree) returns (ok: bool)
      requires db.Valid() && Shape(t, db.nodes) && (t.Inner? ==> StaleRight(t, db.nodes))
      requires CanRotateLeft(t) ==> RotatesLeft(t)
      modifies Repr, db`cache
      ensures db.Valid() && (ok <==> CanRotateLeft(t)) && fresh(Repr - old(Repr))
      ensures ok ==> Rep(RotateLeft(t, version), db.nodes)
    {
      if data.LeafData? { return false; }
      var y := GetMutRightNode(db, t);
      if y.data.LeafData? { return false; }
      RaiseRight(y, version, db, t);
      ok := true;
    }

    /** Bookkeeping after a loaded right child was changed in place. */
    ghost method KeepRight(t: Tree, u: Tree, stored: set<Tree>)
      requires this in Repr && t.Inner? && data.InnerData? && right != null && right.Rep(u, stored)
      requires Child(left, data.leftHash, t.left, stored) && Footprint(left) <= Repr - {this}
      requires Footprint(right) !! Footprint(left) + {this} && right in right.Repr
      modifies this`Repr
      ensures Repr == old(Repr) + old(right.Repr) && Shape(t.(right := u), stored)
      ensures right.data == Data(u)
    {
      Repr := Repr + right.Repr;
      assert Child(left, data.leftHash, t.left, stored) && Child(right, data.rightHash, u, stored);
    }

    /** Bookkeeping after a loaded left child was changed in place. */
    ghost method KeepLeft(t: Tree, u: Tree, stored: set<Tree>)
      requires this in Repr && t.Inner? && data.InnerData? && left != null && left.Rep(u, stored)
      requires Child(right, data.rightHash, t.right, stored) && Footprint(right) <= Repr - {this}
      requires Footprint(left) !! Footprint(right) + {this} && left in left.Repr
      modifies this`Repr
      ensures Repr == old(Repr) + old(left.Repr) && Shape(t.(left := u), stored)
      ensures left.data == Data(u)
    {
      Repr := Repr + left.Repr;
      assert Child(right, data.rightHash, t.right, stored) && Child(left, data.leftHash, u, stored);
    }

    /** The double rotation over a left child that leans right. The child's rotation leaves the
        hash recorded for it out of date until the second one. */
    method RotateLeftThenRight(version: nat, db: NodeDB, ghost t: Tree)
      requires db.Valid() && Rep(t, db.nodes) && left != null && RotatesLeftRight(t)
      modifies Repr, db`cache
      ensures db.Valid() && fresh(Repr - old(Repr))
      ensures Rep(RotateLeftRight(t, version).value, db.nodes)
    {
      ghost var stored := db.nodes;
      assert Child(left, data.leftHash, t.left, stored) && Child(right, data.rightHash, t.right, stored);
      assert left.Rep(t.left, stored);
      var rotated := left.LeftRotate(version, db, t.left);
      assert rotated;
      KeepLeft(t, RotateLeft(t.left, version), stored);
      rotated := RightRotate(version, db, t.(left := RotateLeft(t.left, version)));
      assert rotated;
    }

    /** The double rotation over a right child that leans left. */
    method RotateRightThenLeft(version: nat, db: NodeDB, ghost t: Tree)
      requires db.Valid() && Rep(t, db.nodes) && right != null && RotatesRightLeft(t)
      modifies Repr, db`cache
      ensures db.Valid() && fresh(Repr - old(Repr))
      ensures Rep(RotateRightLeft(t, version).value, db.nodes)
    {
      ghost var stored := db.nodes;
      assert Child(left, data.leftHash, t.left, stored) && Child(right, data.rightHash, t.right, stored);
      assert right.Rep(t.right, stored);
      var rotated := right.RightRotate(version, db, t.right);
      assert rotated;
      KeepRight(t, RotateRight(t.right, version), stored);
      rotated := LeftRotate(version, db, t.(right := RotateRight(t.right, version)));
      assert rotated;
    }

    method BalanceTallRight(version: nat, db: NodeDB, ghost n: Tree)
      requires db.Valid() && Rep(n, db.nodes) && n.Inner? && BalancedBelow(n) && BalanceFactor(n) == -2
      modifies Repr, db`cache
      ensures db.Valid() && fresh(Repr - old(Repr))
      ensures if BalanceFactor(n.right) <= 0 then Rep(RotateLeft(n, version), db.nodes)
        else Rep(RotateRightLeft(n, version).value, db.nodes)
    {
      TallRightFits(n);
      var r := GetMutRightNode(db, n);
      var factor := r.GetBalanceFactor(db, n.right);
      if factor <= 0 {
        var rotated := LeftRotate(version, db, n);
        assert rotated;
      } else {
        RotateRightThenLeft(version, db, n);
      }
    }

    method BalanceTallLeft(version: nat, db: NodeDB, ghost n: Tree)
      requires db.Valid() && Rep(n, db.nodes) && n.Inner? && BalancedBelow(n) && BalanceFactor(n) == 2
      modifies Repr, db`cache
      ensures db.Valid() && fresh(Repr - old(Repr))
      ensures if BalanceFactor(n.left) >= 0 then Rep(RotateRight(n, version), db.nodes)
        else Rep(RotateLeftRight(n, version).value, db.nodes)
    {
      TallLeftFits(n);
      var l := GetMutLeftNode(db, n);
      var factor := l.GetBalanceFactor(db, n.left);
      if factor >= 0 {
        var rotated := RightRotate(version, db, n);
        assert rotated;
      } else {
        RotateLeftThenRight(version, db, n);
      }
    }

    /** `update_height_and_size_and_balance`, `false` for its error: a balance factor outside -2..2. */
    method UpdateHeightAndSizeAndBalance(version: nat, db: NodeDB, ghost t: Tree) returns (ok: bool)
      requires db.Valid() && Rep(t, db.nodes) && (t.Inner? ==> BalancedBelow(t))
      modifies Repr, db`cache
      ensures db.Valid() && fresh(Repr - old(Repr))
      ensures ok <==> -2 <= BalanceFactor(t) <= 2
      ensures ok ==> Rebalance(t, version).Some? && Rep(Rebalance(t, version).value, db.nodes)
    {
      if data.LeafData? { return true; }
      BalancedBelowFits(t);
      var factor := UpdateHeightAndSizeGetBalanceFactor(db, t);
      ghost var n := Refreshed(t, t.version);
      assert Shape(n, db.nodes);
      if factor == -2 {
        BalanceTallRight(version, db, n);
      } else if factor == 2 {
        BalanceTallLeft(version, db, n);
      } else {
        return -1 <= factor <= 1;
      }
      ok := true;
    }

    /** `leftmost_leaf_key` */
    method LeftmostLeafKey(db: NodeDB, ghost t: Tree) returns (key: bytes)
      requires db.Valid() && Rep(t, db.nodes)
      modifies db`cache
      ensures db.Valid() && key == FirstKey(t)
    {
      var node: Node := this;
      ghost var u := t;
      while node.data.InnerData?
        invariant db.Valid() && node.Rep(u, db.nodes) && FirstKey(u) == FirstKey(t)
        decreases u
      {
        assert Child(node.left, node.data.leftHash, u.left, db.nodes);
        if node.left != null { node := node.left; } else { node := db.GetNode(node.data.leftHash); }
        u := u.left;
      }
      key := node.data.key;
    }

    static method CloneChild(child: Node?, ghost hash: Hash, ghost t: Tree, ghost stored: set<Tree>) returns (copy: Node?)
      requires Child(child, hash, t, stored)
      ensures Child(copy, hash, t, stored) && fresh(Footprint(copy))
      decreases t, 1
    {
      if child == null { return null; }
      copy := child.Clone(t, stored);
    }

    /** `clone`: a copy of the node and everything loaded below it. */
    method Clone(ghost t: Tree, ghost stored: set<Tree>) returns (copy: Node)
      requires Rep(t, stored)
      ensures copy.Rep(t, stored) && fresh(copy.Repr)
      decreases t, 0
    {
      if data.LeafData? {
        copy := new Node(data, null, null);
        return;
      }
      assert Child(left, data.leftHash, t.left, stored) && Child(right, data.rightHash, t.right, stored);
      var l := CloneChild(left, data.leftHash, t.left, stored);
      var r := CloneChild(right, data.rightHash, t.right, stored);
      copy := new Node(data, null, null);
      copy.Adopt(data, l, r, t, stored);
    }

    /** A partly loaded node stands for one tree only. */
    lemma {:induction false} RepUnique(t: Tree, u: Tree, view: map<bytes, bytes>, stored: set<Tree>)
      requires NodesOk(view, stored) && Rep(t, stored) && Rep(u, stored)
      ensures t == u
      decreases t, 0
    {
      if t.Leaf? {
      } else {
        ChildUnique(left, data.leftHash, t.left, u.left, view, stored);
        ChildUnique(right, data.rightHash, t.right, u.right, view, stored);
      }
    }

    // ---------- set ----------

    method SetRotateTallLeft(key: bytes, version: nat, db: NodeDB, ghost n: Tree)
      requires db.Valid() && Rep(n, db.nodes) && n.Inner?
      requires if Less(key, n.left.key) then RotatesRight(n) else RotatesLeftRight(n)
      modifies Repr, db`cache
      ensures db.Valid() && fresh(Repr - old(Repr))
      ensures if Less(key, n.left.key) then Rep(RotateRight(n, version), db.nodes)
              else Rep(RotateLeftRight(n, version).value, db.nodes)
    {
      var l := GetMutLeftNode(db, n);
      if Less(key, l.data.key) {
        var rotated := RightRotate(version, db, n);
        assert rotated;
      } else {
        RotateLeftThenRight(version, db, n);
      }
    }

    method SetRotateTallRight(key: bytes, version: nat, db: NodeDB, ghost n: Tree)
      requires db.Valid() && Rep(n, db.nodes) && n.Inner?
      requires if Less(n.right.key, key) then RotatesLeft(n) else RotatesRightLeft(n)
      modifies Repr, db`cache
      ensures db.Valid() && fresh(Repr - old(Repr))
      ensures if Less(n.right.key, key) then Rep(RotateLeft(n, version), db.nodes)
              else Rep(RotateRightLeft(n, version).value, db.nodes)
    {
      var r := GetMutRightNode(db, n);
      if Less(r.data.key, key) {
        var rotated := LeftRotate(version, db, n);
        assert rotated;
      } else {
        RotateRightThenLeft(version, db, n);
      }
    }

    /** The four cases after an insertion, chosen by comparing the key with the child's. */
    method SetRotate(factor: int, key: bytes, version: nat, db: NodeDB, ghost t1: Tree)
      requires db.Valid() && t1.Inner? && Rep(Refreshed(t1, version), db.nodes) && factor == BalanceFactor(t1)
      requires SetBalance(t1, key, version).Some? && SetRotates(t1, key, version)
      modifies Repr, db`cache
      ensures db.Valid() && fresh(Repr - old(Repr))
      ensures Rep(SetBalance(t1, key, version).value, db.nodes)
    {
      if factor > 1 {
        SetRotateTallLeft(key, version, db, Refreshed(t1, version));
      } else if factor < -1 {
        SetRotateTallRight(key, version, db, Refreshed(t1, version));
      }
    }

    /** Height, size, version and balance after the insertion below. */
    method SetFinish(key: bytes, version: nat, db: NodeDB, ghost t1: Tree)
      requires db.Valid() && Rep(t1, db.nodes) && t1.Inner? && BalancedBelow(t1)
      requires SetBalance(t1, key, version).Some? && SetRotates(t1, key, version)
      modifies Repr, db`cache
      ensures db.Valid() && fresh(Repr - old(Repr))
      ensures Rep(SetBalance(t1, key, version).value, db.nodes)
    {
      BalancedBelowFits(t1);
      var factor := UpdateHeightAndSizeGetBalanceFactor(db, t1);
      data := Stamped(data, version);
      assert Shape(Refreshed(t1, version), db.nodes);
      SetRotate(factor, key, version, db, t1);
    }

    method SetAtLeaf(key: bytes, value: bytes, version: nat, ghost t: Tree, ghost stored: set<Tree>)
      requires Rep(t, stored) && t.Leaf?
      modifies this
      ensures fresh(Repr - old(Repr)) && Rep(SetNode(t, key, value, version).value, stored)
    {
      if key == data.key {
        LessIrreflexive(key);
        data := LeafData(value, data.key, version);
        return;
      }
      var added := new Node(LeafData(value, key, version), null, null);
      var kept := new Node(data, null, null);
      assert added.Shape(Leaf(key, value, version), stored) && kept.Shape(t, stored);
      assert added.Rep(Leaf(key, value, version), stored) && kept.Rep(t, stored);
      if Less(key, data.key) {
        Adopt(InnerData(1, 2, HashData(added.data), HashData(kept.data), data.key, version), added, kept,
              Inner(t.key, 1, 2, version, Leaf(key, value, version), t), stored);
      } else {
        Adopt(InnerData(1, 2, HashData(kept.data), HashData(added.data), key, version), kept, added,
              Inner(key, 1, 2, version, t, Leaf(key, value, version)), stored);
      }
    }

    method SetBelowLeft(key: bytes, value: bytes, version: nat, db: NodeDB, ghost t: Tree)
      requires db.Valid() && Rep(t, db.nodes) && t.Inner? && Valid(t.left) && Size(t.left) < U32_MAX
      modifies Repr, db`cache
      ensures db.Valid() && fresh(Repr - old(Repr))
      ensures SetNode(t.left, key, value, version).Some?
      ensures Rep(t.(left := SetNode(t.left, key, value, version).value), db.nodes)
      decreases t, 0
    {
      ghost var stored := db.nodes;
      var l := GetMutLeftNode(db, t);
      assert Child(right, data.rightHash, t.right, stored);
      l.RecursiveSet(key, value, version, db, t.left);
      ghost var u := SetNode(t.left, key, value, version).value;
      KeepLeft(t, u, stored);
      UpdateLeftHash();
      assert Child(left, data.leftHash, u, stored) && Child(right, data.rightHash, t.right, stored);
      assert Shape(t.(left := u), stored);
    }

    method SetBelowRight(key: bytes, value: bytes, version: nat, db: NodeDB, ghost t: Tree)
      requires db.Valid() && Rep(t, db.nodes) && t.Inner? && Valid(t.right) && Size(t.right) < U32_MAX
      modifies Repr, db`cache
      ensures db.Valid() && fresh(Repr - old(Repr))
      ensures SetNode(t.right, key, value, version).Some?
      ensures Rep(t.(right := SetNode(t.right, key, value, version).value), db.nodes)
      decreases t, 0
    {
      ghost var stored := db.nodes;
      var r := GetMutRightNode(db, t);
      assert Child(left, data.leftHash, t.left, stored);
      r.RecursiveSet(key, value, version, db, t.right);
      ghost var u := SetNode(t.right, key, value, version).value;
      KeepRight(t, u, stored);
      UpdateRightHash();
      assert Child(left, data.leftHash, t.left, stored) && Child(right, data.rightHash, u, stored);
      assert Shape(t.(right := u), stored);
    }

    /** `recursive_set`. No rotation it asks for fails. */
    method RecursiveSet(key: bytes, value: bytes, version: nat, db: NodeDB, ghost t: Tree)
      requires db.Valid() && Rep(t, db.nodes) && Valid(t) && HasRoom(Some(t), key)
      modifies Repr, db`cache
      ensures db.Valid() && fresh(Repr - old(Repr))
      ensures SetNode(t, key, value, version).Some?
      ensures Rep(SetNode(t, key, value, version).value, db.nodes)
      decreases t, 1
    {
      SetBalanced(t, key, value, version);
      if data.LeafData? {
        SetAtLeaf(key, value, version, t, db.nodes);
        return;
      }
      SetBelowFits(t, key, value, version);
      if Less(key, data.key) {
        SetBelowLeft(key, value, version, db, t);
      } else {
        SetBelowRight(key, value, version, db, t);
      }
      SetFinish(key, version, db, SetBelow(t, key, value, version));
    }

    // ---------- remove ----------

    /** The removal below, in the loaded left child. */
    method RemoveBelowLeft(key: bytes, version: nat, db: NodeDB, ghost t: Tree)
        returns (value: Option<bytes>, newHash: Option<Hash>, leafCut: bool, newKey: Option<bytes>)
      requires db.Valid() && Rep(t, db.nodes) && t.Inner? && Valid(t.left) && Size(t.left) <= U32_MAX
      modifies Repr, db`cache
      ensures db.Valid() && fresh(Repr - old(Repr)) && data == old(data)
      ensures Reports(RemoveNode(t.left, key, version), value, newHash, leafCut, newKey)
      ensures Shape(t.(left := After(t.left, RemoveNode(t.left, key, version))), db.nodes)
      decreases t, 0
    {
      ghost var stored := db.nodes;
      var l := GetMutLeftNode(db, t);
      assert Child(right, data.rightHash, t.right, stored);
      value, newHash, leafCut, newKey := l.RecursiveRemove(key, version, db, t.left);
      KeepLeft(t, After(t.left, RemoveNode(t.left, key, version)), stored);
    }

    /** The node takes the changed child's hash and is brought up to date and balanced. */
    method FinishRemove(d: NodeData, version: nat, db: NodeDB, ghost u: Tree) returns (newHash: Option<Hash>)
      requires db.Valid() && Shape(u, db.nodes) && u.Inner? && d == Data(u)
      requires BalancedBelow(u) && -2 <= BalanceFactor(u) <= 2
      modifies Repr, db`cache
      ensures db.Valid() && fresh(Repr - old(Repr))
      ensures Rebalance(u, version).Some? && Rep(Rebalance(u, version).value, db.nodes)
      ensures newHash == Some(HashOf(Rebalance(u, version).value))
    {
      ghost var stored := db.nodes;
      assert Child(left, data.leftHash, u.left, stored) && Child(right, data.rightHash, u.right, stored);
      data := d;
      assert Child(left, data.leftHash, u.left, stored) && Child(right, data.rightHash, u.right, stored);
      assert Shape(u, stored);
      var ok := UpdateHeightAndSizeAndBalance(version, db, u);
      assert ok;
      newHash := Some(HashData(data));
    }

    /** `*node = other`: this node takes the fields and children of another. */
    method Become(other: Node, ghost u: Tree, ghost stored: set<Tree>)
      requires other.Rep(u, stored) && this !in other.Repr && this in Repr
      modifies this
      ensures Rep(u, stored) && Repr == old(Repr) + old(other.Repr)
    {
      if u.Inner? {
        assert Child(other.left, other.data.leftHash, u.left, stored);
        assert Child(other.right, other.data.rightHash, u.right, stored);
      }
      data, left, right := other.data, other.left, other.right;
      Repr := Repr + other.Repr;
      if u.Inner? {
        assert Child(left, data.leftHash, u.left, stored) && Child(right, data.rightHash, u.right, stored);
      }
      assert Shape(u, stored);
    }

    /** The left child was the leaf to cut: a copy of the right child takes this node's place. */
    method PromoteRight(db: NodeDB, ghost t: Tree) returns (newHash: Option<Hash>, newKey: Option<bytes>)
      requires db.Valid() && Shape(t, db.nodes) && t.Inner?
      modifies Repr, db`cache
      ensures db.Valid() && fresh(Repr - old(Repr)) && Rep(t.right, db.nodes)
      ensures newHash == Some(HashOf(t.right)) && newKey == Some(FirstKey(t.right))
    {
      var r := GetMutRightNode(db, t);
      var copy := r.Clone(t.right, db.nodes);
      Become(copy, t.right, db.nodes);
      newHash := Some(HashData(data));
      var key := LeftmostLeafKey(db, t.right);
      newKey := Some(key);
    }

    method RemoveOnLeft(key: bytes, version: nat, db: NodeDB, ghost t: Tree)
        returns (value: Option<bytes>, newHash: Option<Hash>, newKey: Option<bytes>)
      requires db.Valid() && Rep(t, db.nodes) && t.Inner? && Less(key, t.key)
      requires Valid(t.left) && Size(t.left) <= U32_MAX && RemoveFits(t, key, version)
      modifies Repr, db`cache
      ensures db.Valid() && fresh(Repr - old(Repr))
      ensures Reports(RemoveNode(t, key, version), value, newHash, false, newKey)
      ensures Rep(After(t, RemoveNode(t, key, version)), db.nodes)
      decreases t, 1
    {
      ghost var below := RemoveNode(t.left, key, version);
      var leafCut;
      value, newHash, leafCut, newKey := RemoveBelowLeft(key, version, db, t);
      if value.None? {
        newHash, newKey := None, None;
      } else if leafCut {
        newHash, newKey := PromoteRight(db, t);
      } else if newHash.Some? {
        newHash := FinishRemove(InnerData(data.height, data.size, newHash.value, data.rightHash, data.key, version),
                                version, db, t.(version := version, left := below.node));
      } else {
        assert false;
      }
    }

    /** The removal below, in the loaded right child. */
    method RemoveBelowRight(key: bytes, version: nat, db: NodeDB, ghost t: Tree)
        returns (value: Option<bytes>, newHash: Option<Hash>, leafCut: bool, newKey: Option<bytes>)
      requires db.Valid() && Rep(t, db.nodes) && t.Inner? && Valid(t.right) && Size(t.right) <= U32_MAX
      modifies Repr, db`cache
      ensures db.Valid() && fresh(Repr - old(Repr)) && data == old(data)
      ensures Reports(RemoveNode(t.right, key, version), value, newHash, leafCut, newKey)
      ensures Shape(t.(right := After(t.right, RemoveNode(t.right, key, version))), db.nodes)
      decreases t, 0
    {
      ghost var stored := db.nodes;
      var r := GetMutRightNode(db, t);
      assert Child(left, data.leftHash, t.left, stored);
      value, newHash, leafCut, newKey := r.RecursiveRemove(key, version, db, t.right);
      KeepRight(t, After(t.right, RemoveNode(t.right, key, version)), stored);
    }

    method PromoteLeft(db: NodeDB, ghost t: Tree) returns (newHash: Option<Hash>)
      requires db.Valid() && Shape(t, db.nodes) && t.Inner?
      modifies Repr, db`cache
      ensures db.Valid() && fresh(Repr - old(Repr)) && Rep(t.left, db.nodes)
      ensures newHash == Some(HashOf(t.left))
    {
      var l := GetMutLeftNode(db, t);
      var copy := l.Clone(t.left, db.nodes);
      Become(copy, t.left, db.nodes);
      newHash := Some(HashData(data));
    }

    method RemoveOnRight(key: bytes, version: nat, db: NodeDB, ghost t: Tree)
        returns (value: Option<bytes>, newHash: Option<Hash>)
      requires db.Valid() && Rep(t, db.nodes) && t.Inner? && !Less(key, t.key)
      requires Valid(t.right) && Size(t.right) <= U32_MAX && RemoveFits(t, key, version)
      modifies Repr, db`cache
      ensures db.Valid() && fresh(Repr - old(Repr))
      ensures Reports(RemoveNode(t, key, version), value, newHash, false, None)
      ensures Rep(After(t, RemoveNode(t, key, version)), db.nodes)
      decreases t, 1
    {
      ghost var below := RemoveNode(t.right, key, version);
      var leafCut, newKey;
      value, newHash, leafCut, newKey := RemoveBelowRight(key, version, db, t);
      if value.None? {
        newHash := None;
      } else if leafCut {
        newHash := PromoteLeft(db, t);
      } else if newHash.Some? {
        var routing := if newKey.Some? then newKey.value else data.key;
        newHash := FinishRemove(InnerData(data.height, data.size, data.leftHash, newHash.value, routing, version),
                                version, db, t.(version := version, right := below.node, key := routing));
      } else {
        assert false;
      }
    }

    /** `recursive_remove` without its list of orphans: the value of the key if it was found, the
        new hash if the subtree changed, whether this node was the leaf to cut, and the new
        leftmost key if that changed. Nothing it expects fails. */
    method RecursiveRemove(key: bytes, version: nat, db: NodeDB, ghost t: Tree)
        returns (value: Option<bytes>, newHash: Option<Hash>, leafCut: bool, newKey: Option<bytes>)
      requires db.Valid() && Rep(t, db.nodes) && Valid(t) && Size(t) <= U32_MAX
      modifies Repr, db`cache
      ensures db.Valid() && fresh(Repr - old(Repr))
      ensures Reports(RemoveNode(t, key, version), value, newHash, leafCut, newKey)
      ensures Rep(After(t, RemoveNode(t, key, version)), db.nodes)
      decreases t, 2
    {
      value, newHash, leafCut, newKey := None, None, false, None;
      if data.LeafData? {
        if data.key == key { value, leafCut := Some(data.value), true; }
        return;
      }
      RemoveBelowFits(t, key, version);
      if Less(key, data.key) {
        value, newHash, newKey := RemoveOnLeft(key, version, db, t);
      } else {
        value, newHash := RemoveOnRight(key, version, db, t);
      }
    }
  }
}
