/** The versioned tree over its database, and trees checked out at an old version. */
module IavlTree {
  import opened Bytes
  import opened Options
  import opened Hashing
  import opened AvlTree
  import opened NodeCodec
  import opened Prefixes
  import opened Database
  import opened Persistence
  import opened LazyNode
  import Runs

  /** The lookup loop of both kinds of tree: from the root down, fetching what is not loaded. */
  method GetFrom(root: Node, key: bytes, db: NodeDB, ghost t: Tree) returns (r: Option<bytes>, ghost steps: nat)
    requires db.Valid() && root.Rep(t, db.nodes) && Balanced(t)
    modifies db`cache
    ensures db.Valid() && r == Get(t, key) && steps <= Height(t)
  {
    var node: Node := root;
    ghost var u := t;
    steps := 0;
    while node.data.InnerData?
      invariant db.Valid() && node.Rep(u, db.nodes) && Balanced(u)
      invariant Get(u, key) == Get(t, key) && steps + Height(u) <= Height(t)
      decreases u
    {
      if Less(key, node.data.key) {
        assert Child(node.left, node.data.leftHash, u.left, db.nodes);
        if node.left != null { node := node.left; } else { node := db.GetNode(node.data.leftHash); }
        u := u.left;
      } else {
        assert Child(node.right, node.data.rightHash, u.right, db.nodes);
        if node.right != null { node := node.right; } else { node := db.GetNode(node.data.rightHash); }
        u := u.right;
      }
      steps := steps + 1;
    }
    r := if node.data.key == key then Some(node.data.value) else None;
  }

  /** `versions.last()` */
  method Latest(versions: set<nat>) returns (latest: Option<nat>)
    ensures latest.None? <==> versions == {}
    ensures latest.Some? ==> latest.value in versions && forall v :: v in versions ==> v <= latest.value
  {
    latest := None;
    var rest := versions;
    while rest != {}
      invariant rest <= versions
      invariant latest.None? ==> versions == rest
      invariant latest.Some? ==> latest.value in versions && forall v :: v in versions && v !in rest ==> v <= latest.value
      decreases |rest|
    {
      var v :| v in rest;
      if latest.None? || latest.value < v { latest := Some(v); }
      rest := rest - {v};
    }
  }

  lemma AsInputs(nodes: set<Tree>, o: Option<Tree>, inputs: set<bytes>)
    requires HashInputs(nodes + AsSet(o), inputs)
    ensures HashInputs(nodes, inputs) && (o.Some? ==> Preimages(o.value) <= inputs)
  {
    if o.Some? { assert o.value in AsSet(o); }
  }

  /** Clears the loaded children of a node whose tree is stored. */
  method DropChildren(root: Node, db: NodeDB, ghost t: Tree)
    requires db.Valid() && t in db.nodes && root.Rep(t, db.nodes)
    modifies root`left, root`right
    ensures root.Rep(t, db.nodes) && root.left == null && root.right == null
  {
    assert StoredNode(db.db.View(), db.nodes, t);
    if root.data.InnerData? { root.left, root.right := null, null; }
    root.BareRep(t, db.nodes);
  }

  /** The part of `set` below the tree's own fields. */
  method SetLoaded(root: Node?, key: bytes, value: bytes, version: nat, db: NodeDB, ghost o: Option<Tree>,
                   ghost result: Option<Tree>) returns (root': Node)
    requires db.Valid() && Holds(root, o, db.nodes) && (o.Some? ==> Valid(o.value)) && HasRoom(o, key)
    requires result == SetRoot(o, key, value, version)
    modifies Footprint(root), db`cache
    ensures db.Valid() && Holds(root', result, db.nodes)
    ensures (root != null ==> root' == root) && fresh(Footprint(root') - old(Footprint(root)))
  {
    if root == null {
      root' := new Node(LeafData(value, key, version), null, null);
      assert root'.Shape(result.value, db.nodes);
    } else {
      root' := root;
      root.RecursiveSet(key, value, version, db, o.value);
    }
  }

  ghost function ValueOf(r: Removal): Option<bytes> {
    if r.Cut? || r.Removed? then Some(r.value) else None
  }

  lemma RemovalOf(t: Tree, key: bytes, version: nat, outcome: Removal)
    requires outcome == RemoveNode(t, key, version)
    ensures RemoveRoot(Some(t), key, version) == (ValueOf(outcome), Some(After(t, outcome)))
  {
  }

  lemma ReportedValue(r: Removal, value: Option<bytes>, newHash: Option<Hash>, leafCut: bool, newKey: Option<bytes>)
    requires Reports(r, value, newHash, leafCut, newKey)
    ensures value == ValueOf(r)
  {
  }

  /** `value` was bound to the key in `o`, and `o'` is `o` with exactly that key unbound, unless the
      root of `o` is itself the leaf of the key: then, and when the key is absent, it is `o`. */
  ghost predicate Unbinds(o: Option<Tree>, k: bytes, value: Option<bytes>, o': Option<Tree>) {
    match o
    case None => value == None && o' == None
    case Some(t) =>
      && value == Lookup(Contents(o), k)
      && Contents(o') == (if t.Leaf? && t.key == k then Contents(o) else Contents(o) - {k})
      && (k !in Contents(o) || (t.Leaf? && t.key == k) ==> o' == o)
  }

  lemma RemoveUnbinds(o: Option<Tree>, k: bytes, version: nat, value: Option<bytes>, o': Option<Tree>)
    requires ValidRoot(o, version) && value == RemoveRoot(o, k, version).0 && o' == RemoveRoot(o, k, version).1
    ensures Unbinds(o, k, value, o')
  {
    RemoveCorrect(o, k, version);
  }

  /** The part of `remove` below the tree's own fields. */
  method RemoveLoaded(root: Node, key: bytes, version: nat, db: NodeDB, ghost t: Tree,
                      ghost result: (Option<bytes>, Option<Tree>)) returns (value: Option<bytes>)
    requires db.Valid() && root.Rep(t, db.nodes) && Valid(t) && Size(t) <= U32_MAX
    requires result == RemoveRoot(Some(t), key, version)
    modifies root.Repr, db`cache
    ensures db.Valid() && value == result.0 && Holds(root, result.1, db.nodes) && fresh(root.Repr - old(root.Repr))
  {
    ghost var outcome := RemoveNode(t, key, version);
    RemovalOf(t, key, version, outcome);
    var newHash, leafCut, newKey;
    value, newHash, leafCut, newKey := root.RecursiveRemove(key, version, db, t);
    ReportedValue(outcome, value, newHash, leafCut, newKey);
  }

  /** Barring collisions, a working tree whose hash is the one recorded for a version is the tree
      committed under it. */
  lemma SameRootSameTree(view: map<bytes, bytes>, nodes: set<Tree>, committed: map<nat, Option<Tree>>,
                         v: nat, o: Option<Tree>, inputs: set<bytes>)
    requires StoreOk(view, nodes, committed) && v in committed && ValidRoot(o, v) && RootSize(o) <= U32_MAX
    requires CollisionFree(inputs) && HashInputs(nodes + AsSet(o), inputs)
    ensures Persistence.RootHash(committed[v]) == Persistence.RootHash(o) <==> committed[v] == o
    ensures committed[v] == o && o.Some? ==> o.value in nodes
  {
    assert CommittedRoot(view, nodes, v, committed[v]);
    if committed[v].Some? { assert StoredNode(view, nodes, committed[v].value); }
    if o.Some? {
      ValidTreeFits(o.value, v);
      assert o.value in AsSet(o);
      NeverEmptyHash(o.value, inputs);
      if committed[v].Some? && HashOf(committed[v].value) == HashOf(o.value) {
        HashDetermines(committed[v].value, o.value, inputs);
      }
    }
  }

  /** The loaded nodes of a tree in the order in which they are written: children first. */
  ghost function Order(root: Node?, o: Option<Tree>): seq<Tree>
    reads root, Footprint(root)
  {
    if root == null || o == None then [] else root.WriteOrder(o.value)
  }

  class IavlTree {
    var root: Node?
    const nodeDb: NodeDB
    var loadedVersion: nat
    var versions: set<nat>
    /** The tree that `root` stands for once everything is loaded. */
    ghost var model: Option<Tree>

    /** The memory stands for `model` and the database is in order. */
    ghost predicate Stands()
      reads this, nodeDb, nodeDb.db.db, root, Footprint(root)
    {
      && nodeDb.Valid()
      && Holds(root, model, nodeDb.nodes)
      && versions == nodeDb.committed.Keys
      && loadedVersion <= U32_MAX && (loadedVersion == 0 || loadedVersion in versions)
    }

    ghost predicate Valid()
      reads this, nodeDb, nodeDb.db.db, root, Footprint(root)
    {
      Stands() && ValidRoot(model, loadedVersion + 1) && RootSize(model) <= U32_MAX
    }

    /** The map the tree holds, edits not yet saved included. */
    ghost function Map(): map<bytes, bytes>
      reads this
    {
      Contents(model)
    }

    /** The tree and its database as a state of a run. */
    ghost function State(): Runs.State
      reads this, nodeDb, nodeDb.db.db
    {
      Runs.State(nodeDb.db.View(), nodeDb.nodes, nodeDb.committed, model, loadedVersion)
    }

    constructor (root: Node?, nodeDb: NodeDB, loadedVersion: nat, versions: set<nat>, ghost model: Option<Tree>)
      ensures this.root == root && this.nodeDb == nodeDb && this.loadedVersion == loadedVersion
      ensures this.versions == versions && this.model == model
    {
      this.root, this.nodeDb, this.loadedVersion, this.versions, this.model := root, nodeDb, loadedVersion, versions, model;
    }

    static method Open(nodeDb: NodeDB, version: nat, versions: set<nat>) returns (r: Result<IavlTree, TreeError>)
      requires nodeDb.Valid() && versions == nodeDb.committed.Keys
      modifies nodeDb`cache
      ensures r == Err(VersionNotFound(version)) <==> version !in nodeDb.committed
      ensures version in nodeDb.committed ==>
        && r.Ok? && fresh(r.value) && r.value.Valid() && r.value.nodeDb == nodeDb
        && r.value.loadedVersion == version && r.value.model == nodeDb.committed[version]
    {
      var root := nodeDb.GetRootNode(version);
      if root.Err? { return Err(root.error); }
      CommittedIsValid(nodeDb.db.View(), nodeDb.nodes, nodeDb.committed, version);
      var tree := new IavlTree(root.value, nodeDb, version, versions, nodeDb.committed[version]);
      r := Ok(tree);
    }

    /** `Tree::new`: the tree of the target version, or of the latest one, or an empty tree. What was
        not saved is gone. */
    static method New(db: PrefixDB, target: Option<nat>, ghost nodes: set<Tree>, ghost committed: map<nat, Option<Tree>>)
        returns (r: Result<IavlTree, TreeError>)
      requires db.db.Valid() && StoreOk(db.View(), nodes, committed)
      ensures r.Err? <==> target.Some? && target.value !in committed
      ensures r.Err? ==> r.error == VersionNotFound(target.value)
      ensures r.Ok? ==> fresh(r.value) && r.value.Valid() && r.value.nodeDb.db == db
      ensures r.Ok? ==> r.value.versions == committed.Keys && r.value.nodeDb.committed == committed
      ensures r.Ok? && target.Some? ==> r.value.loadedVersion == target.value && r.value.model == committed[target.value]
      ensures r.Ok? && target.None? && committed != map[] ==>
        && r.value.loadedVersion in committed && r.value.model == committed[r.value.loadedVersion]
        && forall v :: v in committed ==> v <= r.value.loadedVersion
      ensures r.Ok? && target.None? && committed == map[] ==> r.value.loadedVersion == 0 && r.value.model == None
      ensures r.Ok? ==>
        && r.value.State() == Runs.State(db.View(), nodes, committed, r.value.model, r.value.loadedVersion)
        && Runs.Reopens(db.View(), r.value.loadedVersion, r.value.model)
    {
      forall v ensures v in committed ==> Runs.Reopens(db.View(), v, committed[v])
               ensures committed == map[] ==> Runs.Reopens(db.View(), 0, None) {
        Runs.CommittedOpens(db.View(), nodes, committed, v);
      }
      var nodeDb := new NodeDB(db, nodes, committed);
      var versions := nodeDb.GetVersions();
      var version := target;
      if target.None? {
        version := Latest(versions);
        if version.None? {
          var tree := new IavlTree(null, nodeDb, 0, versions, None);
          return Ok(tree);
        }
      }
      r := Open(nodeDb, version.value, versions);
    }

    method RootHash() returns (hash: Hash)
      requires Valid()
      ensures hash == Persistence.RootHash(model)
    {
      hash := if root == null then EmptyHash() else HashData(root.data);
    }

    method Get(key: bytes) returns (r: Option<bytes>, ghost steps: nat)
      requires Valid()
      modifies nodeDb`cache
      ensures Valid() && r == Lookup(Map(), key) && steps <= 45
    {
      if root == null { return None, 0; }
      GetIsLookup(model.value, key);
      HeightBound(model.value);
      r, steps := GetFrom(root, key, nodeDb, model.value);
    }

    method SetModel(key: bytes, value: bytes)
      requires Valid() && HasRoom(model, key)
      modifies this`root, this`model, Footprint(root), nodeDb`cache
      ensures Stands() && model == SetRoot(old(model), key, value, old(loadedVersion) + 1)
      ensures State() == old(State()).(root := model)
      ensures fresh(Footprint(root) - old(Footprint(root)))
    {
      ghost var before, result := model, SetRoot(model, key, value, loadedVersion + 1);
      model := result;
      root := SetLoaded(root, key, value, loadedVersion + 1, nodeDb, before, result);
    }

    /** Binds the key and changes nothing else, whatever is loaded and whatever is cached. */
    method Set(key: bytes, value: bytes)
      requires Valid() && loadedVersion < U32_MAX && HasRoom(model, key)
      modifies this`root, this`model, Footprint(root), nodeDb`cache
      ensures Valid() && Map() == old(Map())[key := value]
      ensures model == SetRoot(old(model), key, value, old(loadedVersion) + 1)
      ensures Runs.Next(old(State()), Runs.Set(key, value), State())
      ensures fresh(Footprint(root) - old(Footprint(root)))
    {
      ghost var s := State();
      SetCorrect(model, key, value, loadedVersion + 1);
      SetModel(key, value);
      Runs.SetIsStep(s, key, value, State());
    }

    method RemoveModel(key: bytes) returns (value: Option<bytes>)
      requires Valid()
      modifies this`model, Footprint(root), nodeDb`cache
      ensures Stands() && value == RemoveRoot(old(model), key, old(loadedVersion) + 1).0
      ensures model == RemoveRoot(old(model), key, old(loadedVersion) + 1).1
      ensures State() == old(State()).(root := model)
      ensures fresh(Footprint(root) - old(Footprint(root)))
    {
      ghost var before, result := model, RemoveRoot(model, key, loadedVersion + 1);
      model := result.1;
      if root == null { return None; }
      value := RemoveLoaded(root, key, loadedVersion + 1, nodeDb, before.value, result);
    }

    method RemoveStep(key: bytes) returns (value: Option<bytes>)
      requires Valid() && loadedVersion < U32_MAX
      modifies this`model, Footprint(root), nodeDb`cache
      ensures Valid() && value == RemoveRoot(old(model), key, old(loadedVersion) + 1).0
      ensures model == RemoveRoot(old(model), key, old(loadedVersion) + 1).1
      ensures Runs.Next(old(State()), Runs.Remove(key), State())
      ensures fresh(Footprint(root) - old(Footprint(root)))
    {
      ghost var s := State();
      value := RemoveModel(key);
      Runs.RemoveIsStep(s, key, State());
    }

    /** Returns the value bound to the key and, unless the root is itself the leaf of the key,
        unbinds exactly that key. */
    method Remove(key: bytes) returns (value: Option<bytes>)
      requires Valid() && loadedVersion < U32_MAX
      modifies this`model, Footprint(root), nodeDb`cache
      ensures Valid() && Unbinds(old(model), key, value, model)
      ensures value == RemoveRoot(old(model), key, old(loadedVersion) + 1).0
      ensures model == RemoveRoot(old(model), key, old(loadedVersion) + 1).1
      ensures Runs.Next(old(State()), Runs.Remove(key), State())
      ensures fresh(Footprint(root) - old(Footprint(root)))
    {
      ghost var o, result := model, RemoveRoot(model, key, loadedVersion + 1);
      value := RemoveStep(key);
      assert value == result.0 && model == result.1;
      RemoveUnbinds(o, key, loadedVersion + 1, value, model);
    }

    /** The state is one that a run can be in. */
    lemma StateInv(inputs: set<bytes>)
      requires Valid() && HashInputs(nodeDb.nodes + AsSet(model), inputs)
      ensures Runs.Inv(State(), inputs) && Runs.Hashed(State(), inputs)
    {
      AsInputs(nodeDb.nodes, model, inputs);
    }

    /** The root entry of the working tree, whose nodes are stored. */
    method SaveRoot(version: nat, hash: Hash)
      requires Valid() && loadedVersion < U32_MAX && version == loadedVersion + 1 && version !in versions
      requires hash == Persistence.RootHash(model) && (model.Some? ==> model.value in nodeDb.nodes)
      modifies this`loadedVersion, this`versions, nodeDb`committed, nodeDb`log, nodeDb.db.db
      ensures Valid() && State() == Runs.RootWritten(old(State())) && nodeDb.log == old(nodeDb.log) + [State().view]
      ensures Extends(nodeDb.db.View(), old(nodeDb.db.View()))
      ensures SameApart(old(nodeDb.db.db.store), nodeDb.db.db.store, nodeDb.db.prefix)
    {
      nodeDb.SaveVersion(version, hash, model);
      versions := versions + {version};
      loadedVersion := version;
      if root != null { VersionedMore(model.value, version, version + 1); }
    }

    /** The nodes of the working tree, before its root entry. */
    method SaveNodes(ghost inputs: set<bytes>) returns (hash: Hash, ghost puts: seq<Tree>)
      requires Valid() && loadedVersion < U32_MAX && loadedVersion + 1 !in versions
      requires CollisionFree(inputs) && HashInputs(nodeDb.nodes + AsSet(model), inputs)
      modifies Footprint(root), nodeDb, nodeDb.db.db
      ensures Valid() && Extends(nodeDb.db.View(), old(nodeDb.db.View())) && (model.Some? ==> model.value in nodeDb.nodes)
      ensures root != null ==> root.left == null && root.right == null
      ensures puts == old(Order(root, model))
      ensures SameApart(old(nodeDb.db.db.store), nodeDb.db.db.store, nodeDb.db.prefix)
      ensures hash == Persistence.RootHash(model) && nodeDb.committed == old(nodeDb.committed)
      ensures Wrote(old(nodeDb.Now()), nodeDb.Now(), puts) && Runs.NodesOf(model, puts)
    {
      if root == null {
        WroteNone(nodeDb.Now());
        return EmptyHash(), [];
      }
      ValidTreeFits(model.value, loadedVersion + 1);
      hash, puts := nodeDb.SaveTree(root, model.value, inputs);
    }

    /** The nodes, as the part of a commit before its last write. */
    method SaveAllButRoot(ghost inputs: set<bytes>) returns (hash: Hash, ghost puts: seq<Tree>)
      requires Valid() && loadedVersion < U32_MAX && loadedVersion + 1 !in versions
      requires CollisionFree(inputs) && HashInputs(nodeDb.nodes + AsSet(model), inputs)
      modifies Footprint(root), nodeDb, nodeDb.db.db
      ensures Valid() && Extends(nodeDb.db.View(), old(nodeDb.db.View())) && (model.Some? ==> model.value in nodeDb.nodes)
      ensures root != null ==> root.left == null && root.right == null
      ensures puts == old(Order(root, model))
      ensures SameApart(old(nodeDb.db.db.store), nodeDb.db.db.store, nodeDb.db.prefix)
      ensures hash == Persistence.RootHash(model) && State() == Runs.Written(old(State()), puts)
      ensures Runs.Path(Runs.CommitRun(old(State()), puts), Runs.CommitSteps(puts), inputs)
      ensures nodeDb.log + [Runs.Saved(old(State()), puts).view] == old(nodeDb.log) + Runs.CommitLog(old(State()), puts)
      ensures Runs.SafeLog(Runs.CommitLog(old(State()), puts), old(nodeDb.db.View()))
    {
      ghost var s, before := State(), nodeDb.Now();
      StateInv(inputs);
      hash, puts := SaveNodes(inputs);
      Runs.CommitOf(s, before, nodeDb.Now(), puts, inputs);
    }

    method SaveNew(version: nat, ghost inputs: set<bytes>) returns (hash: Hash, ghost puts: seq<Tree>)
      requires Valid() && loadedVersion < U32_MAX && version == loadedVersion + 1 && version !in versions
      requires CollisionFree(inputs) && HashInputs(nodeDb.nodes + AsSet(model), inputs)
      modifies this`loadedVersion, this`versions, Footprint(root), nodeDb, nodeDb.db.db
      ensures Valid() && old(nodeDb.nodes) <= nodeDb.nodes && Extends(nodeDb.db.View(), old(nodeDb.db.View()))
      ensures root != null ==> root.left == null && root.right == null
      ensures puts == old(Order(root, model))
      ensures SameApart(old(nodeDb.db.db.store), nodeDb.db.db.store, nodeDb.db.prefix)
      ensures hash == Persistence.RootHash(model) && State() == Runs.Saved(old(State()), puts)
      ensures Runs.Path(Runs.CommitRun(old(State()), puts), Runs.CommitSteps(puts), inputs)
      ensures nodeDb.log == old(nodeDb.log) + Runs.CommitLog(old(State()), puts)
      ensures Runs.SafeLog(Runs.CommitLog(old(State()), puts), old(nodeDb.db.View()))
    {
      hash, puts := SaveAllButRoot(inputs);
      SaveRoot(version, hash);
    }

    /** The version exists: the same hash means the same tree, so the children may be dropped. */
    method SaveExisting(version: nat, ghost inputs: set<bytes>) returns (r: Result<(Hash, nat), TreeError>)
      requires Valid() && loadedVersion < U32_MAX && version == loadedVersion + 1 && version in versions
      requires CollisionFree(inputs) && HashInputs(nodeDb.nodes + AsSet(model), inputs)
      modifies this`loadedVersion, Footprint(root)
      ensures Valid()
      ensures if nodeDb.committed[version] != model then r == Err(Overwrite) && loadedVersion == old(loadedVersion)
              else r == Ok((Persistence.RootHash(model), version)) && loadedVersion == version
      ensures r.Ok? && root != null ==> root.left == null && root.right == null
    {
      var saved := nodeDb.GetRootHash(version);
      var working := RootHash();
      SameRootSameTree(nodeDb.db.View(), nodeDb.nodes, nodeDb.committed, version, model, inputs);
      if saved.value != working { return Err(Overwrite); }
      loadedVersion := version;
      if root != null {
        VersionedMore(model.value, version, version + 1);
        DropChildren(root, nodeDb, model.value);
      }
      r := Ok((saved.value, version));
    }

    /** `save_version`. Saves the tree under the next version, node by node, children first and the
        root entry last; when that version exists already, goes on to it if it holds the same tree and
        refuses otherwise, and writes nothing. `puts` are the nodes written. */
    method SaveVersion(ghost inputs: set<bytes>) returns (r: Result<(Hash, nat), TreeError>, ghost puts: seq<Tree>)
      requires Valid() && loadedVersion < U32_MAX
      requires CollisionFree(inputs) && HashInputs(nodeDb.nodes + AsSet(model), inputs)
      modifies this`loadedVersion, this`versions, Footprint(root), nodeDb, nodeDb.db.db
      ensures Valid() && old(nodeDb.nodes) <= nodeDb.nodes && Extends(nodeDb.db.View(), old(nodeDb.db.View()))
      ensures SameApart(old(nodeDb.db.db.store), nodeDb.db.db.store, nodeDb.db.prefix)
      ensures r.Ok? && root != null ==> root.left == null && root.right == null
      ensures var version := old(loadedVersion) + 1;
        if version in old(nodeDb.committed) && old(nodeDb.committed)[version] != model then
          r == Err(Overwrite) && State() == old(State())
        else
          r == Ok((Persistence.RootHash(model), version)) && loadedVersion == version
          && nodeDb.committed == old(nodeDb.committed)[version := model]
      ensures old(loadedVersion) + 1 in old(nodeDb.committed) ==>
        && nodeDb.db.db.store == old(nodeDb.db.db.store) && nodeDb.log == old(nodeDb.log)
        && (r.Ok? ==> Runs.Next(old(State()), Runs.SaveAgain, State()))
      ensures old(loadedVersion) + 1 !in old(nodeDb.committed) ==>
        && State() == Runs.Saved(old(State()), puts)
        && Runs.Path(Runs.CommitRun(old(State()), puts), Runs.CommitSteps(puts), inputs)
        && puts == old(Order(root, model))
        && nodeDb.log == old(nodeDb.log) + Runs.CommitLog(old(State()), puts)
        && Runs.SafeLog(Runs.CommitLog(old(State()), puts), old(nodeDb.db.View()))
    {
      if loadedVersion + 1 in versions {
        r := SaveExisting(loadedVersion + 1, inputs);
        puts := [];
      } else {
        var hash;
        hash, puts := SaveNew(loadedVersion + 1, inputs);
        r := Ok((hash, loadedVersion));
      }
    }

    /** Whatever is written to the shared database under a prefix apart from this store's, this tree
        stays as it is. */
    twostate lemma StaysApart(prefix: bytes)
      requires old(Valid()) && nodeDb.db.db.Valid() && Apart(nodeDb.db.prefix, prefix)
      requires SameApart(old(nodeDb.db.db.store), nodeDb.db.db.store, prefix)
      requires unchanged(this) && unchanged(nodeDb) && (root != null ==> unchanged(root) && unchanged(root.Repr))
      ensures Valid() && State() == old(State())
    {
      assert nodeDb.db.View() == old(nodeDb.db.View());
      if root != null {
        assert root.Rep(model.value, old(nodeDb.nodes));
      }
    }
  }

  /** A tree checked out at a version. */
  class QueryTree {
    const root: Node?
    const nodeDb: NodeDB
    ghost const model: Option<Tree>

    ghost predicate Valid()
      reads nodeDb, nodeDb.db.db, root, Footprint(root)
    {
      && nodeDb.Valid()
      && Holds(root, model, nodeDb.nodes)
      && (model.Some? ==> Storable(model.value))
    }

    constructor (root: Node?, nodeDb: NodeDB, ghost model: Option<Tree>)
      ensures this.root == root && this.nodeDb == nodeDb && this.model == model
    {
      this.root, this.nodeDb, this.model := root, nodeDb, model;
    }

    /** `QueryTree::new`: version 0 stands for the loaded one. */
    static method New(tree: IavlTree, version: nat) returns (r: Result<QueryTree, TreeError>)
      requires tree.Valid()
      modifies tree.nodeDb`cache
      ensures tree.Valid()
      ensures var v := if version == 0 then tree.loadedVersion else version;
        if v in tree.versions
        then r.Ok? && fresh(r.value) && r.value.Valid() && r.value.nodeDb == tree.nodeDb
             && r.value.model == tree.nodeDb.committed[v] && fresh(Footprint(r.value.root))
        else r == Err(VersionNotFound(v))
    {
      var v := version;
      if version == 0 { v := tree.loadedVersion; }
      if v !in tree.versions { return Err(VersionNotFound(v)); }
      ghost var model := tree.nodeDb.committed[v];
      CommittedIsStorable(tree.nodeDb.db.View(), tree.nodeDb.nodes, tree.nodeDb.committed, v);
      var root := tree.nodeDb.GetRootNode(v);
      var query := new QueryTree(root.value, tree.nodeDb, model);
      r := Ok(query);
    }

    /** Answers every key from the map that was committed. */
    method Get(key: bytes) returns (r: Option<bytes>, ghost steps: nat)
      requires Valid()
      modifies nodeDb`cache
      ensures Valid() && r == Lookup(Contents(model), key) && steps <= 45
    {
      if root == null { return None, 0; }
      GetIsLookup(model.value, key);
      HeightBoundOfFits(model.value);
      r, steps := GetFrom(root, key, nodeDb, model.value);
    }

    /** Whatever is stored later, a checked-out tree keeps answering from the same map. */
    twostate lemma Survives()
      requires old(Valid()) && nodeDb.Valid() && old(nodeDb.nodes) <= nodeDb.nodes
      requires root != null ==> unchanged(root) && unchanged(root.Repr)
      ensures Valid()
    {
      if root != null {
        assert root.Rep(model.value, old(nodeDb.nodes));
        root.RepMore(model.value, old(nodeDb.nodes), nodeDb.nodes);
      }
    }
  }
}
