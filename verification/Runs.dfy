/** Whole runs of the tree over its database, one write at a time: edits, commits that may stop
    after any write, versions saved again, and reopening from what the database holds. */
module Runs {
  import opened Bytes
  import opened Options
  import opened Hashing
  import opened AvlTree
  import opened NodeCodec
  import opened Persistence

  /** `view` is the database; `root` and `loaded` are the working tree. `nodes` and `committed`
      record what was written, and no step reads them to decide what the program does. */
  datatype State = State(view: map<bytes, bytes>, nodes: set<Tree>, committed: map<nat, Option<Tree>>,
                         root: Option<Tree>, loaded: nat)

  datatype Step =
    | Set(key: bytes, value: bytes)
    | Remove(key: bytes)
    | PutNode(node: Tree)
    | PutRoot
    | SaveAgain
    | Reopen(version: nat, found: Option<Tree>)

  /** Opening a version sees the database only: its root entry, and nodes by hash below it. */
  ghost predicate Opens(view: map<bytes, bytes>, v: nat, o: Option<Tree>) {
    && RootKey(v) in view && view[RootKey(v)] == RootHash(o)
    && (view[RootKey(v)] == EmptyHash() ==> o == None)
    && (o.Some? ==> Reads(Decoding(view), o.value))
  }

  ghost predicate NoVersions(view: map<bytes, bytes>) {
    forall k :: k in view ==> !([1] <= k)
  }

  /** What reopening finds: nothing when there is no version, and some version's tree otherwise. */
  ghost predicate Reopens(view: map<bytes, bytes>, v: nat, o: Option<Tree>) {
    if NoVersions(view) then v == 0 && o == None else Opens(view, v, o)
  }

  ghost predicate Init(s: State) {
    s == State(map[], {}, map[], None, 0)
  }

  ghost predicate Next(s: State, step: Step, s': State) {
    match step
    case Set(k, v) =>
      && s.loaded < U32_MAX && HasRoom(s.root, k)
      && s' == s.(root := SetRoot(s.root, k, v, s.loaded + 1))
    case Remove(k) =>
      && s.loaded < U32_MAX
      && s' == s.(root := RemoveRoot(s.root, k, s.loaded + 1).1)
    case PutNode(t) =>
      // a write of a commit: some node of the working tree whose children are stored
      && s.loaded < U32_MAX && s.loaded + 1 !in s.committed
      && s.root.Some? && Subtree(t, s.root.value) && (t.Inner? ==> t.left in s.nodes && t.right in s.nodes)
      && s' == s.(view := WithNode(s.view, t), nodes := s.nodes + {t})
    case PutRoot =>
      // the last write of a commit
      && s.loaded < U32_MAX && s.loaded + 1 !in s.committed
      && (s.root.Some? ==> s.root.value in s.nodes)
      && s' == s.(view := s.view[RootKey(s.loaded + 1) := RootHash(s.root)],
                  committed := s.committed[s.loaded + 1 := s.root], loaded := s.loaded + 1)
    case SaveAgain =>
      && s.loaded + 1 in s.committed && RootHash(s.committed[s.loaded + 1]) == RootHash(s.root)
      && s' == s.(loaded := s.loaded + 1)
    case Reopen(v, o) =>
      && Reopens(s.view, v, o)
      && s' == s.(root := o, loaded := v)
  }

  ghost predicate Inv(s: State, inputs: set<bytes>) {
    && StoreOk(s.view, s.nodes, s.committed)
    && HashInputs(s.nodes, inputs)
    && ValidRoot(s.root, s.loaded + 1) && RootSize(s.root) <= U32_MAX
    && s.loaded <= U32_MAX
  }

  /** What a state's working tree hashes is among the inputs. */
  ghost predicate Hashed(s: State, inputs: set<bytes>) {
    s.root.Some? ==> Preimages(s.root.value) <= inputs
  }

  lemma {:induction false} SubtreeStorable(t: Tree, of: Tree)
    requires Subtree(t, of) && Storable(of)
    ensures Storable(t) && Preimages(t) <= Preimages(of)
  {
    if t != of {
      ValidChildren(of);
      if Subtree(t, of.left) { SubtreeStorable(t, of.left); } else { SubtreeStorable(t, of.right); }
    }
  }

  ghost predicate Grows(committed: map<nat, Option<Tree>>, committed': map<nat, Option<Tree>>) {
    forall v :: v in committed ==> v in committed' && committed'[v] == committed[v]
  }

  /** Reopening finds the tree that was committed, whole. */
  lemma OpensCommitted(s: State, inputs: set<bytes>, v: nat, o: Option<Tree>)
    requires Inv(s, inputs) && Opens(s.view, v, o)
    ensures v in s.committed && o == s.committed[v]
  {
    if v !in s.committed { RootKeyUnused(s.view, s.nodes, s.committed, v); }
    var c := s.committed[v];
    assert CommittedRoot(s.view, s.nodes, v, c);
    if c.Some? {
      assert StoredNode(s.view, s.nodes, c.value);
      StoredReads(s.view, s.nodes, c.value);
      ReadsOnce(Decoding(s.view), c.value, o.value);
    }
  }

  /** Every committed version can be opened, and nothing can when there is none. */
  lemma CommittedOpens(view: map<bytes, bytes>, nodes: set<Tree>, committed: map<nat, Option<Tree>>, v: nat)
    requires StoreOk(view, nodes, committed)
    ensures v in committed ==> Reopens(view, v, committed[v])
    ensures committed == map[] ==> Reopens(view, 0, None)
  {
    if v in committed {
      assert CommittedRoot(view, nodes, v, committed[v]);
      assert RootKey(v) in view && [1] <= RootKey(v);
      if committed[v].Some? {
        assert StoredNode(view, nodes, committed[v].value);
        StoredReads(view, nodes, committed[v].value);
      }
    }
  }

  lemma SetStays(o: Option<Tree>, k: bytes, v: bytes, version: nat)
    requires ValidRoot(o, version) && HasRoom(o, k)
    ensures ValidRoot(SetRoot(o, k, v, version), version) && RootSize(SetRoot(o, k, v, version)) <= U32_MAX
  {
    SetCorrect(o, k, v, version);
    SetRootSize(o, k, v, version);
  }

  lemma SetIsStep(s: State, k: bytes, v: bytes, s': State)
    requires ValidRoot(s.root, s.loaded + 1) && s.loaded < U32_MAX && HasRoom(s.root, k)
    requires s'.root == SetRoot(s.root, k, v, s.loaded + 1) && s' == s.(root := s'.root)
    ensures Next(s, Set(k, v), s') && ValidRoot(s'.root, s.loaded + 1) && RootSize(s'.root) <= U32_MAX
  {
    SetStays(s.root, k, v, s.loaded + 1);
  }

  lemma RemoveIsStep(s: State, k: bytes, s': State)
    requires ValidRoot(s.root, s.loaded + 1) && s.loaded < U32_MAX && RootSize(s.root) <= U32_MAX
    requires s' == s.(root := RemoveRoot(s.root, k, s.loaded + 1).1)
    ensures Next(s, Remove(k), s') && ValidRoot(s'.root, s.loaded + 1) && RootSize(s'.root) <= U32_MAX
  {
    RemoveRootSize(s.root, k, s.loaded + 1);
  }

  lemma SetKeeps(s: State, k: bytes, v: bytes, inputs: set<bytes>, s': State)
    requires Inv(s, inputs) && HasRoom(s.root, k)
    requires s' == s.(root := SetRoot(s.root, k, v, s.loaded + 1))
    ensures Inv(s', inputs)
  {
    SetStays(s.root, k, v, s.loaded + 1);
  }

  lemma RemoveKeeps(s: State, k: bytes, inputs: set<bytes>, s': State)
    requires Inv(s, inputs)
    requires s' == s.(root := RemoveRoot(s.root, k, s.loaded + 1).1)
    ensures Inv(s', inputs)
  {
    RemoveRootSize(s.root, k, s.loaded + 1);
  }

  lemma WriteKeeps(s: State, t: Tree, inputs: set<bytes>, s': State)
    requires Inv(s, inputs) && CollisionFree(inputs) && Hashed(s, inputs) && Next(s, PutNode(t), s')
    ensures Inv(s', inputs)
  {
    ValidTreeFits(s.root.value, s.loaded + 1);
    SubtreeStorable(t, s.root.value);
    PutNodeKeeps(s.view, s.nodes, s.committed, t, inputs, s'.view);
  }

  lemma RootKeeps(s: State, inputs: set<bytes>, s': State)
    requires Inv(s, inputs) && Next(s, PutRoot, s')
    ensures Inv(s', inputs)
  {
    PutRootKeeps(s.view, s.nodes, s.committed, s.loaded + 1, s.root, s'.view);
    if s.root.Some? { VersionedMore(s.root.value, s.loaded + 1, s.loaded + 2); }
  }

  lemma AgainKeeps(s: State, inputs: set<bytes>, s': State)
    requires Inv(s, inputs) && Next(s, SaveAgain, s')
    ensures Inv(s', inputs)
  {
    assert CommittedRoot(s.view, s.nodes, s.loaded + 1, s.committed[s.loaded + 1]);
    if s.root.Some? { VersionedMore(s.root.value, s.loaded + 1, s.loaded + 2); }
  }

  lemma ReopenKeeps(s: State, v: nat, o: Option<Tree>, inputs: set<bytes>, s': State)
    requires Inv(s, inputs) && Next(s, Reopen(v, o), s')
    ensures Inv(s', inputs)
  {
    if !NoVersions(s.view) {
      OpensCommitted(s, inputs, v, o);
      CommittedIsValid(s.view, s.nodes, s.committed, v);
    }
  }

  /** Each step keeps the database in order and every committed version as it is. */
  lemma NextKeeps(s: State, step: Step, s': State, inputs: set<bytes>)
    requires Inv(s, inputs) && Next(s, step, s')
    requires CollisionFree(inputs) && Hashed(s, inputs)
    ensures Inv(s', inputs) && Grows(s.committed, s'.committed)
  {
    match step
    case Set(k, v) => SetKeeps(s, k, v, inputs, s');
    case Remove(k) => RemoveKeeps(s, k, inputs, s');
    case PutNode(t) => WriteKeeps(s, t, inputs, s');
    case PutRoot => RootKeeps(s, inputs, s');
    case SaveAgain => AgainKeeps(s, inputs, s');
    case Reopen(v, o) => ReopenKeeps(s, v, o, inputs, s');
  }

  /** Steps from state to state, with no two of the inputs they hash colliding. */
  ghost predicate Path(run: seq<State>, steps: seq<Step>, inputs: set<bytes>) {
    && |run| == |steps| + 1
    && (forall i {:trigger steps[i]} :: 0 <= i < |steps| ==> Next(run[i], steps[i], run[i + 1]))
    && CollisionFree(inputs)
    && (forall i :: 0 <= i < |run| ==> Hashed(run[i], inputs))
  }

  /** A run: from the empty database, any steps in any order. */
  ghost predicate Run(run: seq<State>, steps: seq<Step>, inputs: set<bytes>) {
    Path(run, steps, inputs) && Init(run[0]) && [] in inputs
  }

  lemma InitInv(s: State, inputs: set<bytes>)
    requires Init(s) && [] in inputs
    ensures Inv(s, inputs)
  {
  }

  lemma StepKeeps(run: seq<State>, steps: seq<Step>, inputs: set<bytes>, n: nat)
    requires Path(run, steps, inputs) && n < |steps| && Inv(run[n], inputs)
    ensures Inv(run[n + 1], inputs) && Grows(run[n].committed, run[n + 1].committed)
  {
    NextKeeps(run[n], steps[n], run[n + 1], inputs);
  }

  lemma {:induction false} PathKeepsInv(run: seq<State>, steps: seq<Step>, inputs: set<bytes>, n: nat)
    requires Path(run, steps, inputs) && Inv(run[0], inputs) && n < |run|
    ensures Inv(run[n], inputs)
  {
    if n == 0 {
    } else {
      PathKeepsInv(run, steps, inputs, n - 1);
      StepKeeps(run, steps, inputs, n - 1);
    }
  }

  lemma RunKeepsInv(run: seq<State>, steps: seq<Step>, inputs: set<bytes>, n: nat)
    requires Run(run, steps, inputs) && n < |run|
    ensures Inv(run[n], inputs)
  {
    InitInv(run[0], inputs);
    PathKeepsInv(run, steps, inputs, n);
  }

  lemma {:induction false} RunGrows(run: seq<State>, steps: seq<Step>, inputs: set<bytes>, i: nat, j: nat)
    requires Run(run, steps, inputs) && i <= j < |run|
    ensures Grows(run[i].committed, run[j].committed)
    decreases j
  {
    if i < j {
      RunGrows(run, steps, inputs, i, j - 1);
      RunKeepsInv(run, steps, inputs, j - 1);
      StepKeeps(run, steps, inputs, j - 1);
    }
  }

  // ---------- a commit as a series of steps ----------

  ghost function Written(s: State, puts: seq<Tree>): State {
    s.(view := PutNodes(s.view, puts), nodes := s.nodes + Elements(puts))
  }

  ghost function RootWritten(s: State): State {
    s.(view := s.view[RootKey(s.loaded + 1) := RootHash(s.root)],
       committed := s.committed[s.loaded + 1 := s.root], loaded := s.loaded + 1)
  }

  ghost function Saved(s: State, puts: seq<Tree>): State {
    RootWritten(Written(s, puts))
  }

  /** The states a commit goes through that writes these nodes and then the root entry. */
  ghost function CommitRun(s: State, puts: seq<Tree>): seq<State> {
    seq(|puts| + 1, i requires 0 <= i <= |puts| => Written(s, puts[..i])) + [Saved(s, puts)]
  }

  ghost function CommitSteps(puts: seq<Tree>): seq<Step> {
    seq(|puts|, i requires 0 <= i < |puts| => PutNode(puts[i])) + [PutRoot]
  }

  ghost predicate NodesOf(o: Option<Tree>, puts: seq<Tree>) {
    if o.None? then puts == [] else o.value in puts && PartsOf(puts, o.value)
  }

  /** Nodes of the working tree, children first, up to the root: what a commit may write. */
  ghost predicate Commits(s: State, puts: seq<Tree>) {
    && s.loaded < U32_MAX && s.loaded + 1 !in s.committed
    && ChildrenFirst(s.nodes, puts)
    && NodesOf(s.root, puts)
  }

  lemma {:induction false} ChildrenFirstAt(nodes: set<Tree>, ts: seq<Tree>, i: nat)
    requires ChildrenFirst(nodes, ts) && i < |ts| && ts[i].Inner?
    ensures ts[i].left in nodes + Elements(ts[..i]) && ts[i].right in nodes + Elements(ts[..i])
  {
    var init := ts[..|ts| - 1];
    if i < |init| {
      ChildrenFirstAt(nodes, init, i);
      assert init[..i] == ts[..i];
    }
  }

  lemma CommitRunAt(s: State, puts: seq<Tree>, i: nat)
    requires i <= |puts| + 1
    ensures |CommitRun(s, puts)| == |puts| + 2
    ensures CommitRun(s, puts)[i] == if i <= |puts| then Written(s, puts[..i]) else Saved(s, puts)
  {
  }

  lemma RootIsStep(s: State, puts: seq<Tree>)
    requires Commits(s, puts)
    ensures Next(Written(s, puts), PutRoot, Saved(s, puts))
  {
  }

  lemma PutIsStep(b: State, t: Tree, a: State)
    requires b.loaded < U32_MAX && b.loaded + 1 !in b.committed
    requires b.root.Some? && Subtree(t, b.root.value) && (t.Inner? ==> t.left in b.nodes && t.right in b.nodes)
    requires a == b.(view := WithNode(b.view, t), nodes := b.nodes + {t})
    ensures Next(b, PutNode(t), a)
  {
  }

  lemma WrittenNext(s: State, puts: seq<Tree>, i: nat)
    requires i < |puts|
    ensures var before := Written(s, puts[..i]);
      Written(s, puts[..i + 1]) == before.(view := WithNode(before.view, puts[i]), nodes := before.nodes + {puts[i]})
  {
    assert puts[..i + 1][..i] == puts[..i];
    assert puts[..i + 1] == puts[..i] + [puts[i]];
    ElementsAppend(puts[..i], [puts[i]]);
    assert s.nodes + (Elements(puts[..i]) + {puts[i]}) == s.nodes + Elements(puts[..i]) + {puts[i]};
    assert Elements([puts[i]]) == {puts[i]};
  }

  lemma WriteIsStep(s: State, puts: seq<Tree>, i: nat)
    requires Commits(s, puts) && i < |puts|
    ensures Next(Written(s, puts[..i]), PutNode(puts[i]), Written(s, puts[..i + 1]))
  {
    if puts[i].Inner? { ChildrenFirstAt(s.nodes, puts, i); }
    WrittenNext(s, puts, i);
    assert puts[i] in puts;
    PutIsStep(Written(s, puts[..i]), puts[i], Written(s, puts[..i + 1]));
  }

  /** Writing the nodes of the working tree children first and the root entry last is a series of
      steps. */
  lemma CommitIsPath(s: State, puts: seq<Tree>, inputs: set<bytes>)
    requires Commits(s, puts) && CollisionFree(inputs) && Hashed(s, inputs)
    ensures Path(CommitRun(s, puts), CommitSteps(puts), inputs)
    ensures CommitRun(s, puts)[0] == s
  {
    var run, steps := CommitRun(s, puts), CommitSteps(puts);
    CommitRunAt(s, puts, 0);
    assert puts[..0] == [];
    forall i | 0 <= i < |steps| ensures Next(run[i], steps[i], run[i + 1]) {
      CommitRunAt(s, puts, i);
      CommitRunAt(s, puts, i + 1);
      if i < |puts| {
        WriteIsStep(s, puts, i);
      } else {
        assert puts[..i] == puts;
        RootIsStep(s, puts);
      }
    }
    forall i | 0 <= i < |run| ensures Hashed(run[i], inputs) {
      CommitRunAt(s, puts, i);
    }
  }

  lemma {:induction false} NodesKeepRoots(view: map<bytes, bytes>, ts: seq<Tree>)
    ensures SameRoots(PutNodes(view, ts), view)
  {
    if ts == [] {
    } else {
      NodesKeepRoots(view, ts[..|ts| - 1]);
      KeysApart(0, HashOf(ts[|ts| - 1]));
    }
  }

  /** After every single write of a commit every stored inner node has both children stored and every
      recorded root is stored; and no root entry changes before the last write. */
  lemma CommitCrashSafe(s: State, puts: seq<Tree>, inputs: set<bytes>, i: nat)
    requires Inv(s, inputs) && Commits(s, puts) && CollisionFree(inputs) && Hashed(s, inputs)
    requires i < |CommitRun(s, puts)|
    ensures Inv(CommitRun(s, puts)[i], inputs) && Closed(CommitRun(s, puts)[i].view)
    ensures i <= |puts| ==> SameRoots(CommitRun(s, puts)[i].view, s.view)
  {
    CommitIsPath(s, puts, inputs);
    CommitRunAt(s, puts, i);
    PathKeepsInv(CommitRun(s, puts), CommitSteps(puts), inputs, i);
    var at := CommitRun(s, puts)[i];
    StoreOkClosed(at.view, at.nodes, at.committed);
    if i <= |puts| { NodesKeepRoots(s.view, puts[..i]); }
  }

  /** The log of a commit: what the database was after each of its writes. */
  ghost function CommitLog(s: State, puts: seq<Tree>): seq<map<bytes, bytes>> {
    Views(s.view, puts) + [Saved(s, puts).view]
  }

  lemma {:induction false} ViewsAt(view: map<bytes, bytes>, ts: seq<Tree>)
    ensures |Views(view, ts)| == |ts|
    ensures forall i :: 0 <= i < |ts| ==> Views(view, ts)[i] == PutNodes(view, ts[..i + 1])
  {
    if ts == [] {
    } else {
      var init := ts[..|ts| - 1];
      ViewsAt(view, init);
      forall i | 0 <= i < |ts| ensures Views(view, ts)[i] == PutNodes(view, ts[..i + 1]) {
        if i < |init| { assert init[..i + 1] == ts[..i + 1]; } else { assert ts[..i + 1] == ts; }
      }
    }
  }

  /** The log is what the database was in the states after the first. */
  lemma LogOfRun(s: State, puts: seq<Tree>, i: nat)
    requires i <= |puts|
    ensures |CommitLog(s, puts)| == |puts| + 1
    ensures CommitLog(s, puts)[i] == CommitRun(s, puts)[i + 1].view
  {
    ViewsAt(s.view, puts);
    CommitRunAt(s, puts, i + 1);
  }

  /** After every write every stored inner node has both children stored and every recorded root is
      stored, and the root entries are those of `view` until the last write. */
  ghost predicate SafeLog(log: seq<map<bytes, bytes>>, view: map<bytes, bytes>) {
    && (forall i :: 0 <= i < |log| ==> Closed(log[i]))
    && (forall i :: 0 <= i < |log| - 1 ==> SameRoots(log[i], view))
  }

  /** Crash safety of a commit, read off its log. */
  lemma CommitLogSafe(s: State, puts: seq<Tree>, inputs: set<bytes>)
    requires Inv(s, inputs) && Commits(s, puts) && CollisionFree(inputs) && Hashed(s, inputs)
    ensures Path(CommitRun(s, puts), CommitSteps(puts), inputs)
    ensures SafeLog(CommitLog(s, puts), s.view)
  {
    CommitIsPath(s, puts, inputs);
    LogOfRun(s, puts, 0);
    forall i | 0 <= i < |CommitLog(s, puts)|
      ensures Closed(CommitLog(s, puts)[i])
      ensures i < |CommitLog(s, puts)| - 1 ==> SameRoots(CommitLog(s, puts)[i], s.view)
    {
      LogOfRun(s, puts, i);
      CommitRunAt(s, puts, i + 1);
      CommitCrashSafe(s, puts, inputs, i + 1);
    }
  }

  /** What the writes of a tree's nodes amount to once its root entry follows. */
  lemma CommitOf(s: State, before: Snapshot, after: Snapshot, puts: seq<Tree>, inputs: set<bytes>)
    requires Inv(s, inputs) && CollisionFree(inputs) && Hashed(s, inputs)
    requires s.loaded < U32_MAX && s.loaded + 1 !in s.committed && NodesOf(s.root, puts)
    requires before.view == s.view && before.nodes == s.nodes && Wrote(before, after, puts)
    ensures after.view == Written(s, puts).view && after.nodes == Written(s, puts).nodes
    ensures after.log + [Saved(s, puts).view] == before.log + CommitLog(s, puts)
    ensures Path(CommitRun(s, puts), CommitSteps(puts), inputs)
    ensures SafeLog(CommitLog(s, puts), s.view)
  {
    CommitLogSafe(s, puts, inputs);
    WriteAllIs(before, puts);
    Associates(before.log, Views(s.view, puts), [Saved(s, puts).view]);
  }

  // ---------- what runs keep ----------

  /** A saved version stands for the tree that was saved. */
  lemma SavedStays(run: seq<State>, steps: seq<Step>, inputs: set<bytes>, i: nat, j: nat)
    requires Run(run, steps, inputs) && i < j < |run| && steps[i].PutRoot?
    ensures run[i].loaded + 1 in run[j].committed && run[j].committed[run[i].loaded + 1] == run[i].root
  {
    assert Next(run[i], steps[i], run[i + 1]);
    RunGrows(run, steps, inputs, i + 1, j);
  }

  /** Crash safety: wherever a run stops, even between two writes of a commit, every stored inner
      node has both children stored and every recorded root is stored. */
  lemma CrashSafe(run: seq<State>, steps: seq<Step>, inputs: set<bytes>, n: nat)
    requires Run(run, steps, inputs) && n < |run|
    ensures Closed(run[n].view)
  {
    RunKeepsInv(run, steps, inputs, n);
    StoreOkClosed(run[n].view, run[n].nodes, run[n].committed);
  }

  /** A version answers every key, for ever after it was saved and from the database alone, exactly
      as the map stood when it was saved. */
  lemma SavedVersionsNeverChange(run: seq<State>, steps: seq<Step>, inputs: set<bytes>, i: nat, j: nat, k: bytes)
    requires Run(run, steps, inputs) && i < j < |run| && steps[i].PutRoot?
    ensures QueryAt(run[j].view, run[i].loaded + 1, k) == Found(Lookup(Contents(run[i].root), k))
  {
    SavedStays(run, steps, inputs, i, j);
    RunKeepsInv(run, steps, inputs, j);
    QueryIsCommitted(run[j].view, run[j].nodes, run[j].committed, run[i].loaded + 1, k);
  }

  /** Reopening at a version brings back the map as it stood when the version was saved, with every
      edit made since gone. */
  lemma ReopenRestores(run: seq<State>, steps: seq<Step>, inputs: set<bytes>, i: nat, j: nat)
    requires Run(run, steps, inputs) && i < j < |steps| && steps[i].PutRoot?
    requires steps[j].Reopen? && steps[j].version == run[i].loaded + 1
    ensures run[j + 1].root == run[i].root && run[j + 1].loaded == run[i].loaded + 1
  {
    var v := run[i].loaded + 1;
    SavedStays(run, steps, inputs, i, j);
    RunKeepsInv(run, steps, inputs, j);
    assert Next(run[j], steps[j], run[j + 1]);
    assert CommittedRoot(run[j].view, run[j].nodes, v, run[j].committed[v]);
    assert RootKey(v) in run[j].view && [1] <= RootKey(v);
    OpensCommitted(run[j], inputs, v, steps[j].found);
  }

  /** Only saving creates versions: whatever has a root entry was saved at some step, and answers
      as the working tree of that step. */
  lemma {:induction false} EveryVersionWasSaved(run: seq<State>, steps: seq<Step>, inputs: set<bytes>, n: nat, v: nat)
    requires Run(run, steps, inputs) && n < |run| && v in run[n].committed
    ensures exists i :: 0 <= i < n && steps[i].PutRoot? && run[i].loaded + 1 == v && run[i].root == run[n].committed[v]
  {
    if n == 0 {
    } else {
      assert Next(run[n - 1], steps[n - 1], run[n]);
      RunGrows(run, steps, inputs, n - 1, n);
      if v in run[n - 1].committed {
        EveryVersionWasSaved(run, steps, inputs, n - 1, v);
      } else {
        assert steps[n - 1].PutRoot?;
      }
    }
  }
}
