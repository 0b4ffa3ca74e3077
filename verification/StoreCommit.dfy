/** Committing a store: the cache is applied to the tree in key order and the tree is saved. */
module StoreCommit {
  import opened Bytes
  import opened Options
  import opened SortedItems
  import opened Hashing
  import opened AvlTree
  import opened NodeCodec
  import opened Persistence
  import opened LazyNode
  import opened IavlTree
  import KV = KVCache

  /** The keys written and deleted, in key order: the map the two are collected into. */
  ghost predicate Lists(updates: seq<Item>, c: KV.Contents) {
    && Sorted(updates)
    && forall k :: HasKey(updates, k) <==> k in c.storage || k in c.deleted
  }

  /** Keys in key order. */
  ghost function InOrder(keys: set<bytes>): seq<Item> {
    if keys == {} then []
    else var k :| k in keys; Insert(InOrder(keys - {k}), k, [])
  }

  ghost function Updates(c: KV.Contents): seq<Item> {
    InOrder(c.storage.Keys + c.deleted)
  }

  lemma {:induction false} InOrderSorts(keys: set<bytes>)
    ensures Sorted(InOrder(keys)) && ToMap(InOrder(keys)) == map k | k in keys :: []
    ensures forall k :: HasKey(InOrder(keys), k) <==> k in keys
  {
    if keys == {} {
    } else {
      var k :| k in keys && InOrder(keys) == Insert(InOrder(keys - {k}), k, []);
      InOrderSorts(keys - {k});
      InsertIsUpdate(InOrder(keys - {k}), k, []);
    }
  }

  /** One update: a key that is both written and deleted counts as deleted. */
  function Apply(o: Option<Tree>, k: bytes, c: KV.Contents, version: nat): Option<Tree> {
    if k in c.deleted then RemoveRoot(o, k, version).1
    else if k in c.storage then SetRoot(o, k, c.storage[k], version)
    else o
  }

  function ApplyAll(o: Option<Tree>, updates: seq<Item>, c: KV.Contents, version: nat): Option<Tree> {
    if updates == [] then o
    else Apply(ApplyAll(o, updates[..|updates| - 1], c, version), updates[|updates| - 1].key, c, version)
  }

  /** The tree a commit saves. */
  ghost function Committed(o: Option<Tree>, c: KV.Contents, version: nat): Option<Tree> {
    ApplyAll(o, Updates(c), c, version)
  }

  /** The cache deletes every key the store holds and writes nothing but keys above them. */
  ghost predicate Strands(base: map<bytes, bytes>, c: KV.Contents) {
    && base != map[]
    && base.Keys <= c.deleted
    && forall k, b {:trigger Less(b, k)} :: k in c.storage && b in base ==> Less(b, k)
  }

  ghost predicate IsLast(base: map<bytes, bytes>, f: bytes) {
    f in base && forall b :: b in base ==> AtMost(b, f)
  }

  ghost function Keys(updates: seq<Item>): set<bytes> {
    set i | 0 <= i < |updates| :: updates[i].key
  }

  /** The map after the updates to the keys in `done`, had each done what it says. */
  ghost function Expected(base: map<bytes, bytes>, c: KV.Contents, done: set<bytes>): map<bytes, bytes> {
    map k | k in base.Keys + c.storage.Keys && (if k in done then k in c.storage else k in base) ::
      if k in done then c.storage[k] else base[k]
  }

  /** The key a stranded store keeps, if the store is stranded. */
  ghost predicate Stranded(base: map<bytes, bytes>, c: KV.Contents, last: Option<bytes>) {
    if Strands(base, c) then last.Some? && IsLast(base, last.value) else last == None
  }

  /** The map the tree really has by then: the last key of a stranded store is not removed. */
  ghost function Reached(base: map<bytes, bytes>, c: KV.Contents, last: Option<bytes>, done: set<bytes>): map<bytes, bytes> {
    var e := Expected(base, c, done);
    if last.Some? && last.value in done && last.value in base then e[last.value := base[last.value]] else e
  }

  /** One update as the map sees it: a removal does nothing to a map that is down to that key. */
  ghost function ApplyToMap(m: map<bytes, bytes>, k: bytes, c: KV.Contents): map<bytes, bytes> {
    if k in c.deleted then (if m.Keys == {k} then m else m - {k})
    else if k in c.storage then m[k := c.storage[k]]
    else m
  }

  lemma SingleLeaf(t: Tree, k: bytes)
    requires Valid(t)
    ensures t.Leaf? && t.key == k <==> Contents(Some(t)).Keys == {k}
  {
    var items := Items(t);
    ToMapHas(items, items[0].key);
    assert items[0].key == items[0].key;
    if t.Leaf? {
      forall k' ensures k' in ToMap(items) <==> k' == t.key { ToMapHas(items, k'); }
      assert Contents(Some(t)).Keys == {t.key};
    } else {
      var second := Items(t.right)[0].key;
      assert items[|Items(t.left)|].key == second;
      ToMapHas(items, second);
      LessIrreflexive(second);
    }
  }

  /** What is listed before a key is exactly the listed keys below it. */
  lemma DoneBelow(updates: seq<Item>, n: nat, k: bytes)
    requires Sorted(updates) && n < |updates| && HasKey(updates, k)
    ensures k in Keys(updates[..n]) <==> Less(k, updates[n].key)
    ensures k !in Keys(updates[..n]) && k != updates[n].key ==> Less(updates[n].key, k)
  {
    var i :| 0 <= i < |updates| && updates[i].key == k;
    LessIrreflexive(k);
    if i < n { assert updates[..n][i].key == k; }
    else if i > n {
      LessAsymmetric(updates[n].key, k);
    }
    if k in Keys(updates[..n]) {
      var j :| 0 <= j < |updates[..n]| && updates[..n][j].key == k;
      assert Less(updates[j].key, updates[n].key);
    }
  }

  /** A removal meets the last leaf exactly in a stranded store, at its last key. */
  lemma MeetsLastLeaf(base: map<bytes, bytes>, c: KV.Contents, updates: seq<Item>, n: nat)
    requires Lists(updates, c) && c.Disjoint() && n < |updates| && updates[n].key in c.deleted
    ensures Expected(base, c, Keys(updates[..n])).Keys == {updates[n].key}
      <==> Strands(base, c) && IsLast(base, updates[n].key)
  {
    var k, done := updates[n].key, Keys(updates[..n]);
    var e := Expected(base, c, done);
    forall x | x in c.storage || x in c.deleted
      ensures x in done <==> Less(x, k)
      ensures x in done || x == k || Less(k, x)
    {
      assert HasKey(updates, x);
      DoneBelow(updates, n, x);
    }
    LessIrreflexive(k);
    if e.Keys == {k} {
      assert k in e;
      forall b | b in base ensures b in c.deleted && AtMost(b, k) {
        if b != k { assert b !in e; }
      }
      forall x, b | x in c.storage && b in base ensures Less(b, x) {
        assert x !in e;
        if b != k { LessTransitive(b, k, x); }
      }
    }
    if Strands(base, c) && IsLast(base, k) {
      forall x ensures x in e <==> x == k {
        if x in base && x != k { LessAsymmetric(x, k); }
        if x in c.storage { LessAsymmetric(k, x); }
      }
    }
  }

  lemma RemoveContents(o: Option<Tree>, k: bytes, version: nat)
    requires ValidRoot(o, version)
    ensures var o' := RemoveRoot(o, k, version).1;
      && ValidRoot(o', version) && RootSize(o') <= RootSize(o)
      && Contents(o') == if Contents(o).Keys == {k} then Contents(o) else Contents(o) - {k}
  {
    RemoveCorrect(o, k, version);
    RemoveRootSize(o, k, version);
    if o.Some? { SingleLeaf(o.value, k); }
  }

  lemma ApplyContents(o: Option<Tree>, k: bytes, c: KV.Contents, version: nat)
    requires ValidRoot(o, version) && c.Disjoint()
    ensures ValidRoot(Apply(o, k, c, version), version)
    ensures Contents(Apply(o, k, c, version)) == ApplyToMap(Contents(o), k, c)
    ensures RootSize(Apply(o, k, c, version)) <= RootSize(o) + if k in c.storage && k !in Contents(o) then 1 else 0
  {
    if k in c.deleted {
      RemoveContents(o, k, version);
    } else if k in c.storage {
      SetCorrect(o, k, c.storage[k], version);
      SetRootSize(o, k, c.storage[k], version);
    }
  }

  lemma SetReaches(base: map<bytes, bytes>, c: KV.Contents, last: Option<bytes>, done: set<bytes>, k: bytes)
    requires k in c.storage && c.Disjoint() && Stranded(base, c, last)
    ensures Reached(base, c, last, done)[k := c.storage[k]] == Reached(base, c, last, done + {k})
  {
    assert Expected(base, c, done + {k}) == Expected(base, c, done)[k := c.storage[k]];
  }

  lemma RemoveReaches(base: map<bytes, bytes>, c: KV.Contents, last: Option<bytes>, done: set<bytes>, k: bytes)
    requires k in c.deleted && k !in done && c.Disjoint() && Stranded(base, c, last)
    requires Expected(base, c, done).Keys == {k} <==> last == Some(k)
    ensures ApplyToMap(Reached(base, c, last, done), k, c) == Reached(base, c, last, done + {k})
  {
    var before, after := Expected(base, c, done), Expected(base, c, done + {k});
    assert after == before - {k};
    if last == Some(k) {
      assert before[k] == base[k];
      assert after[k := base[k]] == before;
    } else if last.Some? && last.value in done {
      var m := before[last.value := base[last.value]];
      assert last.value in m && m.Keys != {k};
      assert m - {k} == after[last.value := base[last.value]];
    }
  }

  lemma LastUnique(base: map<bytes, bytes>, f: bytes, g: bytes)
    requires IsLast(base, f) && f != g
    ensures !IsLast(base, g)
  {
    if IsLast(base, g) { LessAsymmetric(f, g); }
  }

  /** One update takes the map from what it should have reached to what it should reach next. */
  lemma ReachesNext(base: map<bytes, bytes>, c: KV.Contents, last: Option<bytes>, updates: seq<Item>, n: nat)
    requires Lists(updates, c) && c.Disjoint() && n < |updates| && Stranded(base, c, last)
    ensures ApplyToMap(Reached(base, c, last, Keys(updates[..n])), updates[n].key, c)
         == Reached(base, c, last, Keys(updates[..n + 1]))
  {
    var k, done := updates[n].key, Keys(updates[..n]);
    assert HasKey(updates, k);
    assert Keys(updates[..n + 1]) == done + {k} by { assert updates[..n + 1] == updates[..n] + [updates[n]]; }
    LessIrreflexive(k);
    DoneBelow(updates, n, k);
    if k in c.deleted {
      MeetsLastLeaf(base, c, updates, n);
      if last.Some? && k != last.value { LastUnique(base, last.value, k); }
      RemoveReaches(base, c, last, done, k);
    } else {
      SetReaches(base, c, last, done, k);
    }
  }

  /** The keys a commit adds. */
  ghost function Added(base: map<bytes, bytes>, c: KV.Contents): set<bytes> {
    c.storage.Keys - base.Keys
  }

  /** Where a commit has got to after some of the updates. */
  ghost predicate Progress(cur: Option<Tree>, o: Option<Tree>, updates: seq<Item>, c: KV.Contents, version: nat,
                           last: Option<bytes>, n: nat)
    requires n <= |updates|
  {
    && ValidRoot(cur, version)
    && Contents(cur) == Reached(Contents(o), c, last, Keys(updates[..n]))
    && RootSize(cur) <= RootSize(o) + |Keys(updates[..n]) * Added(Contents(o), c)|
  }

  lemma ProgressStarts(o: Option<Tree>, updates: seq<Item>, c: KV.Contents, version: nat, last: Option<bytes>)
    requires ValidRoot(o, version)
    ensures Progress(o, o, updates, c, version, last, 0)
  {
    assert updates[..0] == [];
    assert Expected(Contents(o), c, {}) == Contents(o);
  }

  /** A key that is still to be updated is there if it was there at the start. */
  lemma NotYetDone(base: map<bytes, bytes>, c: KV.Contents, last: Option<bytes>, updates: seq<Item>, n: nat)
    requires Sorted(updates) && n < |updates| && updates[n].key in base
    ensures updates[n].key in Reached(base, c, last, Keys(updates[..n]))
  {
    assert HasKey(updates, updates[n].key);
    DoneBelow(updates, n, updates[n].key);
    LessIrreflexive(updates[n].key);
  }

  lemma KeysGrow(updates: seq<Item>, n: nat, s: set<bytes>)
    requires Sorted(updates) && n < |updates|
    ensures |Keys(updates[..n + 1]) * s| == |Keys(updates[..n]) * s| + if updates[n].key in s then 1 else 0
  {
    var k, done := updates[n].key, Keys(updates[..n]);
    assert HasKey(updates, k);
    DoneBelow(updates, n, k);
    LessIrreflexive(k);
    assert Keys(updates[..n + 1]) == done + {k} by { assert updates[..n + 1] == updates[..n] + [updates[n]]; }
    assert (done + {k}) * s == done * s + ({k} * s);
    if k in s { assert {k} * s == {k}; } else { assert {k} * s == {}; }
  }

  lemma ProgressStep(cur: Option<Tree>, next: Option<Tree>, o: Option<Tree>, updates: seq<Item>, c: KV.Contents,
                     version: nat, last: Option<bytes>, n: nat)
    requires Lists(updates, c) && c.Disjoint() && n < |updates| && Stranded(Contents(o), c, last)
    requires Progress(cur, o, updates, c, version, last, n)
    requires ValidRoot(next, version) && Contents(next) == ApplyToMap(Contents(cur), updates[n].key, c)
    requires RootSize(next) <= RootSize(cur)
      + if updates[n].key in c.storage && updates[n].key !in Contents(cur) then 1 else 0
    ensures Progress(next, o, updates, c, version, last, n + 1)
  {
    ReachesNext(Contents(o), c, last, updates, n);
    KeysGrow(updates, n, Added(Contents(o), c));
    if updates[n].key in Contents(o) { NotYetDone(Contents(o), c, last, updates, n); }
  }

  lemma ApplyAllStep(o: Option<Tree>, updates: seq<Item>, c: KV.Contents, version: nat, n: nat)
    requires n < |updates|
    ensures ApplyAll(o, updates[..n + 1], c, version)
      == Apply(ApplyAll(o, updates[..n], c, version), updates[n].key, c, version)
  {
    assert updates[..n + 1][..n] == updates[..n];
  }

  lemma {:induction false} ApplyAllReaches(o: Option<Tree>, updates: seq<Item>, c: KV.Contents, version: nat,
                                           last: Option<bytes>, n: nat)
    requires Lists(updates, c) && c.Disjoint() && n <= |updates| && ValidRoot(o, version)
    requires Stranded(Contents(o), c, last)
    ensures Progress(ApplyAll(o, updates[..n], c, version), o, updates, c, version, last, n)
  {
    if n == 0 {
      ProgressStarts(o, updates, c, version, last);
    } else {
      ApplyAllReaches(o, updates, c, version, last, n - 1);
      var cur := ApplyAll(o, updates[..n - 1], c, version);
      ApplyContents(cur, updates[n - 1].key, c, version);
      ApplyAllStep(o, updates, c, version, n - 1);
      ProgressStep(cur, Apply(cur, updates[n - 1].key, c, version), o, updates, c, version, last, n - 1);
    }
  }

  lemma {:induction false} LastExists(keys: set<bytes>) returns (f: bytes)
    requires keys != {}
    ensures f in keys && forall b :: b in keys ==> AtMost(b, f)
    decreases keys
  {
    var k :| k in keys;
    if keys == {k} {
      f := k;
    } else {
      var g := LastExists(keys - {k});
      LessTotal(g, k);
      f := if Less(g, k) then k else g;
      forall b | b in keys ensures AtMost(b, f) {
        if b != k && Less(g, k) && b != g {
          assert b in keys - {k} && AtMost(b, g);
          LessTransitive(b, g, k);
        }
      }
    }
  }

  lemma CommitReaches(o: Option<Tree>, updates: seq<Item>, c: KV.Contents, version: nat, last: Option<bytes>)
    requires Lists(updates, c) && c.Disjoint() && ValidRoot(o, version) && Stranded(Contents(o), c, last)
    ensures ValidRoot(ApplyAll(o, updates, c, version), version)
    ensures Contents(ApplyAll(o, updates, c, version)) == Reached(Contents(o), c, last, Keys(updates))
  {
    assert updates[..|updates|] == updates;
    ApplyAllReaches(o, updates, c, version, last, |updates|);
  }

  /** When all updates are made the expected map is the overlaid one, and a stranded key makes it differ. */
  lemma ReachedInTheEnd(base: map<bytes, bytes>, updates: seq<Item>, c: KV.Contents, last: Option<bytes>)
    requires Lists(updates, c) && c.Disjoint() && Stranded(base, c, last)
    ensures Reached(base, c, last, Keys(updates))
      == if last.Some? then c.Over(base)[last.value := base[last.value]] else c.Over(base)
    ensures last.Some? ==> last.value !in c.Over(base)
  {
    forall k ensures k in Keys(updates) <==> HasKey(updates, k) {}
    assert Expected(base, c, Keys(updates)) == c.Over(base);
  }

  /** `m` is the map a commit makes of `base`: what the cache shows of it, unless the store is
      stranded, and then the last key too. */
  ghost predicate Commits(base: map<bytes, bytes>, m: map<bytes, bytes>, c: KV.Contents) {
    match Strands(base, c)
    case false => m == c.Over(base)
    case true => m != c.Over(base) && forall f {:trigger IsLast(base, f)} :: IsLast(base, f) ==> m == c.Over(base)[f := base[f]]
  }

  lemma OnlyLast(base: map<bytes, bytes>, m: map<bytes, bytes>, c: KV.Contents, last: Option<bytes>)
    requires Stranded(base, c, last)
    requires last.Some? ==> last.value !in c.Over(base)
    requires m == if last.Some? then c.Over(base)[last.value := base[last.value]] else c.Over(base)
    ensures Commits(base, m, c)
  {
    forall f | Strands(base, c) && IsLast(base, f) ensures f == last.value {
      if f != last.value { LastUnique(base, f, last.value); }
    }
    if last.Some? { assert last.value in m; }
  }

  lemma StrandedExists(base: map<bytes, bytes>, c: KV.Contents) returns (last: Option<bytes>)
    ensures Stranded(base, c, last)
  {
    if Strands(base, c) {
      var f := LastExists(base.Keys);
      last := Some(f);
    } else {
      last := None;
    }
  }

  /** After a commit the tree holds what the store showed through its cache, unless the cache deleted
      every key the store held and wrote only keys above them: then, and only then, the last of the
      deleted keys is still there, and nothing else differs. */
  lemma CommitExact(o: Option<Tree>, c: KV.Contents, version: nat)
    requires c.Disjoint() && ValidRoot(o, version)
    ensures ValidRoot(Committed(o, c, version), version)
    ensures Commits(Contents(o), Contents(Committed(o, c, version)), c)
  {
    var updates := Updates(c);
    var last := StrandedExists(Contents(o), c);
    InOrderSorts(c.storage.Keys + c.deleted);
    CommitReaches(o, updates, c, version, last);
    ReachedInTheEnd(Contents(o), updates, c, last);
    OnlyLast(Contents(o), Contents(Committed(o, c, version)), c, last);
  }

  /** Such stores exist: deleting the only key of a store and committing leaves the key there. */
  lemma StrandsOneKey(k: bytes, v: bytes, version: nat)
    ensures var o, c := Some(Leaf(k, v, version)), KV.Logged([KV.Delete(k)]);
      && ValidRoot(o, version) && c.Disjoint() && Strands(Contents(o), c)
      && k in Contents(Committed(o, c, version)) && k !in c.Over(Contents(o))
  {
    var o, log := Some(Leaf(k, v, version)), [KV.Delete(k)];
    var c := KV.Logged(log);
    assert log[..0] == [] && KV.Logged(log[..0]) == KV.EMPTY;
    SingleLeaf(o.value, k);
    assert Contents(o).Keys == {k} && IsLast(Contents(o), k);
    CommitExact(o, c, version);
  }

  ghost predicate TraceStep(trace: seq<Option<Tree>>, updates: seq<Item>, c: KV.Contents, version: nat, n: nat)
    requires |trace| == |updates| + 1 && n < |updates|
  {
    && trace[n + 1] == Apply(trace[n], updates[n].key, c, version)
    && (updates[n].key in c.storage || updates[n].key in c.deleted)
    && (updates[n].key in c.storage ==> HasRoom(trace[n], updates[n].key))
  }

  /** The trees a commit goes through, one for each update made. */
  ghost predicate Trace(trace: seq<Option<Tree>>, o: Option<Tree>, updates: seq<Item>, c: KV.Contents, version: nat) {
    && |trace| == |updates| + 1 && trace[0] == o
    && forall n {:trigger updates[n]} ::
         0 <= n < |updates| ==> TraceStep(trace, updates, c, version, n)
  }

  ghost function Last(trace: seq<Option<Tree>>): Option<Tree>
    requires trace != []
  {
    trace[|trace| - 1]
  }

  /** The trees a commit will go through. */
  ghost function TraceOf(o: Option<Tree>, c: KV.Contents, version: nat): seq<Option<Tree>> {
    var updates := Updates(c);
    seq(|updates| + 1, n requires 0 <= n <= |updates| => ApplyAll(o, updates[..n], c, version))
  }

  lemma StepOfTrace(o: Option<Tree>, c: KV.Contents, version: nat, n: nat)
    requires n < |Updates(c)|
    ensures var trace := TraceOf(o, c, version);
      trace[n] == ApplyAll(o, Updates(c)[..n], c, version) && trace[n + 1] == Apply(trace[n], Updates(c)[n].key, c, version)
  {
    ApplyAllStep(o, Updates(c), c, version, n);
  }

  lemma PartSize(a: set<bytes>, s: set<bytes>)
    ensures |a * s| <= |s|
  {
    assert s == a * s + (s - a);
  }

  lemma UpdateFits(o: Option<Tree>, updates: seq<Item>, c: KV.Contents, version: nat, n: nat)
    requires Lists(updates, c) && c.Disjoint() && n < |updates| && ValidRoot(o, version)
    requires RootSize(o) + |Added(Contents(o), c)| <= U32_MAX
    ensures updates[n].key in c.storage || updates[n].key in c.deleted
    ensures updates[n].key in c.storage ==> HasRoom(ApplyAll(o, updates[..n], c, version), updates[n].key)
  {
    assert HasKey(updates, updates[n].key);
    var last := StrandedExists(Contents(o), c);
    ApplyAllReaches(o, updates, c, version, last, n);
    if updates[n].key in Contents(o) { NotYetDone(Contents(o), c, last, updates, n); }
    KeysGrow(updates, n, Added(Contents(o), c));
    PartSize(Keys(updates[..n + 1]), Added(Contents(o), c));
    PartSize(Keys(updates[..n]), Added(Contents(o), c));
  }

  /** A commit can always be carried through: no update finds the tree full. */
  lemma TraceExists(o: Option<Tree>, c: KV.Contents, version: nat)
    requires c.Disjoint() && ValidRoot(o, version) && RootSize(o) + |Added(Contents(o), c)| <= U32_MAX
    ensures Trace(TraceOf(o, c, version), o, Updates(c), c, version)
  {
    InOrderSorts(c.storage.Keys + c.deleted);
    assert Updates(c)[..0] == [];
    forall n | 0 <= n < |Updates(c)| ensures TraceStep(TraceOf(o, c, version), Updates(c), c, version, n) {
      UpdateFits(o, Updates(c), c, version, n);
      StepOfTrace(o, c, version, n);
    }
  }

  lemma {:induction false} TraceIsApplyAll(trace: seq<Option<Tree>>, o: Option<Tree>, updates: seq<Item>, c: KV.Contents,
                                           version: nat, n: nat)
    requires Trace(trace, o, updates, c, version) && n <= |updates|
    ensures trace[n] == ApplyAll(o, updates[..n], c, version)
  {
    if n == 0 {
    } else {
      TraceIsApplyAll(trace, o, updates, c, version, n - 1);
      ApplyAllStep(o, updates, c, version, n - 1);
      assert TraceStep(trace, updates, c, version, n - 1);
    }
  }

  lemma TraceCommits(trace: seq<Option<Tree>>, o: Option<Tree>, c: KV.Contents, version: nat)
    requires Trace(trace, o, Updates(c), c, version) && c.Disjoint() && ValidRoot(o, version)
    ensures Commits(Contents(o), Contents(Last(trace)), c)
  {
    CommitExact(o, c, version);
    assert Updates(c)[..|Updates(c)|] == Updates(c);
    TraceIsApplyAll(trace, o, Updates(c), c, version, |Updates(c)|);
  }

  /** The trace is the only one. */
  lemma TraceUnique(trace: seq<Option<Tree>>, o: Option<Tree>, c: KV.Contents, version: nat)
    requires Trace(trace, o, Updates(c), c, version)
    ensures trace == TraceOf(o, c, version)
  {
    forall n | 0 <= n < |trace| ensures trace[n] == TraceOf(o, c, version)[n] {
      TraceIsApplyAll(trace, o, Updates(c), c, version, n);
    }
  }

  /** The updates in key order. */
  method Collect(c: KV.Contents) returns (updates: seq<Item>)
    ensures updates == Updates(c)
  {
    updates := [];
    ghost var keys := c.storage.Keys + c.deleted;
    var rest := c.storage.Keys + c.deleted;
    while rest != {}
      invariant rest <= keys && Sorted(updates)
      invariant ToMap(updates) == map k | k in keys - rest :: []
      decreases |rest|
    {
      var k :| k in rest;
      InsertIsUpdate(updates, k, []);
      updates := Insert(updates, k, []);
      rest := rest - {k};
    }
    InOrderSorts(keys);
    assert keys - rest == keys;
    SortedUnique(updates, InOrder(keys));
  }

  method UpdateKey(tree: IavlTree, k: bytes, c: KV.Contents, ghost next: Option<Tree>)
    requires tree.Valid() && tree.loadedVersion < U32_MAX && (k in c.storage || k in c.deleted)
    requires k in c.storage ==> HasRoom(tree.model, k)
    requires next == Apply(tree.model, k, c, tree.loadedVersion + 1)
    modifies tree`root, tree`model, Footprint(tree.root), tree.nodeDb`cache
    ensures tree.Valid() && tree.model == next
    ensures fresh(Footprint(tree.root) - old(Footprint(tree.root)))
  {
    if k in c.deleted {
      var _ := tree.Remove(k);
    } else {
      tree.Set(k, c.storage[k]);
    }
  }

  /** The loop of `commit`. */
  method UpdateTree(tree: IavlTree, updates: seq<Item>, c: KV.Contents, ghost trace: seq<Option<Tree>>,
                    ghost o: Option<Tree>, ghost version: nat)
    requires tree.Valid() && tree.loadedVersion < U32_MAX && tree.model == o && tree.loadedVersion + 1 == version
    requires Trace(trace, o, updates, c, version)
    modifies tree`root, tree`model, Footprint(tree.root), tree.nodeDb`cache
    ensures tree.Valid() && tree.model == trace[|updates|]
    ensures fresh(Footprint(tree.root) - old(Footprint(tree.root)))
  {
    for n := 0 to |updates|
      invariant tree.Valid() && tree.model == trace[n]
      invariant fresh(Footprint(tree.root) - old(Footprint(tree.root)))
    {
      assert TraceStep(trace, updates, c, version, n);
      UpdateKey(tree, updates[n].key, c, trace[n + 1]);
    }
  }

  /** The working tree `o` is committed under the version, or refused because the version exists and
      holds another tree. */
  ghost predicate SavedAs(committed: map<nat, Option<Tree>>, version: nat, o: Option<Tree>, r: Result<Hash, TreeError>,
                          committed': map<nat, Option<Tree>>) {
    if version in committed && committed[version] != o then r == Err(Overwrite) && committed' == committed
    else r == Ok(Persistence.RootHash(o)) && committed' == committed[version := o]
  }

  method UpdateAndSave(tree: IavlTree, updates: seq<Item>, c: KV.Contents, ghost trace: seq<Option<Tree>>,
                       ghost final: Option<Tree>, ghost inputs: set<bytes>) returns (r: Result<Hash, TreeError>)
    requires tree.Valid() && tree.loadedVersion < U32_MAX
    requires Trace(trace, tree.model, updates, c, tree.loadedVersion + 1) && Last(trace) == final
    requires CollisionFree(inputs) && HashInputs(tree.nodeDb.nodes + AsSet(final), inputs)
    modifies tree`root, tree`model, tree`loadedVersion, tree`versions
    modifies Footprint(tree.root), tree.nodeDb, tree.nodeDb.db.db
    ensures tree.Valid() && tree.model == final
    ensures SavedAs(old(tree.nodeDb.committed), old(tree.loadedVersion) + 1, final, r, tree.nodeDb.committed)
    ensures tree.loadedVersion == if r.Ok? then old(tree.loadedVersion) + 1 else old(tree.loadedVersion)
  {
    UpdateTree(tree, updates, c, trace, tree.model, tree.loadedVersion + 1);
    var saved, _ := tree.SaveVersion(inputs);
    r := if saved.Ok? then Ok(saved.value.0) else Err(saved.error);
  }

  /** `ApplicationKVBank::commit`. `trace` is the trees the loop goes through: there is one whenever no
      update finds the tree full, and it is then `TraceOf`. Where `save_version` refuses, the source
      aborts. */
  method Commit(tree: IavlTree, cache: KV.KVCache, ghost trace: seq<Option<Tree>>, ghost inputs: set<bytes>)
      returns (r: Result<Hash, TreeError>)
    requires tree.Valid() && cache.Value().Disjoint() && tree.loadedVersion < U32_MAX
    requires Trace(trace, tree.model, Updates(cache.Value()), cache.Value(), tree.loadedVersion + 1)
    requires CollisionFree(inputs) && HashInputs(tree.nodeDb.nodes + AsSet(Last(trace)), inputs)
    modifies cache, tree`root, tree`model, tree`loadedVersion, tree`versions
    modifies Footprint(tree.root), tree.nodeDb, tree.nodeDb.db.db
    ensures tree.Valid() && tree.model == Last(trace) && cache.Value() == KV.EMPTY
    ensures SavedAs(old(tree.nodeDb.committed), old(tree.loadedVersion) + 1, tree.model, r, tree.nodeDb.committed)
    ensures tree.loadedVersion == if r.Ok? then old(tree.loadedVersion) + 1 else old(tree.loadedVersion)
    ensures Commits(old(tree.Map()), tree.Map(), old(cache.Value()))
  {
    TraceCommits(trace, tree.model, cache.Value(), tree.loadedVersion + 1);
    var inserts, deletes := cache.Take();
    var c := KV.Contents(inserts, deletes);
    var updates := Collect(c);
    r := UpdateAndSave(tree, updates, c, trace, Last(trace), inputs);
  }
}
