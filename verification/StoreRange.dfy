/** Iterating over a store whose cache holds writes not yet committed. */
module StoreRange {
  import opened Bytes
  import opened SortedItems
  import KV = KVCache
  import MR = MergedRange
  import opened Options
  import opened IavlTree
  import opened TreeRange

  lemma PartGrows(m: map<bytes, bytes>, bounds: Bounds, rest: set<bytes>, k: bytes)
    requires k in rest && k in m
    ensures Part(m - (rest - {k}), bounds) == if bounds.Hold(k) then Part(m - rest, bounds)[k := m[k]] else Part(m - rest, bounds)
  {
  }

  /** `range` on the cache's own map. */
  method CachedRange(storage: map<bytes, bytes>, bounds: Bounds) returns (items: seq<Item>)
    ensures Sorted(items) && ToMap(items) == Part(storage, bounds)
  {
    items := [];
    var rest := storage.Keys;
    assert storage - storage.Keys == map[];
    while rest != {}
      invariant rest <= storage.Keys && Sorted(items) && ToMap(items) == Part(storage - rest, bounds)
      decreases |rest|
    {
      var k :| k in rest;
      PartGrows(storage, bounds, rest, k);
      if bounds.Hold(k) {
        InsertIsUpdate(items, k, storage[k]);
        items := Insert(items, k, storage[k]);
      }
      rest := rest - {k};
    }
    assert storage - {} == storage;
  }

  /** What is persisted, without the keys deleted in the cache. */
  function Kept(persisted: seq<Item>, deleted: set<bytes>): seq<Item> {
    if persisted == [] then []
    else (if persisted[0].key in deleted then [] else [persisted[0]]) + Kept(persisted[1..], deleted)
  }

  lemma MinusOfUpdate(m: map<bytes, bytes>, k: bytes, v: bytes, deleted: set<bytes>)
    ensures m[k := v] - deleted == if k in deleted then m - deleted else (m - deleted)[k := v]
  {
  }

  lemma {:induction false} KeptIsMinus(persisted: seq<Item>, deleted: set<bytes>)
    ensures ToMap(Kept(persisted, deleted)) == ToMap(persisted) - deleted
  {
    if persisted == [] {
    } else {
      var x, rest := persisted[0], Kept(persisted[1..], deleted);
      KeptIsMinus(persisted[1..], deleted);
      MinusOfUpdate(ToMap(persisted[1..]), x.key, x.value, deleted);
      assert ([x] + rest)[1..] == rest && [] + rest == rest;
    }
  }

  lemma {:induction false} KeptSorted(persisted: seq<Item>, deleted: set<bytes>)
    requires Sorted(persisted)
    ensures Sorted(Kept(persisted, deleted))
    ensures forall x :: x in Kept(persisted, deleted) ==> x in persisted
  {
    if persisted == [] {
    } else {
      KeptSorted(persisted[1..], deleted);
      var rest := Kept(persisted[1..], deleted);
      forall i | 0 <= i < |rest| ensures Less(persisted[0].key, rest[i].key) {
        assert rest[i] in persisted[1..];
        var j :| 0 <= j < |persisted[1..]| && persisted[1..][j] == rest[i];
        assert persisted[j + 1] == rest[i];
      }
    }
  }

  lemma OverPart(base: map<bytes, bytes>, c: KV.Contents, bounds: Bounds)
    ensures (Part(base, bounds) - c.deleted) + Part(c.storage, bounds) == Part(c.Over(base), bounds)
  {
  }

  /** What `BTreeMap::range` does not panic on. */
  predicate Proper(b: Bounds) {
    (b.start != Unlimited && b.end != Unlimited) ==>
      AtMost(b.start.key, b.end.key) && !(b.start.Excluded? && b.start == b.end)
  }

  lemma FirstOff(items: seq<Item>, s: seq<Item>, x: Item, rest: seq<Item>)
    requires (Some(x), rest) == MR.Take(s, true)
    ensures items + s == items + [x] + rest && |rest| < |s|
  {
  }

  method Drain(range: TreeRange) returns (items: seq<Item>)
    requires range.Valid()
    modifies range`delayed, range`trees, range`Repr, range.nodeDb`cache
    ensures range.Valid() && items == old(range.Remaining())
  {
    items := [];
    ghost var all := range.Remaining();
    while true
      invariant range.Valid() && all == items + range.Remaining()
      decreases |range.Remaining()|
    {
      ghost var before := range.Remaining();
      var next := range.Next();
      if next.None? { return; }
      FirstOff(items, before, next.value, range.Remaining());
      items := items + [next.value];
    }
  }

  /** Everything that a tree has between the bounds. */
  method Persisted(tree: IavlTree, bounds: Bounds) returns (items: seq<Item>)
    requires tree.Valid()
    modifies tree.nodeDb`cache
    ensures tree.Valid() && Sorted(items) && ToMap(items) == Part(tree.Map(), bounds)
  {
    var range := RangeOf(tree.root, bounds, tree.nodeDb, tree.model);
    items := Drain(range);
  }

  /** `range`: what comes out, from either end, is what the store shows through its cache, in key
      order. */
  method Range(cache: KV.KVCache, tree: IavlTree, bounds: Bounds) returns (r: MR.MergedRange)
    requires tree.Valid() && Proper(bounds)
    modifies tree.nodeDb`cache
    ensures tree.Valid() && fresh(r) && r.Valid() && Sorted(r.Remaining())
    ensures ToMap(r.Remaining()) == Part(cache.Value().Over(tree.Map()), bounds)
  {
    var cached := CachedRange(cache.storage, bounds);
    var persisted := Persisted(tree, bounds);
    var kept := Kept(persisted, cache.deleted);
    KeptSorted(persisted, cache.deleted);
    KeptIsMinus(persisted, cache.deleted);
    MR.UnionIsOverlay(cached, kept);
    OverPart(tree.Map(), cache.Value(), bounds);
    r := new MR.MergedRange.Merge(cached, kept);
  }
}
