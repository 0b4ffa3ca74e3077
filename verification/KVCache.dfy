/** The write cache of a store and the flush of block caches into the stores. */
module KVCache {
  import opened Bytes
  import opened Options

  datatype Op = Set(key: bytes, value: bytes) | Delete(key: bytes)

  /** What a log of operations makes of a map. */
  function Replay(base: map<bytes, bytes>, log: seq<Op>): map<bytes, bytes> {
    if log == [] then base
    else
      var before := Replay(base, log[..|log| - 1]);
      match log[|log| - 1]
      case Set(k, v) => before[k := v]
      case Delete(k) => before - {k}
  }

  /** The contents of a cache: keys written and keys deleted. */
  datatype Contents = Contents(storage: map<bytes, bytes>, deleted: set<bytes>) {

    ghost predicate Disjoint() {
      storage.Keys !! deleted
    }

    /** A map seen through the cache. */
    function Over(base: map<bytes, bytes>): map<bytes, bytes> {
      (base - deleted) + storage
    }

    function After(op: Op): Contents {
      match op
      case Set(k, v) => Contents(storage[k := v], deleted - {k})
      case Delete(k) => Contents(storage - {k}, deleted + {k})
    }
  }

  const EMPTY := Contents(map[], {})

  /** The contents a log leaves in an empty cache. */
  function Logged(log: seq<Op>): Contents {
    if log == [] then EMPTY else Logged(log[..|log| - 1]).After(log[|log| - 1])
  }

  /** After any operations on an empty cache no key is both written and deleted, and a map seen
      through the cache is the map with the operations replayed on it. */
  lemma {:induction false} CacheIsReplay(log: seq<Op>, base: map<bytes, bytes>)
    ensures Logged(log).Disjoint()
    ensures Logged(log).Over(base) == Replay(base, log)
  {
    if log == [] {
    } else {
      CacheIsReplay(log[..|log| - 1], base);
    }
  }

  class KVCache {
    var storage: map<bytes, bytes>
    var deleted: set<bytes>

    ghost function Value(): Contents
      reads this
    {
      Contents(storage, deleted)
    }

    constructor ()
      ensures Value() == EMPTY
    {
      storage, deleted := map[], {};
    }

    /** `get`: `Err` for a key deleted in the cache. */
    method Get(k: bytes) returns (r: Result<Option<bytes>, ()>)
      ensures r == if k in deleted then Err(()) else Ok(Lookup(storage, k))
    {
      if k in deleted { return Err(()); }
      r := Ok(if k in storage then Some(storage[k]) else None);
    }

    method Delete(k: bytes) returns (r: Option<bytes>)
      modifies this
      ensures Value() == old(Value()).After(Op.Delete(k))
      ensures r == Lookup(old(storage), k)
    {
      deleted := deleted + {k};
      r := if k in storage then Some(storage[k]) else None;
      storage := storage - {k};
    }

    method Set(k: bytes, v: bytes)
      modifies this
      ensures Value() == old(Value()).After(Op.Set(k, v))
    {
      deleted := deleted - {k};
      storage := storage[k := v];
    }

    /** `take`: hands over the contents and leaves the cache empty. */
    method Take() returns (inserts: map<bytes, bytes>, deletes: set<bytes>)
      modifies this
      ensures Contents(inserts, deletes) == old(Value()) && Value() == EMPTY
    {
      inserts, deletes := storage, deleted;
      storage, deleted := map[], {};
    }
  }

  /** Reading through a store's bank, the cache in front of what is persisted, reads the overlay. */
  method BankGet(persistent: map<bytes, bytes>, cache: KVCache, k: bytes) returns (r: Option<bytes>)
    ensures r == if k in cache.deleted then None else Lookup(cache.Value().Over(persistent), k)
    ensures cache.Value().Disjoint() ==> r == Lookup(cache.Value().Over(persistent), k)
  {
    var cached := cache.Get(k);
    if cached.Err? { return None; }
    r := if cached.value.Some? then cached.value else Lookup(persistent, k);
  }

  /** The contents after flushing `block` into `store`. */
  function Flushed(store: Contents, block: Contents): Contents {
    Contents((store.storage - block.deleted) + block.storage, (store.deleted + block.deleted) - block.storage.Keys)
  }

  lemma MinusMore(m: map<bytes, bytes>, done: set<bytes>, k: bytes)
    ensures (m - done) - {k} == m - (done + {k})
  {
  }

  lemma PlusMore(m: map<bytes, bytes>, d: set<bytes>, inserts: map<bytes, bytes>, rest: set<bytes>, k: bytes)
    requires k in rest && k in inserts
    ensures (m + (inserts - rest))[k := inserts[k]] == m + (inserts - (rest - {k}))
    ensures (d - (inserts - rest).Keys) - {k} == d - (inserts - (rest - {k})).Keys
  {
  }

  lemma PlusEnds(m: map<bytes, bytes>, d: set<bytes>, inserts: map<bytes, bytes>)
    ensures m + (inserts - inserts.Keys) == m && d - (inserts - inserts.Keys).Keys == d
    ensures m + (inserts - {}) == m + inserts && d - (inserts - {}).Keys == d - inserts.Keys
  {
  }

  method FlushDeletes(target: KVCache, deletes: set<bytes>)
    modifies target
    ensures target.storage == old(target.storage) - deletes && target.deleted == old(target.deleted) + deletes
  {
    ghost var storage, deleted := target.storage, target.deleted;
    var rest := deletes;
    ghost var done: set<bytes> := {};
    assert storage - done == storage && deleted + done == deleted;
    while rest != {}
      invariant done + rest == deletes
      invariant target.storage == storage - done && target.deleted == deleted + done
      decreases |rest|
    {
      var k :| k in rest;
      MinusMore(storage, done, k);
      var _ := target.Delete(k);
      rest, done := rest - {k}, done + {k};
    }
  }

  method FlushInserts(target: KVCache, inserts: map<bytes, bytes>)
    modifies target
    ensures target.storage == old(target.storage) + inserts && target.deleted == old(target.deleted) - inserts.Keys
  {
    ghost var storage, deleted := target.storage, target.deleted;
    var rest := inserts.Keys;
    PlusEnds(storage, deleted, inserts);
    while rest != {}
      invariant rest <= inserts.Keys
      invariant target.storage == storage + (inserts - rest) && target.deleted == deleted - (inserts - rest).Keys
      decreases |rest|
    {
      var k :| k in rest;
      PlusMore(storage, deleted, inserts, rest, k);
      target.Set(k, inserts[k]);
      rest := rest - {k};
    }
  }

  /** The flush of one store in `take_block_cache`: all deletes, then all inserts. */
  method FlushStore(block: KVCache, store: KVCache)
    requires block != store
    modifies block, store
    ensures block.Value() == EMPTY && store.Value() == Flushed(old(store.Value()), old(block.Value()))
  {
    var inserts, deletes := block.Take();
    FlushDeletes(store, deletes);
    FlushInserts(store, inserts);
  }

  /** Key by key, whatever the two caches hold: what the block wrote is written, what it only deleted is
      deleted, and the rest is as it was. */
  lemma FlushedAt(store: Contents, block: Contents, k: bytes)
    ensures var after := Flushed(store, block);
      if k in block.storage then Lookup(after.storage, k) == Some(block.storage[k]) && k !in after.deleted
      else if k in block.deleted then k !in after.storage && k in after.deleted
      else Lookup(after.storage, k) == Lookup(store.storage, k) && (k in after.deleted <==> k in store.deleted)
  {
  }

  lemma FlushOverlays(base: map<bytes, bytes>, store: Contents, block: Contents)
    requires store.Disjoint() && block.Disjoint()
    ensures Flushed(store, block).Disjoint() && Flushed(store, block).Over(base) == block.Over(store.Over(base))
  {
  }

  /** Whatever a store persists, after the flush it shows what the block's log makes of what it showed
      before. */
  lemma FlushIsReplay(base: map<bytes, bytes>, store: Contents, log: seq<Op>)
    requires store.Disjoint()
    ensures Flushed(store, Logged(log)).Disjoint()
    ensures Flushed(store, Logged(log)).Over(base) == Replay(store.Over(base), log)
  {
    var block := Logged(log);
    CacheIsReplay(log, store.Over(base));
    FlushOverlays(base, store, block);
  }

  /** `take_block_cache`: every store's block cache is emptied and flushed into the cache of the same
      store. Both lists are indexed by store. */
  method TakeBlockCache(blocks: seq<KVCache>, stores: seq<KVCache>)
    requires |blocks| == |stores|
    requires forall i, j :: 0 <= i < j < |blocks| ==> blocks[i] != blocks[j]
    requires forall i, j :: 0 <= i < j < |stores| ==> stores[i] != stores[j]
    requires forall i, j :: 0 <= i < |blocks| && 0 <= j < |stores| ==> blocks[i] != stores[j]
    modifies set i | 0 <= i < |blocks| :: blocks[i]
    modifies set i | 0 <= i < |stores| :: stores[i]
    ensures forall i :: 0 <= i < |blocks| ==> blocks[i].Value() == EMPTY
    ensures forall i :: 0 <= i < |blocks| ==>
      stores[i].Value() == Flushed(old(stores[i].Value()), old(blocks[i].Value()))
  {
    for n := 0 to |blocks|
      invariant forall i :: n <= i < |blocks| ==>
        blocks[i].Value() == old(blocks[i].Value()) && stores[i].Value() == old(stores[i].Value())
      invariant forall i :: 0 <= i < n ==> blocks[i].Value() == EMPTY
      invariant forall i :: 0 <= i < n ==>
        stores[i].Value() == Flushed(old(stores[i].Value()), old(blocks[i].Value()))
    {
      FlushStore(blocks[n], stores[n]);
    }
  }
}
