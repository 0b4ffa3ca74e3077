/** What the hash over all stores, the one a block commits to, says about their contents. */
module AppHash {
  import opened Bytes
  import opened Options
  import opened Hashing
  import opened AvlTree
  import opened NodeCodec
  import opened Persistence
  import opened Varint
  import Merkle
  import StoreHash

  /** A store under its name, with the tree it has saved. */
  datatype Store = Store(name: bytes, tree: Option<Tree>)

  function Info(s: Store): StoreHash.StoreInfo {
    StoreHash.StoreInfo(s.name, RootHash(s.tree))
  }

  function Infos(stores: seq<Store>): seq<StoreHash.StoreInfo> {
    seq(|stores|, i requires 0 <= i < |stores| => Info(stores[i]))
  }

  /** The hash that `commit` returns for the stores, which it goes through in no particular order. */
  function AppHash(stores: seq<Store>): Hash {
    StoreHash.InfosHash(Infos(stores))
  }

  /** A tree that can be saved, with what is hashed for it among the inputs. */
  ghost predicate Hashed(s: Store, inputs: set<bytes>) {
    && ValidRoot(s.tree, U32_MAX) && RootSize(s.tree) <= U32_MAX
    && (s.tree.Some? ==> Preimages(s.tree.value) <= inputs)
  }

  /** Everything hashed for the stores, down to the leaves of their trees, is among the inputs. */
  ghost predicate AllHashed(stores: seq<Store>, inputs: set<bytes>) {
    && [] in inputs && StoreHash.HashInputs(Infos(stores), inputs)
    && forall s :: s in stores ==> Hashed(s, inputs)
  }

  lemma SameInfo(x: Store, y: Store, inputs: set<bytes>)
    requires CollisionFree(inputs) && [] in inputs && Hashed(x, inputs) && Hashed(y, inputs)
    ensures Info(x) == Info(y) <==> x == y
  {
    if x.tree.Some? {
      NeverEmptyHash(x.tree.value, inputs);
      ValidTreeFits(x.tree.value, U32_MAX);
    }
    if y.tree.Some? {
      NeverEmptyHash(y.tree.value, inputs);
      ValidTreeFits(y.tree.value, U32_MAX);
    }
    if x.tree.Some? && y.tree.Some? && Info(x) == Info(y) {
      HashDetermines(x.tree.value, y.tree.value, inputs);
    }
  }

  lemma InfosSplit(stores: seq<Store>)
    requires stores != []
    ensures multiset(Infos(stores)) == multiset{Info(stores[0])} + multiset(Infos(stores[1..]))
    ensures multiset(stores) == multiset{stores[0]} + multiset(stores[1..])
  {
    assert Infos(stores) == [Info(stores[0])] + Infos(stores[1..]);
    assert stores == [stores[0]] + stores[1..];
  }

  lemma {:induction false} CountInfos(stores: seq<Store>, x: Store, inputs: set<bytes>)
    requires CollisionFree(inputs) && [] in inputs && Hashed(x, inputs)
    requires forall s :: s in stores ==> Hashed(s, inputs)
    ensures multiset(Infos(stores))[Info(x)] == multiset(stores)[x]
  {
    if stores == [] {
    } else {
      InfosSplit(stores);
      CountInfos(stores[1..], x, inputs);
      assert stores[0] in stores;
      SameInfo(stores[0], x, inputs);
    }
  }

  lemma {:induction false} InfoOf(stores: seq<Store>, i: StoreHash.StoreInfo)
    ensures i in Infos(stores) <==> exists s :: s in stores && Info(s) == i
  {
    if s :| s in stores && Info(s) == i {
      var n :| 0 <= n < |stores| && stores[n] == s;
      assert Infos(stores)[n] == i;
    }
  }

  lemma InfosOfPermutation(a: seq<Store>, b: seq<Store>, inputs: set<bytes>)
    requires CollisionFree(inputs) && AllHashed(a, inputs) && AllHashed(b, inputs) && multiset(a) == multiset(b)
    ensures multiset(Infos(a)) == multiset(Infos(b))
  {
    forall i ensures multiset(Infos(a))[i] == multiset(Infos(b))[i] {
      InfoOf(a, i);
      InfoOf(b, i);
      if s :| (s in a || s in b) && Info(s) == i {
        CountInfos(a, s, inputs);
        CountInfos(b, s, inputs);
      }
    }
  }

  /** Barring collisions the hash says exactly which stores there are and which tree each has saved:
      two lists of stores have one hash if and only if they are the same up to order. */
  lemma AppHashExact(a: seq<Store>, b: seq<Store>, inputs: set<bytes>)
    requires CollisionFree(inputs) && AllHashed(a, inputs) && AllHashed(b, inputs)
    ensures AppHash(a) == AppHash(b) <==> multiset(a) == multiset(b)
  {
    if AppHash(a) == AppHash(b) {
      StoreHash.HashDetermines(Infos(a), Infos(b), inputs);
      forall x ensures multiset(a)[x] == multiset(b)[x] {
        if x in a || x in b {
          CountInfos(a, x, inputs);
          CountInfos(b, x, inputs);
        }
      }
    }
    if multiset(a) == multiset(b) {
      InfosOfPermutation(a, b, inputs);
      StoreHash.OrderIrrelevant(Infos(a), Infos(b));
    }
  }

  ghost predicate Distinct(stores: seq<Store>) {
    forall i, j :: 0 <= i < j < |stores| ==> stores[i].name != stores[j].name
  }

  /** So one hash means the same names and, in every store, the same map. */
  lemma SameHashSameMaps(a: seq<Store>, b: seq<Store>, inputs: set<bytes>, x: Store)
    requires CollisionFree(inputs) && AllHashed(a, inputs) && AllHashed(b, inputs)
    requires Distinct(b) && AppHash(a) == AppHash(b) && x in a
    ensures exists y :: y in b && y.name == x.name
    ensures forall y :: y in b && y.name == x.name ==> y.tree == x.tree && Contents(y.tree) == Contents(x.tree)
  {
    AppHashExact(a, b, inputs);
    assert x in multiset(a) && x in multiset(b);
  }

  /** One store hashes to the leaf of its name and the digest of its tree's root hash. */
  lemma OneStore(name: bytes, tree: Option<Tree>)
    ensures AppHash([Store(name, tree)]) == Sha256([0] + (EncodeVar(|name|) + name + [32] + Sha256(RootHash(tree))))
  {
    assert Infos([Store(name, tree)]) == [StoreHash.StoreInfo(name, RootHash(tree))];
    StoreHash.OneStore(name, RootHash(tree));
  }

  /** Stores listed in the order of their names hash to the Merkle root over such leaves. */
  lemma AppHashForm(stores: seq<Store>)
    requires forall i, j :: 0 <= i < j < |stores| ==> Less(stores[i].name, stores[j].name)
    ensures AppHash(stores) == Merkle.RootHash(seq(|stores|, i requires 0 <= i < |stores| =>
      EncodeVar(|stores[i].name|) + stores[i].name + [32] + Sha256(RootHash(stores[i].tree))))
  {
    StoreHash.InfosHashForm(Infos(stores));
    assert seq(|stores|, i requires 0 <= i < |stores| => StoreHash.StoreBytes(Infos(stores)[i]))
        == seq(|stores|, i requires 0 <= i < |stores| =>
             EncodeVar(|stores[i].name|) + stores[i].name + [32] + Sha256(RootHash(stores[i].tree)));
  }
}
