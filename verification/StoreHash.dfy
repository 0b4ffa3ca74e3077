/** The commit hash over all stores: a Merkle root over the sorted (name, digest of hash) pairs. */
module StoreHash {
  import opened Bytes
  import opened Varint
  import opened Hashing
  import Merkle

  datatype StoreInfo = StoreInfo(name: bytes, hash: Hash)

  datatype Pair = Pair(key: bytes, value: bytes) {

    /** `Pair::to_bytes` */
    function ToBytes(): bytes {
      EncodeVar(|key|) + key + EncodeVar(|value|) + value
    }
  }

  /** `Pair::from` */
  function FromInfo(info: StoreInfo): Pair {
    Pair(info.name, Sha256(info.hash))
  }

  /** The derived order of pairs: by key, then by value. */
  predicate PairAtMost(p: Pair, q: Pair) {
    Less(p.key, q.key) || (p.key == q.key && AtMost(p.value, q.value))
  }

  lemma PairTotal(p: Pair, q: Pair)
    ensures PairAtMost(p, q) || PairAtMost(q, p)
    ensures PairAtMost(p, q) && PairAtMost(q, p) ==> p == q
  {
    LessTotal(p.key, q.key);
    LessTotal(p.value, q.value);
    if Less(p.key, q.key) { LessAsymmetric(p.key, q.key); }
    if Less(q.key, p.key) { LessAsymmetric(q.key, p.key); }
    if Less(p.value, q.value) { LessAsymmetric(p.value, q.value); }
  }

  lemma PairTransitive(p: Pair, q: Pair, r: Pair)
    requires PairAtMost(p, q) && PairAtMost(q, r)
    ensures PairAtMost(p, r)
  {
    if Less(p.key, q.key) && Less(q.key, r.key) { LessTransitive(p.key, q.key, r.key); }
    if Less(p.value, q.value) && Less(q.value, r.value) { LessTransitive(p.value, q.value, r.value); }
  }

  ghost predicate SortedPairs(s: seq<Pair>) {
    forall i, j :: 0 <= i < j < |s| ==> PairAtMost(s[i], s[j])
  }

  function InsertPair(s: seq<Pair>, p: Pair): seq<Pair> {
    if s == [] || PairAtMost(p, s[0]) then [p] + s else [s[0]] + InsertPair(s[1..], p)
  }

  /** `sort` on a vector of pairs. */
  function Sort(s: seq<Pair>): seq<Pair> {
    if s == [] then [] else InsertPair(Sort(s[1..]), s[0])
  }

  lemma {:induction false} InsertPairSorts(s: seq<Pair>, p: Pair)
    requires SortedPairs(s)
    ensures SortedPairs(InsertPair(s, p)) && multiset(InsertPair(s, p)) == multiset(s) + multiset{p}
  {
    var r := InsertPair(s, p);
    if s == [] {
    } else if PairAtMost(p, s[0]) {
      forall j | 0 <= j < |s| ensures PairAtMost(p, s[j]) {
        if j > 0 { PairTransitive(p, s[0], s[j]); }
      }
    } else {
      InsertPairSorts(s[1..], p);
      PairTotal(p, s[0]);
      var t := InsertPair(s[1..], p);
      assert s == [s[0]] + s[1..];
      forall j | 0 <= j < |t| ensures PairAtMost(s[0], t[j]) {
        assert t[j] in multiset(t);
        if t[j] != p { assert t[j] in s[1..]; }
      }
    }
  }

  lemma {:induction false} SortSorts(s: seq<Pair>)
    ensures SortedPairs(Sort(s)) && multiset(Sort(s)) == multiset(s)
  {
    if s == [] {
    } else {
      SortSorts(s[1..]);
      InsertPairSorts(Sort(s[1..]), s[0]);
      assert s == [s[0]] + s[1..];
    }
  }

  lemma LeastFirst(s: seq<Pair>, x: Pair)
    requires SortedPairs(s) && x in s
    ensures s[0] == x || PairAtMost(s[0], x)
  {
    var i :| 0 <= i < |s| && s[i] == x;
  }

  lemma RemoveAt<T>(s: seq<T>, i: nat)
    requires i < |s|
    ensures multiset(s) == multiset(s[..i] + s[i + 1..]) + multiset{s[i]}
  {
    assert s == s[..i] + [s[i]] + s[i + 1..];
  }

  lemma SameFirst(a: seq<Pair>, b: seq<Pair>)
    requires SortedPairs(a) && SortedPairs(b) && multiset(a) == multiset(b) && a != []
    ensures b != [] && a[0] == b[0]
  {
    assert a[0] in multiset(b) && b[0] in multiset(a);
    LeastFirst(a, b[0]);
    LeastFirst(b, a[0]);
    PairTotal(a[0], b[0]);
  }

  lemma DropFirst<T>(s: seq<T>)
    requires s != []
    ensures multiset(s[1..]) == multiset(s) - multiset{s[0]}
  {
    assert s == [s[0]] + s[1..];
  }

  lemma {:induction false} SortedPairsUnique(a: seq<Pair>, b: seq<Pair>)
    requires SortedPairs(a) && SortedPairs(b) && multiset(a) == multiset(b)
    ensures a == b
  {
    if a == [] {
      assert |multiset(b)| == 0;
    } else {
      SameFirst(a, b);
      DropFirst(a);
      DropFirst(b);
      SortedPairsUnique(a[1..], b[1..]);
      assert a == [a[0]] + a[1..] && b == [b[0]] + b[1..];
    }
  }

  function Pairs(infos: seq<StoreInfo>): seq<Pair> {
    seq(|infos|, i requires 0 <= i < |infos| => FromInfo(infos[i]))
  }

  function Encoded(pairs: seq<Pair>): seq<bytes> {
    seq(|pairs|, i requires 0 <= i < |pairs| => pairs[i].ToBytes())
  }

  /** The hash of a list of stores, as the source computes it. */
  function InfosHash(infos: seq<StoreInfo>): Hash {
    Merkle.RootHash(Encoded(Sort(Pairs(infos))))
  }

  /** `hash_store_infos`, which panics on an empty list. */
  method HashStoreInfos(infos: seq<StoreInfo>) returns (hash: Hash)
    requires infos != []
    ensures hash == InfosHash(infos)
  {
    var pairs := [];
    for i := 0 to |infos|
      invariant pairs == Pairs(infos[..i])
    {
      pairs := pairs + [FromInfo(infos[i])];
    }
    assert infos[..|infos|] == infos;
    pairs := Sort(pairs);
    var bytePairs := [];
    for i := 0 to |pairs|
      invariant bytePairs == Encoded(pairs[..i])
    {
      bytePairs := bytePairs + [pairs[i].ToBytes()];
    }
    assert pairs[..|pairs|] == pairs;
    hash := Merkle.RootHash(bytePairs);
  }

  lemma {:induction false} PairsSplit(infos: seq<StoreInfo>)
    requires infos != []
    ensures multiset(Pairs(infos)) == multiset{FromInfo(infos[0])} + multiset(Pairs(infos[1..]))
    ensures multiset(infos) == multiset{infos[0]} + multiset(infos[1..])
  {
    assert Pairs(infos) == [FromInfo(infos[0])] + Pairs(infos[1..]);
    assert infos == [infos[0]] + infos[1..];
  }

  lemma PairsRemoveAt(b: seq<StoreInfo>, i: nat)
    requires i < |b|
    ensures multiset(Pairs(b)) == multiset(Pairs(b[..i] + b[i + 1..])) + multiset{FromInfo(b[i])}
  {
    RemoveAt(Pairs(b), i);
    assert Pairs(b[..i] + b[i + 1..]) == Pairs(b)[..i] + Pairs(b)[i + 1..];
  }

  lemma {:induction false} PairsOfPermutation(a: seq<StoreInfo>, b: seq<StoreInfo>)
    requires multiset(a) == multiset(b)
    ensures multiset(Pairs(a)) == multiset(Pairs(b))
  {
    if a == [] {
      assert |multiset(b)| == 0;
      assert Pairs(a) == Pairs(b);
    } else {
      assert a[0] in multiset(b);
      var i :| 0 <= i < |b| && b[i] == a[0];
      var rest := b[..i] + b[i + 1..];
      PairsSplit(a);
      RemoveAt(b, i);
      DropFirst(a);
      assert multiset(rest) == multiset(b) - multiset{b[i]};
      PairsOfPermutation(a[1..], rest);
      PairsRemoveAt(b, i);
    }
  }

  /** The order in which the stores are listed makes no difference. */
  lemma OrderIrrelevant(a: seq<StoreInfo>, b: seq<StoreInfo>)
    requires multiset(a) == multiset(b)
    ensures InfosHash(a) == InfosHash(b)
  {
    PairsOfPermutation(a, b);
    SortSorts(Pairs(a));
    SortSorts(Pairs(b));
    SortedPairsUnique(Sort(Pairs(a)), Sort(Pairs(b)));
  }

  lemma ToBytesInjective(p: Pair, q: Pair)
    requires p.ToBytes() == q.ToBytes()
    ensures p == q
  {
    assert p.ToBytes() == EncodeBytes(p.key) + (EncodeBytes(p.value) + []);
    assert q.ToBytes() == EncodeBytes(q.key) + (EncodeBytes(q.value) + []);
    BytesPrefixFree(p.key, EncodeBytes(p.value) + [], q.key, EncodeBytes(q.value) + []);
    BytesPrefixFree(p.value, [], q.value, []);
  }

  lemma EncodedInjective(a: seq<Pair>, b: seq<Pair>)
    requires Encoded(a) == Encoded(b)
    ensures a == b
  {
    assert |a| == |Encoded(a)| == |Encoded(b)| == |b|;
    forall i | 0 <= i < |a| ensures a[i] == b[i] {
      assert Encoded(a)[i] == a[i].ToBytes() && Encoded(b)[i] == b[i].ToBytes();
      ToBytesInjective(a[i], b[i]);
    }
  }

  /** All inputs hashed for a list of stores. */
  ghost predicate HashInputs(infos: seq<StoreInfo>, inputs: set<bytes>) {
    && Merkle.Preimages(Encoded(Sort(Pairs(infos)))) <= inputs
    && forall info :: info in infos ==> info.hash in inputs
  }

  lemma {:induction false} CountPairs(infos: seq<StoreInfo>, x: StoreInfo, inputs: set<bytes>)
    requires CollisionFree(inputs) && x.hash in inputs && forall info :: info in infos ==> info.hash in inputs
    ensures multiset(Pairs(infos))[FromInfo(x)] == multiset(infos)[x]
  {
    if infos == [] {
    } else {
      PairsSplit(infos);
      CountPairs(infos[1..], x, inputs);
      assert infos[0] in infos;
      assert FromInfo(infos[0]) == FromInfo(x) <==> infos[0] == x;
    }
  }

  /** Barring collisions the commit hash determines which stores have which hashes. */
  lemma HashDetermines(a: seq<StoreInfo>, b: seq<StoreInfo>, inputs: set<bytes>)
    requires CollisionFree(inputs) && HashInputs(a, inputs) && HashInputs(b, inputs)
    requires InfosHash(a) == InfosHash(b)
    ensures multiset(a) == multiset(b)
  {
    Merkle.RootDetermines(Encoded(Sort(Pairs(a))), Encoded(Sort(Pairs(b))), inputs);
    EncodedInjective(Sort(Pairs(a)), Sort(Pairs(b)));
    SortSorts(Pairs(a));
    SortSorts(Pairs(b));
    forall x ensures multiset(a)[x] == multiset(b)[x] {
      if x in a || x in b {
        CountPairs(a, x, inputs);
        CountPairs(b, x, inputs);
      }
    }
  }

  /** The bytes that stand for a store. */
  ghost function StoreBytes(info: StoreInfo): bytes {
    EncodeVar(|info.name|) + info.name + [32] + Sha256(info.hash)
  }

  /** Stores in the order of their names, and under one name of the digests of their hashes. */
  ghost predicate InOrder(infos: seq<StoreInfo>) {
    forall i, j :: 0 <= i < j < |infos| ==>
      Less(infos[i].name, infos[j].name)
      || (infos[i].name == infos[j].name && AtMost(Sha256(infos[i].hash), Sha256(infos[j].hash)))
  }

  /** What is hashed: the Merkle root of the stores' bytes, in order. */
  lemma InfosHashForm(infos: seq<StoreInfo>)
    requires InOrder(infos)
    ensures InfosHash(infos) == Merkle.RootHash(seq(|infos|, i requires 0 <= i < |infos| => StoreBytes(infos[i])))
  {
    var pairs := Pairs(infos);
    SortSorts(pairs);
    SortedPairsUnique(Sort(pairs), pairs);
    assert Encoded(pairs) == seq(|infos|, i requires 0 <= i < |infos| => StoreBytes(infos[i]));
  }

  /** One store hashes to the leaf of its bytes. */
  lemma OneStore(name: bytes, hash: Hash)
    ensures InfosHash([StoreInfo(name, hash)]) == Sha256([0] + (EncodeVar(|name|) + name + [32] + Sha256(hash)))
  {
    InfosHashForm([StoreInfo(name, hash)]);
  }

  /** Two stores, listed either way, hash to the inner node over the leaf of the smaller name and the
      leaf of the larger. */
  lemma TwoStores(x: StoreInfo, y: StoreInfo)
    requires Less(x.name, y.name)
    ensures InfosHash([x, y]) == InfosHash([y, x])
    ensures InfosHash([x, y])
      == Sha256([1] + Sha256([0] + (EncodeVar(|x.name|) + x.name + [32] + Sha256(x.hash)))
                    + Sha256([0] + (EncodeVar(|y.name|) + y.name + [32] + Sha256(y.hash))))
  {
    OrderIrrelevant([x, y], [y, x]);
    InfosHashForm([x, y]);
    var leaves := [StoreBytes(x), StoreBytes(y)];
    assert seq(|[x, y]|, i requires 0 <= i < |[x, y]| => StoreBytes([x, y][i])) == leaves;
    assert Merkle.SplitPoint(2) == 1;
    assert leaves[..1] == [leaves[0]] && leaves[1..] == [leaves[1]];
  }
}
