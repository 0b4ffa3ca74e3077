/** The Merkle root over the stores, and the Merkle Tree Hash of section 2.1 of RFC 6962. */
module Merkle {
  import opened Bytes
  import opened Hashing

  /** `leaf_hash` */
  function LeafHash(leaf: bytes): Hash {
    Sha256([0] + leaf)
  }

  /** `inner_hash` */
  function InnerHash(left: bytes, right: bytes): Hash {
    Sha256([1] + left + right)
  }

  function Pow2(e: nat): nat {
    if e == 0 then 1 else 2 * Pow2(e - 1)
  }

  /** `usize::ilog2` */
  function Log2(n: nat): nat
    requires n > 0
  {
    if n == 1 then 0 else 1 + Log2(n / 2)
  }

  lemma {:induction false} Log2Bounds(n: nat)
    requires n > 0
    ensures Pow2(Log2(n)) <= n < 2 * Pow2(Log2(n))
  {
    if n > 1 { Log2Bounds(n / 2); }
  }

  lemma {:induction false} Pow2Positive(e: nat)
    ensures Pow2(e) >= 1
  {
    if e > 0 { Pow2Positive(e - 1); }
  }

  /** `get_split_point`, for the lengths it does not panic on. */
  function SplitPoint(length: nat): (k: nat)
    requires length > 0
    ensures length > 1 ==> 0 < k < length
  {
    var k := Pow2(Log2(length));
    Log2Bounds(length);
    assert length > 1 ==> k > 1 by { if length > 1 { Pow2Positive(Log2(length) - 1); } }
    if k == length then k / 2 else k
  }

  /** `root_hash` */
  function RootHash(items: seq<bytes>): Hash {
    if |items| == 0 then EmptyHash()
    else if |items| == 1 then LeafHash(items[0])
    else
      var k := SplitPoint(|items|);
      InnerHash(RootHash(items[..k]), RootHash(items[k..]))
  }

  // ---------- section 2.1 of RFC 6962 ----------

  ghost predicate IsPow2(k: nat) {
    exists e: nat :: k == Pow2(e)
  }

  /** `h` is the Merkle Tree Hash of the list: split at the power of two k with k < n <= 2k. */
  ghost predicate IsMth(d: seq<bytes>, h: Hash)
    decreases |d|
  {
    if |d| == 0 then h == Sha256([])
    else if |d| == 1 then h == Sha256([0] + d[0])
    else exists k: nat :: IsPow2(k) && 0 < k < |d| <= 2 * k && MthSplit(d, k, h)
  }

  ghost predicate MthSplit(d: seq<bytes>, k: nat, h: Hash)
    requires 0 < k < |d|
    decreases |d|, 0
  {
    exists l: Hash, r: Hash :: IsMth(d[..k], l) && IsMth(d[k..], r) && h == Sha256([1] + l + r)
  }

  lemma {:induction false} Pow2Grows(e: nat, f: nat)
    requires e <= f
    ensures Pow2(e) <= Pow2(f)
    decreases f
  {
    if e < f { Pow2Grows(e, f - 1); Pow2Positive(f - 1); }
  }

  /** The split point is the largest power of two below the length. */
  lemma SplitIsLargestPow2(n: nat)
    requires n > 1
    ensures var k := SplitPoint(n);
      IsPow2(k) && k < n <= 2 * k && forall p: nat :: IsPow2(p) && p < n ==> p <= k
  {
    Log2Bounds(n);
    var e := Log2(n);
    var k := SplitPoint(n);
    if Pow2(e) == n { assert k == Pow2(e - 1); } else { assert k == Pow2(e); }
    assert IsPow2(k);
    forall p: nat | IsPow2(p) && p < n ensures p <= k {
      var f: nat :| p == Pow2(f);
      var g: nat :| k == Pow2(g);
      if f > g { Pow2Grows(g + 1, f); }
      else { Pow2Grows(f, g); }
    }
  }

  lemma SplitUnique(n: nat, k: nat)
    requires n > 1 && IsPow2(k) && 0 < k < n <= 2 * k
    ensures k == SplitPoint(n)
  {
    SplitIsLargestPow2(n);
    var m := SplitPoint(n);
    var e: nat :| k == Pow2(e);
    var f: nat :| m == Pow2(f);
    if e < f { Pow2Grows(e + 1, f); } else { Pow2Grows(f, e); }
  }

  lemma SplitDecides(d: seq<bytes>, k: nat, h: Hash, l: Hash, r: Hash)
    requires 0 < k < |d|
    requires forall x: Hash :: IsMth(d[..k], x) <==> x == l
    requires forall x: Hash :: IsMth(d[k..], x) <==> x == r
    ensures MthSplit(d, k, h) <==> h == Sha256([1] + l + r)
  {
    assert IsMth(d[..k], l) && IsMth(d[k..], r);
  }

  lemma SplitIsOnly(d: seq<bytes>, k: nat, h: Hash)
    requires |d| > 1 && k == SplitPoint(|d|)
    ensures IsMth(d, h) <==> MthSplit(d, k, h)
  {
    SplitIsLargestPow2(|d|);
    forall k': nat | IsPow2(k') && 0 < k' < |d| <= 2 * k' ensures k' == k { SplitUnique(|d|, k'); }
  }

  /** `root_hash` computes the Merkle Tree Hash, and nothing else is one. */
  lemma {:induction false} RootHashIsMth(items: seq<bytes>, h: Hash)
    ensures IsMth(items, h) <==> h == RootHash(items)
    decreases |items|
  {
    var n := |items|;
    if n > 1 {
      var k := SplitPoint(n);
      var left, right := items[..k], items[k..];
      forall x: Hash ensures IsMth(left, x) <==> x == RootHash(left) { RootHashIsMth(left, x); }
      forall x: Hash ensures IsMth(right, x) <==> x == RootHash(right) { RootHashIsMth(right, x); }
      SplitDecides(items, k, h, RootHash(left), RootHash(right));
      SplitIsOnly(items, k, h);
    }
  }

  // ---------- the root determines the list ----------

  /** Everything hashed for a list. */
  ghost function Preimages(items: seq<bytes>): set<bytes>
    decreases |items|
  {
    if |items| == 0 then {[]}
    else if |items| == 1 then {[0] + items[0]}
    else
      var k := SplitPoint(|items|);
      {[1] + RootHash(items[..k]) + RootHash(items[k..])} + Preimages(items[..k]) + Preimages(items[k..])
  }

  lemma InnerPreimage(l: Hash, r: Hash, l': Hash, r': Hash)
    requires [1] + l + r == [1] + l' + r'
    ensures l == l' && r == r'
  {
    var x, y := [1] + l + r, [1] + l' + r';
    assert x[1..33] == l && y[1..33] == l';
    assert x[33..] == r && y[33..] == r';
  }

  /** The input hashed last for a list. */
  ghost function TopPreimage(items: seq<bytes>): (x: bytes)
    ensures x in Preimages(items) && RootHash(items) == Sha256(x)
    ensures |items| == 0 ==> x == []
    ensures |items| == 1 ==> x == [0] + items[0] && x[0] == 0
    ensures |items| > 1 ==> x != [] && x[0] == 1
  {
    if |items| == 0 then []
    else if |items| == 1 then [0] + items[0]
    else [1] + RootHash(items[..SplitPoint(|items|)]) + RootHash(items[SplitPoint(|items|)..])
  }

  lemma SamePreimage(a: seq<bytes>, b: seq<bytes>, inputs: set<bytes>)
    requires CollisionFree(inputs) && Preimages(a) <= inputs && Preimages(b) <= inputs
    requires RootHash(a) == RootHash(b)
    ensures TopPreimage(a) == TopPreimage(b)
  {
  }

  lemma SplitPreimage(a: seq<bytes>, b: seq<bytes>)
    requires |a| > 1 && |b| > 1 && TopPreimage(a) == TopPreimage(b)
    ensures RootHash(a[..SplitPoint(|a|)]) == RootHash(b[..SplitPoint(|b|)])
    ensures RootHash(a[SplitPoint(|a|)..]) == RootHash(b[SplitPoint(|b|)..])
  {
    var j, k := SplitPoint(|a|), SplitPoint(|b|);
    InnerPreimage(RootHash(a[..j]), RootHash(a[j..]), RootHash(b[..k]), RootHash(b[k..]));
  }

  lemma SameHalves(a: seq<bytes>, j: nat, b: seq<bytes>, k: nat)
    requires j <= |a| && k <= |b| && a[..j] == b[..k] && a[j..] == b[k..]
    ensures a == b
  {
    assert a == a[..j] + a[j..] && b == b[..k] + b[k..];
  }

  lemma SameKind(a: seq<bytes>, b: seq<bytes>)
    requires TopPreimage(a) == TopPreimage(b)
    ensures |a| == |b| <= 1 || (|a| > 1 && |b| > 1)
  {
  }

  lemma SameLeaf(a: seq<bytes>, b: seq<bytes>)
    requires |a| == 1 && |b| == 1 && TopPreimage(a) == TopPreimage(b)
    ensures a == b
  {
    assert a[0] == TopPreimage(a)[1..] && b[0] == TopPreimage(b)[1..];
  }

  lemma PartPreimages(a: seq<bytes>)
    requires |a| > 1
    ensures Preimages(a[..SplitPoint(|a|)]) <= Preimages(a) && Preimages(a[SplitPoint(|a|)..]) <= Preimages(a)
  {
  }

  /** Barring collisions equal roots mean equal lists, of whatever lengths: a leaf, an inner node and
      the empty list never hash the same input. */
  lemma {:induction false} RootDetermines(a: seq<bytes>, b: seq<bytes>, inputs: set<bytes>)
    requires CollisionFree(inputs) && Preimages(a) <= inputs && Preimages(b) <= inputs
    requires RootHash(a) == RootHash(b)
    ensures a == b
    decreases |a|
  {
    SamePreimage(a, b, inputs);
    SameKind(a, b);
    if |a| == 1 {
      SameLeaf(a, b);
    } else if |a| > 1 {
      var j, k := SplitPoint(|a|), SplitPoint(|b|);
      SplitPreimage(a, b);
      PartPreimages(a);
      PartPreimages(b);
      RootDetermines(a[..j], b[..k], inputs);
      RootDetermines(a[j..], b[k..], inputs);
      SameHalves(a, j, b, k);
    }
  }
}
