/** The two encodings of a node: the stored form, which decodes, and the hashed form, which
    leaves out the routing key of an inner node. */
module NodeCodec {
  import opened Bytes
  import opened Varint
  import opened Hashing
  import opened AvlTree
  import opened Options

  /** A node without its children: what a `shallow_clone` keeps and what the database stores. */
  datatype NodeData =
    | LeafData(value: bytes, key: bytes, version: nat)
    | InnerData(height: nat, size: nat, leftHash: Hash, rightHash: Hash, key: bytes, version: nat)

  const U8_MAX := 0xFF

  const U32_MAX := 0xFFFF_FFFF

  /** The fields are within the widths of their Rust types, and only leaves have height 0. */
  ghost predicate Fits(d: NodeData) {
    && d.version <= U32_MAX
    && (d.InnerData? ==> 1 <= d.height <= U8_MAX && d.size <= U32_MAX)
  }

  /** `Node::serialize` */
  function Serialize(d: NodeData): bytes {
    match d
    case LeafData(value, key, version) =>
      EncodeVar(0) + (EncodeVar(1) + (EncodeVar(version) + (EncodeBytes(key) + EncodeBytes(value))))
    case InnerData(height, size, leftHash, rightHash, key, version) =>
      EncodeVar(height) + (EncodeVar(size) + (EncodeVar(version)
      + (EncodeBytes(key) + (EncodeBytes(leftHash) + EncodeBytes(rightHash)))))
  }

  function DeserializeHashes(height: nat, size: nat, version: nat, key: bytes, b4: bytes): Decoded<NodeData> {
    match DecodeBytes(b4)
    case Malformed => Malformed
    case Panics => Panics
    case Done((left, n4)) =>
      match DecodeBytes(b4[n4..])
      case Malformed => Malformed
      case Panics => Panics
      case Done((right, _)) =>
        if |left| == 32 && |right| == 32 then Done(InnerData(height, size, left, right, key, version))
        else Malformed
  }

  /** The part of `deserialize` after the three integers. */
  function DeserializeRest(height: nat, size: nat, version: nat, b3: bytes): Decoded<NodeData> {
    match DecodeBytes(b3)
    case Malformed => Malformed
    case Panics => Panics
    case Done((key, n3)) =>
      var b4 := b3[n3..];
      if height == 0 then
        match DecodeBytes(b4)
        case Malformed => Malformed
        case Panics => Panics
        case Done((value, _)) => Done(LeafData(value, key, version))
      else
        DeserializeHashes(height, size, version, key, b4)
  }

  /** `Node::deserialize` */
  function Deserialize(b0: bytes): Decoded<NodeData> {
    match DecodeVarUpTo(b0, U8_MAX)
    case None => Malformed
    case Some((height, n0)) =>
      DecodeWithin(b0);
      var b1 := b0[n0..];
      match DecodeVarUpTo(b1, U32_MAX)
      case None => Malformed
      case Some((size, n1)) =>
        DecodeWithin(b1);
        var b2 := b1[n1..];
        match DecodeVarUpTo(b2, U32_MAX)
        case None => Malformed
        case Some((version, n2)) =>
          DecodeWithin(b2);
          DeserializeRest(height, size, version, b2[n2..])
  }

  lemma ReadInteger(n: nat, max: nat, rest: bytes)
    requires n <= max
    ensures DecodeVarUpTo(EncodeVar(n) + rest, max) == Some((n, |EncodeVar(n)|))
    ensures (EncodeVar(n) + rest)[|EncodeVar(n)|..] == rest
  {
    DecodeEncode(n, rest);
  }

  lemma ReadIntegers(height: nat, size: nat, version: nat, b3: bytes)
    requires height <= U8_MAX && size <= U32_MAX && version <= U32_MAX
    ensures Deserialize(EncodeVar(height) + (EncodeVar(size) + (EncodeVar(version) + b3)))
         == DeserializeRest(height, size, version, b3)
  {
    var b2 := EncodeVar(version) + b3;
    var b1 := EncodeVar(size) + b2;
    ReadInteger(height, U8_MAX, b1);
    ReadInteger(size, U32_MAX, b2);
    ReadInteger(version, U32_MAX, b3);
  }

  /** Reading back a stored node gives the node, without its children. */
  lemma DeserializeSerialize(d: NodeData)
    requires Fits(d)
    ensures Deserialize(Serialize(d)) == Done(d)
  {
    match d
    case LeafData(value, key, version) =>
      var b3 := EncodeBytes(key) + EncodeBytes(value);
      ReadIntegers(0, 1, version, b3);
      DecodeEncodeBytes(key, EncodeBytes(value));
      DecodeEncodeBytes(value, []);
      assert EncodeBytes(value) + [] == EncodeBytes(value);
    case InnerData(height, size, left, right, key, version) =>
      var b4 := EncodeBytes(left) + EncodeBytes(right);
      ReadIntegers(height, size, version, EncodeBytes(key) + b4);
      DecodeEncodeBytes(key, b4);
      DecodeEncodeBytes(left, EncodeBytes(right));
      DecodeEncodeBytes(right, []);
      assert EncodeBytes(right) + [] == EncodeBytes(right);
  }

  // ---------- hashes ----------

  /** `hash_serialize` */
  function HashSerialize(d: NodeData): bytes {
    match d
    case LeafData(value, key, version) =>
      EncodeSigned(0) + (EncodeSigned(1) + (EncodeSigned(version)
      + (EncodeBytes(key) + (EncodeBytes(Sha256(value)) + []))))
    case InnerData(height, size, leftHash, rightHash, _, version) =>
      EncodeSigned(height) + (EncodeSigned(size) + (EncodeSigned(version)
      + (EncodeBytes(leftHash) + (EncodeBytes(rightHash) + []))))
  }

  /** `Node::hash`, from the node's own fields. */
  function HashData(d: NodeData): Hash {
    Sha256(HashSerialize(d))
  }

  lemma ShortBytes(b: bytes)
    requires |b| < 128
    ensures EncodeBytes(b) == [|b|] + b && EncodeBytes(b) + [] == [|b|] + b
  {
  }

  lemma Front(a: byte, b: byte, c: byte, rest: bytes)
    requires a < 128 && b < 128 && c < 128
    ensures EncodeVar(a) + (EncodeVar(b) + (EncodeVar(c) + rest)) == [a, b, c] + rest
  {
  }

  /** The layouts byte by byte, where every integer takes one byte. The stored form is a row of
      height, size and version, then the key, then the value or the two hashes. */
  lemma StoredLayouts(h: byte, n: byte, v: byte, key: bytes, value: bytes, left: Hash, right: Hash)
    requires h < 128 && n < 128 && v < 128 && |key| < 128 && |value| < 128
    ensures Serialize(LeafData(value, key, v)) == [0, 1, v] + (([|key|] + key) + ([|value|] + value))
    ensures Serialize(InnerData(h, n, left, right, key, v))
         == [h, n, v] + (([|key|] + key) + (([32] + left) + ([32] + right)))
  {
    ShortBytes(key);
    ShortBytes(value);
    ShortBytes(left);
    ShortBytes(right);
    Front(0, 1, v, EncodeBytes(key) + EncodeBytes(value));
    Front(h, n, v, EncodeBytes(key) + (EncodeBytes(left) + EncodeBytes(right)));
  }

  /** In the hashed form the integers are doubled, the value is hashed, and an inner node's routing
      key is not there. */
  lemma HashedLayouts(h: byte, n: byte, v: byte, key: bytes, value: bytes, left: Hash, right: Hash)
    requires h < 64 && n < 64 && v < 64 && |key| < 128
    ensures HashSerialize(LeafData(value, key, v)) == [0, 2, 2 * v] + (([|key|] + key) + ([32] + Sha256(value)))
    ensures HashSerialize(InnerData(h, n, left, right, key, v))
         == [2 * h, 2 * n, 2 * v] + (([32] + left) + ([32] + right))
  {
    ShortBytes(key);
    ShortBytes(Sha256(value));
    ShortBytes(left);
    ShortBytes(right);
    Front(0, 2, 2 * v, EncodeBytes(key) + (EncodeBytes(Sha256(value)) + []));
    Front(2 * h, 2 * n, 2 * v, EncodeBytes(left) + (EncodeBytes(right) + []));
  }

  /** Decoding a row of fields, whatever follows: at height 0 a leaf, its size ignored; above, an inner
      node if both hashes have 32 bytes. */
  lemma DeserializeFields(h: nat, n: nat, v: nat, key: bytes, x: bytes, y: bytes, rest: bytes)
    requires h <= U8_MAX && n <= U32_MAX && v <= U32_MAX
    ensures Deserialize(EncodeVar(h) + (EncodeVar(n) + (EncodeVar(v) + (EncodeBytes(key) + (EncodeBytes(x) + (EncodeBytes(y) + rest))))))
      == if h == 0 then Done(LeafData(x, key, v))
         else if |x| == 32 && |y| == 32 then Done(InnerData(h, n, x, y, key, v))
         else Malformed
  {
    var b5 := EncodeBytes(y) + rest;
    var b4 := EncodeBytes(x) + b5;
    ReadIntegers(h, n, v, EncodeBytes(key) + b4);
    DecodeEncodeBytes(key, b4);
    DecodeEncodeBytes(x, b5);
    DecodeEncodeBytes(y, rest);
  }

  /** The widths of `u8` and `u32`. */
  lemma Widths()
    ensures U8_MAX + 1 == 256 && U32_MAX + 1 == 256 * 256 * 256 * 256
  {
  }

  /** Whatever decodes is within the Rust types. */
  lemma DecodedFits(b: bytes)
    ensures Deserialize(b).Done? ==> Fits(Deserialize(b).value)
  {
    DecodeWithin(b);
  }

  lemma SmallVars()
    ensures EncodeVar(0) == [0] && EncodeVar(1) == [1] && EncodeSigned(0) == [0] && EncodeSigned(1) == [2]
  {
  }

  /** A string after its length. */
  ghost function Counted(b: bytes): bytes {
    EncodeVar(|b|) + b
  }

  /** The stored form of every node, field by field. */
  lemma StoredForm(h: nat, n: nat, v: nat, key: bytes, value: bytes, left: Hash, right: Hash)
    ensures Serialize(LeafData(value, key, v)) == [0] + ([1] + (EncodeVar(v) + (Counted(key) + Counted(value))))
    ensures Serialize(InnerData(h, n, left, right, key, v))
         == EncodeVar(h) + (EncodeVar(n) + (EncodeVar(v) + (Counted(key) + (([32] + left) + ([32] + right)))))
  {
    SmallVars();
    ShortBytes(left);
    ShortBytes(right);
  }

  /** The hashed form of every node, field by field: the integers are doubled, the value is hashed, and
      an inner node's routing key is not there. */
  lemma HashedForm(h: nat, n: nat, v: nat, key: bytes, value: bytes, left: Hash, right: Hash)
    ensures HashSerialize(LeafData(value, key, v)) == [0] + ([2] + (EncodeVar(2 * v) + (Counted(key) + ([32] + Sha256(value)))))
    ensures HashSerialize(InnerData(h, n, left, right, key, v))
         == EncodeVar(2 * h) + (EncodeVar(2 * n) + (EncodeVar(2 * v) + (([32] + left) + ([32] + right))))
  {
    SmallVars();
    ShortBytes(Sha256(value));
    ShortBytes(left);
    ShortBytes(right);
  }

  ghost function HashFields(d: NodeData): (r: (int, int, bytes, bytes))
    ensures HashSerialize(d) == EncodeSigned(r.0) + (EncodeSigned(r.1) + (EncodeSigned(d.version)
                                + (EncodeBytes(r.2) + (EncodeBytes(r.3) + []))))
  {
    match d
    case LeafData(value, key, _) => (0, 1, key, Sha256(value))
    case InnerData(height, size, left, right, _, _) => (height, size, left, right)
  }

  /** The hashed form determines every field but an inner node's routing key and a leaf's value,
      of which it keeps the digest. */
  lemma HashSerializeInjective(a: NodeData, b: NodeData)
    requires Fits(a) && Fits(b) && HashSerialize(a) == HashSerialize(b)
    ensures a.LeafData? == b.LeafData? && a.version == b.version
    ensures a.LeafData? ==> a.key == b.key && Sha256(a.value) == Sha256(b.value)
    ensures a.InnerData? ==> a == InnerData(b.height, b.size, b.leftHash, b.rightHash, a.key, b.version)
  {
    var (ha, sa, xa, ya) := HashFields(a);
    var (hb, sb, xb, yb) := HashFields(b);
    SignedPrefixFree(ha, EncodeSigned(sa) + (EncodeSigned(a.version) + (EncodeBytes(xa) + (EncodeBytes(ya) + []))),
                     hb, EncodeSigned(sb) + (EncodeSigned(b.version) + (EncodeBytes(xb) + (EncodeBytes(yb) + []))));
    SignedPrefixFree(sa, EncodeSigned(a.version) + (EncodeBytes(xa) + (EncodeBytes(ya) + [])),
                     sb, EncodeSigned(b.version) + (EncodeBytes(xb) + (EncodeBytes(yb) + [])));
    SignedPrefixFree(a.version, EncodeBytes(xa) + (EncodeBytes(ya) + []),
                     b.version, EncodeBytes(xb) + (EncodeBytes(yb) + []));
    BytesPrefixFree(xa, EncodeBytes(ya) + [], xb, EncodeBytes(yb) + []);
    BytesPrefixFree(ya, [], yb, []);
  }

  lemma HashSerializeNonEmpty(d: NodeData)
    ensures HashSerialize(d) != []
  {
    var (h, s, x, y) := HashFields(d);
    DecodeEncode(if h >= 0 then 2 * h else -2 * h - 1, []);
  }

  /** A tree's root node as it is stored, the children reduced to their hashes. */
  function Data(t: Tree): NodeData
    decreases t, 0
  {
    match t
    case Leaf(key, value, version) => LeafData(value, key, version)
    case Inner(key, height, size, version, left, right) =>
      InnerData(height, size, HashOf(left), HashOf(right), key, version)
  }

  /** The hash of a whole tree. */
  function HashOf(t: Tree): Hash
    decreases t, 1
  {
    HashData(Data(t))
  }

  /** Everything that gets hashed for a tree: each node's hashed form and each leaf's value. */
  ghost function Preimages(t: Tree): set<bytes> {
    {HashSerialize(Data(t))} + (if t.Leaf? then {t.value} else Preimages(t.left) + Preimages(t.right))
  }

  /** Every node of the tree fits its Rust types. */
  ghost predicate TreeFits(t: Tree) {
    Fits(Data(t)) && (t.Inner? ==> TreeFits(t.left) && TreeFits(t.right))
  }

  /** Barring collisions the root hash determines the whole tree, routing keys included: they are
      not hashed, but each is the leftmost key of a subtree whose leaves are. */
  lemma {:induction false} HashDetermines(a: Tree, b: Tree, inputs: set<bytes>)
    requires Routed(a) && Routed(b) && TreeFits(a) && TreeFits(b)
    requires CollisionFree(inputs) && Preimages(a) <= inputs && Preimages(b) <= inputs
    requires HashOf(a) == HashOf(b)
    ensures a == b
  {
    HashSerializeInjective(Data(a), Data(b));
    if a.Leaf? {
    } else {
      HashDetermines(a.left, b.left, inputs);
      HashDetermines(a.right, b.right, inputs);
    }
  }

  /** Barring collisions with the empty string, no tree has the hash that stands for "no tree". */
  lemma NeverEmptyHash(t: Tree, inputs: set<bytes>)
    requires CollisionFree(inputs) && Preimages(t) <= inputs && [] in inputs
    ensures HashOf(t) != EmptyHash()
  {
    HashSerializeNonEmpty(Data(t));
  }

  /** A valid tree that a `u32` can count, with versions up to a `u32`, fits everywhere. */
  lemma {:induction false} ValidTreeFits(t: Tree, newest: nat)
    requires Balanced(t) && Versioned(t, newest) && newest <= U32_MAX && Size(t) <= U32_MAX
    ensures TreeFits(t)
  {
    HeightBound(t);
    if t.Leaf? {
    } else {
      ValidTreeFits(t.left, t.version);
      ValidTreeFits(t.right, t.version);
    }
  }
}
