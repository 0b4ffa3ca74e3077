# Verification of the IAVL store

This project models the storage layer of the repository and proves what it is for. Its centre is
the versioned, Merkle-hashed, lazily loaded AVL tree of `trees/src/iavl`; around it stand the
database views the tree lives in, the write cache in front of it, and the hashes taken over it.

- `AvlTree` is the tree with every child in memory: `set`, `remove`, the rotations and the lookup
  as functions, and the theorems about their results. `TreeShape` says exactly which tree they
  leave, node by node, with the versions the root hash covers. `LazyNode` and `IavlTree` are the same
  operations as the source performs them, on heap nodes changed in place whose children may be
  absent and fetched by hash through a cache. `Node.Rep(t, stored)` says which resolved tree `t` a
  partly loaded node stands for; every method is proved to do to `t` what the eager function does.
  It is also the statement that laziness and caching cannot be observed.
- `Persistence` says what the database holds and what a single write does to it, down to the
  bytes. `Runs` is the state machine over those writes: a run is any sequence of edits, single
  writes of a commit, repeated saves, and reopenings, so that it may stop or restart anywhere. The
  methods of `IavlTree` are proved to take such steps, and the log of their writes is the run's.
- `NodeCodec` and `Varint` are the two encodings of a node. `Hashing` leaves SHA-256 an unknown
  function; a theorem that needs hashes to tell things apart names the set of inputs among which
  no two collide.
- `Database`, `Prefixes` and `StoreKeys` are the in-memory database, its prefixed views, and the
  check on store names that makes the views independent.
- `Merkle` and `StoreHash` are the root over all stores, `AppHash` what it says about the trees,
  `TreeRange` iteration over a tree, `MergedRange` and `StoreRange` iteration over a cache and a
  tree at once, `KVCache` the write cache and its flush at the end of a block, `StoreCommit` the
  commit of a store's cache into its tree.

Four properties one would expect do not hold, and are proved with their exact conditions.

- `remove` on a tree that is a single leaf with the key returns the value and leaves the leaf
  (trees/src/iavl/tree.rs:683-719): `RemoveCorrect` and `LastLeafStays`.
- Because of it, committing a store (kv_store/src/bank/kv/application.rs:150-178) does not always
  persist what the store showed. `CommitExact` says when: the cache deletes every key the store
  held and writes nothing but keys above all of them, for instance nothing at all. The last of the
  deleted keys then comes back; `StrandsOneKey` is the smallest case.
- The two ends of a tree's range (trees/src/iavl/range/mod.rs:12-31 and
  trees/src/iavl/range/rev.rs:10-68) keep separate stacks, so calls to both may yield an item twice. `TreeRange.Calls` says exactly when they behave
  as one double-ended iterator; `OutTwice` is the smallest case.
- `get_versions` (trees/src/iavl/node_db.rs:39-44) relies on a database that strips prefixes. On a
  bare `MemDB` it reads the committed versions only if there is none but version 1: `BareVersions`,
  with `TwoEmptyVersions` the smallest case.

`dafny verify dfyconfig.toml` checks everything.

## Model

| member | source | states |
|---|---|---|
| `AvlTree.SetCorrect` | trees/src/iavl/tree.rs:828-951 | On every valid tree (leaves in strict key order, routing key = smallest leaf key on the right, exact heights and sizes, siblings within one level, no child newer than its parent) `set` meets no failing rotation, keeps all of that, and the map becomes exactly the old one with the key bound |
| `AvlTree.RemoveCorrect` | trees/src/iavl/tree.rs:678-826 | On every valid tree `remove` returns the old value and keeps the tree valid; the map loses exactly the key if and only if the root is not itself the leaf of the key; an absent key leaves the very same tree, and so the same root hash |
| `AvlTree.LastLeafStays` | trees/src/iavl/tree.rs:678-719 | The failing family has a witness: removing the key of a one-leaf tree returns its value and the key is still bound afterwards |
| `AvlTree.SetItems` | trees/src/iavl/tree.rs:843-951 | The leaves after a `set`, left to right, are the old leaves with the pair inserted in order; routing keys stay the smallest keys of the right subtrees |
| `AvlTree.SetBalanced` | trees/src/iavl/tree.rs:843-951 | Insertion restores balance with at most one level of growth; a subtree that grew got a key that was not there, kept its root routing key, and leans to the side the key went to |
| `AvlTree.SetRightGrowth` | trees/src/iavl/tree.rs:913-946 | The step that makes the strict comparison with the child's routing key choose the right rotation: when the right subtree grew, the key cannot equal that routing key, and the rotation chosen restores balance |
| `AvlTree.SetLeftGrowth` | trees/src/iavl/tree.rs:913-946 | The mirror step for growth on the left |
| `AvlTree.RemoveItems` | trees/src/iavl/tree.rs:705-826 | `recursive_remove` deletes exactly the leaf of the key, returns its value, reports "not found" exactly for absent keys, and the leftmost key it reports, or the old one when it reports none, is that of what remains, which is what repairs the routing keys above |
| `AvlTree.RemoveBalanced` | trees/src/iavl/tree.rs:705-826 | No `expect`, `unreachable!` or balance error is reached by a removal; balance is restored and the height shrinks by at most one |
| `AvlTree.RebalanceBalances` | trees/src/iavl/tree.rs:300-353 | Whenever both children are balanced and lean at most two levels apart, the rotations chosen succeed and the result is balanced, with its height fixed to within one |
| `AvlTree.RebalanceKeeps` | trees/src/iavl/tree.rs:300-353 | Rebalancing keeps the leaves, their order, the routing keys and the leftmost key |
| `AvlTree.RotateRightKeeps` | trees/src/iavl/tree.rs:218-256 | A right rotation keeps the leaf sequence, the routing invariant and the leftmost key |
| `AvlTree.RotateLeftKeeps` | trees/src/iavl/tree.rs:258-296 | A left rotation keeps the leaf sequence, the routing invariant and the leftmost key |
| `AvlTree.RotateLeftRightBalances` | trees/src/iavl/tree.rs:330-346 | The double rotation always succeeds on a node two levels left-heavy over a right-leaning child and lowers it by exactly one level |
| `AvlTree.RotateRightLeftBalances` | trees/src/iavl/tree.rs:312-328 | The mirror double rotation, likewise |
| `AvlTree.SetVersioned` | trees/src/iavl/tree.rs:843-951 | After a `set` no node is newer than its parent or than the working version |
| `AvlTree.RemoveVersioned` | trees/src/iavl/tree.rs:705-826 | After a `remove` no node is newer than its parent or than the working version |
| `AvlTree.SetBuilt` | trees/src/iavl/tree.rs:843-951 | The new tree consists of untouched subtrees of the old one and of nodes stamped with the working version: every changed node is stamped, every unstamped one is shared whole |
| `AvlTree.RemoveBuilt` | trees/src/iavl/tree.rs:705-826 | The same for a removal |
| `AvlTree.GetIsLookup` | trees/src/iavl/tree.rs:632-676 | Following the routing keys down answers every key as the map of the leaves does |
| `AvlTree.SizeIsCount` | trees/src/iavl/tree.rs:93-123 | The cached size of a balanced tree is its number of leaves |
| `AvlTree.LeavesAtLeastFib` | trees/src/iavl/tree.rs:93-123 | A balanced tree of height h has at least Fib(h + 2) leaves |
| `AvlTree.HeightBound` | trees/src/iavl/tree.rs:93-123 | A balanced tree whose size fits `u32` is at most 45 high, so the `u8` height cannot overflow |
| `TreeShape.HeightIsDepth` | trees/src/iavl/tree.rs:93-123 | The cached height of a balanced tree is the depth of its deepest leaf |
| `TreeShape.SetIsRepaired` | trees/src/iavl/tree.rs:843-951 | `set` makes exactly the tree of plain search-tree insertion (the nodes on the way to the key new and of the working version, everything beside it as it was) with at most one node rearranged, the deepest that is out of balance; the height is then back to what it was |
| `TreeShape.SetIsInserted` | trees/src/iavl/tree.rs:843-951 | When plain insertion leaves a balanced tree, `set` makes that very tree and rotates nothing |
| `TreeShape.SetLeaves` | trees/src/iavl/tree.rs:828-951 | The leaves after `set` are the old ones, versions included, with the pair at the working version put in or in the place of the key's, also from the empty tree |
| `TreeShape.SetKeepsBeside` | trees/src/iavl/tree.rs:843-951 | Every subtree that a lookup of the key passes by, or the leaf of another key where it ends, is in the new tree as it was |
| `TreeShape.SetIsFresh` | trees/src/iavl/tree.rs:843-951 | Every other node of the new tree carries the working version |
| `TreeShape.LeaningLeft` | trees/src/iavl/tree.rs:330-346 | At a node two levels left-heavy the result is the single-rotation arrangement of the old subtrees if and only if the tall child does not lean inward, and otherwise the double one, both written out on the subtrees |
| `TreeShape.LeaningRight` | trees/src/iavl/tree.rs:312-328 | The mirror statement for a right-heavy node |
| `TreeShape.RebalanceArranges` | trees/src/iavl/tree.rs:300-353 | Rebalancing is that arrangement when a node leans by two levels, and nothing but new height and size otherwise |
| `TreeShape.RemoveIsArranged` | trees/src/iavl/tree.rs:705-826 | `remove` makes exactly the tree in which the sibling of the cut leaf takes their parent's place as it is, versions included, and every node above is new, routes by the leftmost key on its right, and is arranged |
| `TreeShape.RemoveIsDeleted` | trees/src/iavl/tree.rs:705-826 | When plain search-tree deletion leaves a balanced tree, `remove` makes that very tree and rotates nothing |
| `TreeShape.RemoveLeaves` | trees/src/iavl/tree.rs:678-826 | The leaves after `remove` are the old ones, versions included, without the key's, except that a one-leaf tree keeps its leaf |
| `NodeCodec.DeserializeSerialize` | trees/src/iavl/tree.rs:435-500 | Decoding the stored form of any node whose fields fit their Rust types gives the node without its in-memory children |
| `NodeCodec.DeserializeFields` | trees/src/iavl/tree.rs:462-500 | Decoding any row of fields, whatever follows it: at height 0 a leaf, its size ignored, above an inner node if both hashes have 32 bytes, and an error if not |
| `NodeCodec.DecodedFits` | trees/src/iavl/tree.rs:462-500 | Whatever decodes has its fields within their Rust types |
| `NodeCodec.StoredForm` | trees/src/iavl/tree.rs:435-460 | The stored bytes of every leaf and inner node, field by field |
| `NodeCodec.HashedForm` | trees/src/iavl/tree.rs:147-161 | The hashed bytes of every leaf and inner node, field by field: doubled (signed) integers, the digest of the value, no routing key |
| `NodeCodec.StoredLayouts` | trees/src/iavl/tree.rs:435-460 | The stored bytes of every leaf and inner node whose integers take one byte each, field by field; the expected bytes of the tree's own tests (lines 1663-1709) are instances |
| `NodeCodec.HashedLayouts` | trees/src/iavl/tree.rs:147-161 | The hashed bytes of the same nodes: doubled (signed) integers, the digest of the value in place of the value, no routing key |
| `NodeCodec.HashSerializeInjective` | trees/src/iavl/tree.rs:415-433 | The hashed form tells leaves from inner nodes and determines every field except the routing key, and a leaf's value up to its digest |
| `NodeCodec.HashDetermines` | trees/src/iavl/tree.rs:410-433 | Barring collisions among the two trees' own preimages, valid trees with one hash are the same tree, routing keys included although no hash covers them |
| `NodeCodec.NeverEmptyHash` | trees/src/iavl/tree.rs:410-433 | Barring collisions no node hashes to the digest that stands for the empty tree |
| `NodeCodec.ValidTreeFits` | trees/src/iavl/tree.rs:93-123 | Every node of a valid tree with `u32` size and version has fields within their Rust types, so the codec round trip applies to all of them |
| `NodeCodec.Widths` | trees/src/iavl/tree.rs:29-34 | The largest height and the largest size and version are those of `u8` and `u32` |
| `Varint.DecodeEncode` | trees/src/iavl/tree.rs:435-470 | A LEB128 integer followed by anything decodes to itself and stops exactly at its end |
| `Varint.EncodeIsLeb128` | trees/src/iavl/tree.rs:435-460 | A number is encoded as the one LEB128 string that spells it, seven bits to the byte and the lowest first |
| `Varint.DecodeIs` | trees/src/iavl/tree.rs:462-470 | Decoding reads the number spelled up to the first byte without the high bit, and fails exactly when there is none |
| `Varint.ZigzagReads` | trees/src/iavl/tree.rs:415-426 | Signed integers are zigzag: even numbers stand for the non-negative ones and odd ones for the negative |
| `Varint.VarPrefixFree` | trees/src/iavl/tree.rs:435-460 | Varints are a prefix code: two strings that start with one agree on it and on the rest |
| `Varint.DecodeEncodeBytes` | trees/src/iavl/tree.rs:965-977 | A length-prefixed byte string followed by anything decodes to itself and stops at its end |
| `Varint.DecodeBytesIs` | trees/src/iavl/tree.rs:972-977 | Decoding a counted string fails exactly when the length does not end, panics exactly when there are fewer bytes than it says, and otherwise takes exactly that many |
| `Varint.BytesPrefixFree` | trees/src/iavl/tree.rs:965-970 | Length-prefixed byte strings are a prefix code |
| `Persistence.RootKeyForm` | trees/src/iavl/node_db.rs:65-67 | A root key is the prefix byte and at most five bytes that decode to the version; the keys of the versions 1 and 300 byte by byte |
| `Persistence.NodeKeyForm` | trees/src/iavl/node_db.rs:69-71 | A node key is the byte 2 and the 32 bytes of the hash |
| `Persistence.RootHashForm` | trees/src/iavl/tree.rs:614-619 | The root hash of every tree, node by node: the digest of the hashed bytes with the children's digests among them, and for the empty tree the digest of nothing |
| `Persistence.KeysApart` | trees/src/iavl/node_db.rs:21-71 | Node keys and root keys never coincide |
| `Persistence.PutNodeKeeps` | trees/src/iavl/node_db.rs:88-94 | Barring collisions, one write of a node whose children are stored keeps the store in order (every stored node decodes to a valid tree with its children stored, every recorded root is stored) and overwrites nothing with anything different |
| `Persistence.PutRootKeeps` | trees/src/iavl/node_db.rs:123-126 | Writing a root entry for a stored tree commits exactly that tree under exactly that version and leaves every other version as it was |
| `Persistence.StoredReads` | trees/src/iavl/node_db.rs:73-107 | Every node of a stored tree, down to the leaves, reads back from the database by hash |
| `Persistence.ReadsOnce` | trees/src/iavl/node_db.rs:73-86 | Without any assumption on the hash function, a hash reads back from one database as one tree only |
| `Persistence.WalkFinds` | trees/src/iavl/query_tree.rs:46-91 | A lookup that has only a root hash and the decoded node entries finds what the resolved tree holds, reading at most one node per level |
| `Persistence.QueryIsCommitted` | trees/src/iavl/query_tree.rs:18-91 | Querying a committed version from the bytes alone answers every key as the map committed under it, within 46 node reads |
| `Persistence.StoreOkClosed` | trees/src/iavl/node_db.rs:88-126 | Read off the bytes: every stored inner node has both children stored, and every recorded root is the empty hash or a stored node |
| `LazyNode.NodeDB.GetNode` | trees/src/iavl/node_db.rs:73-86 | Whatever the cache holds, the node returned is the decoding of the entry under the byte 2 and the hash and represents every stored tree with that hash; `None` exactly when there is no such entry; the cache stays a subset of the decodings |
| `LazyNode.NodeDB.SaveNode` | trees/src/iavl/node_db.rs:88-94 | Writes the serialized node under the byte 2 and the hash, and nothing else; the store is in order before and after, with exactly one tree and one entry in the log of writes more; nothing stored is lost or changed, and nothing seen through a prefix apart from its own |
| `LazyNode.NodeDB.RecursiveTreeSave` | trees/src/iavl/node_db.rs:96-107 | The writes made are exactly one for every loaded node, those of the left child before those of the right and both before the node itself; the log shows the database after every one |
| `LazyNode.NodeDB.SaveTree` | trees/src/iavl/node_db.rs:109-121 | Returns the root hash, writes the nodes children first as the log shows, drops the loaded children, and the root still represents the same tree |
| `LazyNode.NodeDB.SaveVersion` | trees/src/iavl/node_db.rs:123-126 | One write: the root entry commits the tree under the version and changes no other version |
| `LazyNode.NodeDB.GetVersions` | trees/src/iavl/node_db.rs:39-44 | On a prefixed view the versions read from the root entries are exactly the committed ones |
| `LazyNode.NodeDB.GetRootHash` | trees/src/iavl/node_db.rs:46-51 | The committed root hash, or `VersionNotFound` exactly for versions never committed |
| `LazyNode.NodeDB.GetRootNode` | trees/src/iavl/node_db.rs:53-63 | A root that represents the committed tree, none for a version committed empty, `VersionNotFound` exactly for versions never committed |
| `LazyNode.RootEntries` | trees/src/iavl/node_db.rs:39-44 | The keys under the root prefix, the prefix taken off, all decode, and to exactly the committed versions |
| `LazyNode.BareVersions` | trees/src/iavl/node_db.rs:39-44 | On a database not seen through a prefix every root key decodes to 1: the versions read are {1} whenever anything was committed, and so the committed ones if and only if no version but 1 was |
| `LazyNode.TwoEmptyVersions` | trees/src/iavl/node_db.rs:39-44 | The smallest database on which they are not: the empty tree saved twice |
| `LazyNode.Node.RepMore` | trees/src/iavl/node_db.rs:96-107 | Storing more trees never changes which tree a partly loaded node stands for |
| `LazyNode.Node.RepUnique` | trees/src/iavl/tree.rs:38-52 | A partly loaded node over a database in order stands for one tree only |
| `LazyNode.Node.GetMutLeftNode` | trees/src/iavl/tree.rs:38-44 | Loading the left child changes nothing about the tree the node stands for, and gives a node standing for its left subtree |
| `LazyNode.Node.GetMutRightNode` | trees/src/iavl/tree.rs:46-52 | The same on the right |
| `LazyNode.Node.GetBalanceFactor` | trees/src/iavl/tree.rs:66-90 | The factor of the resolved tree, whichever children are loaded |
| `LazyNode.Node.UpdateHeightAndSizeGetBalanceFactor` | trees/src/iavl/tree.rs:93-123 | Height and size become those of the resolved children, without `u8` or `u32` overflow |
| `LazyNode.Node.LeftmostLeafKey` | trees/src/iavl/tree.rs:185-216 | The key of the resolved tree's first leaf |
| `LazyNode.Node.RightRotate` | trees/src/iavl/tree.rs:218-256 | In place, with the recorded hash of the left child possibly stale: fails exactly for a leaf or a leaf on the left, and otherwise the node represents the eager rotation with every recorded hash right again |
| `LazyNode.Node.LeftRotate` | trees/src/iavl/tree.rs:258-296 | The mirror rotation, with the right hash possibly stale |
| `LazyNode.Node.RotateLeftThenRight` | trees/src/iavl/tree.rs:330-346 | The double rotation, between whose halves a recorded hash is wrong, ends with every recorded hash right |
| `LazyNode.Node.RotateRightThenLeft` | trees/src/iavl/tree.rs:312-328 | The mirror double rotation |
| `LazyNode.Node.UpdateHeightAndSizeAndBalance` | trees/src/iavl/tree.rs:300-353 | Refines the eager rebalancing, and errs exactly when the balance factor is outside -2..2 |
| `LazyNode.Node.RecursiveSet` | trees/src/iavl/tree.rs:843-951 | In place, on any partly loaded node: afterwards the node represents the eager `SetNode` of what it represented, all cached heights, sizes and child hashes being those of the resolved children; no rotation fails |
| `LazyNode.Node.RecursiveRemove` | trees/src/iavl/tree.rs:705-826 | In place, on any partly loaded node: the four results and the resulting node are those of the eager removal, the new hash being the hash of the resolved result; nothing expected fails |
| `LazyNode.Node.Clone` | trees/src/iavl/tree.rs:736-802 | A promoted sibling is copied whole: the copy represents the same tree and shares no node with the original |
| `LazyNode.Node.Become` | trees/src/iavl/tree.rs:736-802 | Overwriting a node by its surviving sibling makes it represent the sibling's tree |
| `IavlTree.GetFrom` | trees/src/iavl/tree.rs:632-676 | The lookup loop over loaded and fetched nodes returns what the resolved tree holds in at most as many steps as the tree is high |
| `IavlTree.Latest` | trees/src/iavl/tree.rs:527-569 | The largest version, none exactly when there is none |
| `IavlTree.IavlTree.New` | trees/src/iavl/tree.rs:527-569 | Reopening: an error exactly for a target never committed; otherwise the loaded tree is the committed tree of the target, or of the highest version, or empty, `versions` is exactly the committed set, what was not saved is gone, and the result is what the reopening step of a run allows |
| `IavlTree.IavlTree.RootHash` | trees/src/iavl/tree.rs:614-619 | The root hash depends only on the resolved tree |
| `IavlTree.IavlTree.Get` | trees/src/iavl/tree.rs:625-676 | Answers every key from the map of the tree, unsaved edits included, in at most 45 steps, whatever is loaded and cached |
| `IavlTree.IavlTree.Set` | trees/src/iavl/tree.rs:828-841 | Binds the key, changes nothing else, keeps the whole tree invariant; the result depends only on the resolved tree and the working version; it is the `Set` step of a run |
| `IavlTree.IavlTree.Remove` | trees/src/iavl/tree.rs:678-700 | Returns the bound value; unbinds exactly the key except when the root is itself the leaf of the key; an absent key leaves the tree as it was; it is the `Remove` step of a run |
| `IavlTree.IavlTree.SaveVersion` | trees/src/iavl/tree.rs:573-612 | Barring collisions: a new version is committed as the working tree by a series of steps of a run, node writes and then the root write, whose databases are exactly the logged ones; after every single write every stored inner node has both children stored and every recorded root is stored, and no root entry changes before the last; an existing version is accepted exactly when it holds the very same tree, with nothing written, and refused with nothing changed otherwise; other stores see no difference |
| `IavlTree.IavlTree.SaveExisting` | trees/src/iavl/tree.rs:576-596 | The path for an existing version: equal root hashes mean equal trees, so dropping the loaded children loses nothing |
| `IavlTree.SameRootSameTree` | trees/src/iavl/tree.rs:576-596 | Barring collisions the working root hash equals the recorded one if and only if the working tree is the committed tree, and then it is stored whole |
| `IavlTree.QueryTree.New` | trees/src/iavl/query_tree.rs:18-35 | Version 0 stands for the loaded one; a version in the list opens as the committed tree, any other is `VersionNotFound` |
| `IavlTree.QueryTree.Get` | trees/src/iavl/query_tree.rs:39-91 | Answers every key from the committed map in at most 45 steps |
| `IavlTree.QueryTree.Survives` | trees/src/iavl/query_tree.rs:12-15 | A tree checked out earlier stays valid, and so keeps answering from the same map, whatever is stored afterwards |
| `IavlTree.IavlTree.StaysApart` | kv_store/src/lib.rs:31-42 | Whatever is written to the shared database under a prefix apart from its own, the tree of another store stays valid and in the same state |
| `Runs.NextKeeps` | trees/src/iavl/tree.rs:573-612 | Barring collisions, every step of a run, an edit, one single write of a commit, saving again or reopening, keeps the store in order and every committed version unchanged |
| `Runs.CommitIsPath` | trees/src/iavl/node_db.rs:96-126 | Writing any nodes of the working tree children first, the root node among them, and the root entry last is a series of steps of a run; `SaveVersion` makes its writes so |
| `Runs.CommitLogSafe` | trees/src/iavl/node_db.rs:96-126 | After every single write such a commit makes, read off its log, every stored inner node has both children stored and every recorded root is stored, and the root entries are the old ones until the last write |
| `Runs.RunKeepsInv` | trees/src/iavl/tree.rs:573-612 | After any number of steps from the empty database the store is in order and the working tree valid |
| `Runs.RunGrows` | trees/src/iavl/node_db.rs:88-126 | Between any two points of a run no committed version is lost or altered |
| `Runs.SavedVersionsNeverChange` | trees/src/iavl/query_tree.rs:18-91 | Barring collisions, a version answers every key, ever after it was saved and from the bytes alone, exactly as the working map stood when it was saved |
| `Runs.CrashSafe` | trees/src/iavl/node_db.rs:96-126 | Barring collisions, wherever a run is cut off, between two writes of a commit too, every stored inner node has both children stored and every recorded root is stored; that a commit is such a run is `IavlTree.SaveVersion` |
| `Runs.OpensCommitted` | trees/src/iavl/tree.rs:527-569 | Anything that can be opened from the database at a version is the tree committed under it |
| `Runs.ReopenRestores` | trees/src/iavl/tree.rs:527-569 | Reopening at a version brings back the tree as it was when saved; all later edits are gone |
| `Runs.EveryVersionWasSaved` | trees/src/iavl/tree.rs:598-611 | Every recorded version was saved at some step of the run, with the working tree of that step |
| `Prefixes.PrefixEndBound` | database/src/memory.rs:77-92 | The loop computes the specified bound for every prefix |
| `Prefixes.PrefixIsRange` | database/src/memory.rs:49-92 | A key starts with the prefix if and only if it lies from the prefix up to its end bound |
| `Prefixes.EndBoundIsLeast` | database/src/memory.rs:73-92 | Whatever lies above all keys under the prefix lies at or above the bound; when the bound is open, nothing does |
| `Prefixes.UnboundedIffAll255` | database/src/memory.rs:73-92 | The bound is open exactly for prefixes of 255s, the empty one included |
| `Prefixes.RangeIsUnder` | database/src/memory.rs:53-63 | The range between prefix and bound is exactly the entries under the prefix, in order |
| `Prefixes.FindStripped` | database/src/prefix.rs:17-20 | Reading a key through a view reads the prefixed key below |
| `Prefixes.StrippedInsert` | database/src/prefix.rs:22-25 | Writing through a view inserts into exactly what the view holds |
| `Prefixes.StrippedApart` | database/src/prefix.rs:22-25 | Writing under one of two prefixes that are apart changes nothing under the other |
| `Prefixes.StrippedTwice` | database/src/prefix.rs:38-49 | A view of a view is the view under the joined prefix |
| `Database.MemDB.Put` | database/src/memory.rs:33-38 | Inserts or replaces one entry and keeps the key order |
| `Database.MemDB.PrefixIterator` | database/src/memory.rs:49-70 | Exactly the entries whose keys start with the prefix, in key order |
| `Database.PrefixDB.Get` | database/src/prefix.rs:17-20 | Answers as the view's own map |
| `Database.PrefixDB.Put` | database/src/prefix.rs:22-25 | Updates the view's own map at the key and leaves the entries of every prefix that is apart from its own as they were |
| `Database.PrefixDB.Iterator` | database/src/prefix.rs:27-36 | Exactly the view's own entries, prefix taken off, in key order |
| `Database.PrefixDB.PrefixIterator` | database/src/prefix.rs:38-49 | The view's entries under a further prefix, both prefixes taken off |
| `StoreKeys.ExpandStore` | macros/key-derive/src/store_key.rs:24-67 | The incremental check accepts a list of names if and only if none is blank and none is a prefix of another; a refusal names the first name that cannot stay and is right about why, naming an earlier name that it is not apart from |
| `StoreKeys.ConflictsIffNotApart` | macros/key-derive/src/store_key.rs:51-58 | The three-way length comparison of the check holds exactly when one name is a prefix of the other |
| `StoreKeys.BlankIff` | macros/key-derive/src/store_key.rs:24-31 | A name is refused as empty exactly when nothing is left of it without its spaces |
| `StoreKeys.BuildPrefixedStores` | kv_store/src/lib.rs:31-42 | Every store gets the view under its own name, over the one shared database |
| `StoreKeys.StoresAreIndependent` | kv_store/src/lib.rs:31-42 | After any interleaving of writes through the views of an accepted list, each store holds what its own writes alone would have left in it |
| `StoreKeys.PrefixLeaks` | macros/key-derive/src/store_key.rs:51-65 | The check is needed: when one name is a prefix of another every write to the longer shows in the shorter |
| `Merkle.RootHashIsMth` | trees/src/merkle.rs:14-50 | A hash is the Merkle Tree Hash of section 2.1 of RFC 6962 of the list if and only if it is the computed root |
| `Merkle.SplitIsLargestPow2` | trees/src/merkle.rs:38-50 | The split is a power of two below the length, and the largest one |
| `Merkle.RootDetermines` | trees/src/merkle.rs:14-35 | Barring collisions equal roots mean equal lists, of whatever lengths |
| `StoreHash.HashStoreInfos` | kv_store/src/hash.rs:41-50 | The loops compute the specified hash of any non-empty list |
| `StoreHash.InfosHashForm` | kv_store/src/hash.rs:16-50 | What is hashed, for stores in the order of names: the Merkle root over, for each, the counted name and the counted digest of its hash |
| `StoreHash.OneStore` | kv_store/src/hash.rs:16-50 | One store hashes to the digest of a zero byte, the counted name and the counted digest of its hash |
| `StoreHash.TwoStores` | kv_store/src/hash.rs:16-50 | Two stores, listed either way, hash to the inner node over the leaf of the smaller name and the leaf of the larger |
| `StoreHash.SortSorts` | kv_store/src/hash.rs:47 | Sorting gives an ordered permutation |
| `StoreHash.ToBytesInjective` | kv_store/src/hash.rs:18-29 | Different pairs have different encodings |
| `StoreHash.OrderIrrelevant` | kv_store/src/hash.rs:41-50 | Listing the stores in another order gives the same hash |
| `StoreHash.HashDetermines` | kv_store/src/hash.rs:41-50 | Barring collisions the hash determines the multiset of store names with their hashes |
| `AppHash.AppHashExact` | kv_store/src/bank/multi/application.rs:81-100 | Barring collisions two lists of stores with valid trees have one commit hash if and only if they are the same stores with the same trees, in whatever order they were gone through |
| `AppHash.SameHashSameMaps` | kv_store/src/bank/multi/application.rs:81-100 | So equal commit hashes mean the same store names and the same map in every store |
| `AppHash.OneStore` | kv_store/src/bank/multi/application.rs:81-100 | The commit hash of a single store, byte by byte down to its tree's root hash |
| `AppHash.AppHashForm` | kv_store/src/bank/multi/application.rs:81-100 | The commit hash of stores listed in the order of names is the Merkle root over such leaves |
| `MergedRange.UnionIsOverlay` | kv_store/src/utils.rs:3-20 | What the two queues stand for is in strict key order and is the second map overridden by the first |
| `MergedRange.MergedRange.Merge` | kv_store/src/utils.rs:11-20 | The merge of two sorted lists starts as their sorted union |
| `MergedRange.MergedRange.Next` | kv_store/src/utils.rs:26-47 | Takes exactly the first entry of the sorted union that remains, and ends exactly when nothing remains |
| `MergedRange.MergedRange.NextBack` | kv_store/src/utils.rs:51-72 | Takes exactly the last entry of the sorted union that remains |
| `MergedRange.Calls` | kv_store/src/utils.rs:23-72 | For any series of calls to the two ends of a merge object the results are, call by call, those of one double-ended iterator over the sorted union, and what remains is what is left of it |
| `MergedRange.EndsMeet` | kv_store/src/utils.rs:23-72 | What such an iterator yields, in any interleaving, is every entry exactly once: those taken in front, what is left, and those taken at the back make up the union, and nothing is left after as many calls as entries |
| `TreeRange.PassedBy` | trees/src/iavl/range/mod.rs:37-83 | Nothing within the bounds lies under a child that the walk passes by |
| `TreeRange.LimitsHold` | trees/src/iavl/range/mod.rs:37-47 | An included limit is within the bounds, an excluded one is not, and a missing one bounds nothing |
| `TreeRange.SelectedIsPart` | trees/src/iavl/range/mod.rs:34-93 | The leaves within the bounds are in strict key order and are exactly the part of the map within the bounds |
| `TreeRange.RangeOf` | trees/src/iavl/tree.rs:953-962 | A new range has at either end exactly the part of the map within the bounds to yield, in key order |
| `TreeRange.TreeRange.Next` | trees/src/iavl/range/mod.rs:34-101 | Takes exactly the first of the items within the bounds that remain at the front, whatever is loaded and cached, and ends exactly when none remains |
| `TreeRange.TreeRange.NextBack` | trees/src/iavl/range/rev.rs:10-68 | Takes exactly the last of the items within the bounds that remain at the back, and does not touch the front |
| `TreeRange.TwoEndsAgree` | trees/src/iavl/range/rev.rs:62-68 | Two ends that each go through the items on their own yield, call by call, what one double-ended iterator would if and only if only one end is used, or there are no items, or there are no more calls than items |
| `TreeRange.Calls` | trees/src/iavl/range/mod.rs:12-101 | For any series of calls to the two ends of a range object the results are those of two ends on their own; on a new range they are those of a double-ended iterator exactly for the calls of the condition above |
| `TreeRange.OutTwice` | trees/src/iavl/range/mod.rs:22-31 | The smallest failing input: the unbounded range of a one-leaf tree, asked once at each end, yields its only item twice |
| `StoreRange.Range` | kv_store/src/bank/kv/application.rs:121-136 | Iterating over a store with uncommitted writes gives, in key order and within the bounds, exactly the entries that reading through the cache shows, the tree walked as it is |
| `KVCache.CacheIsReplay` | kv_store/src/cache.rs:14-47 | After any operations on an empty cache no key is both written and deleted, and any map seen through the cache is that map with the operations replayed on it |
| `KVCache.KVCache.Get` | kv_store/src/cache.rs:24-30 | An error exactly for deleted keys, otherwise what was written |
| `KVCache.KVCache.Set` | kv_store/src/cache.rs:37-47 | The key is written and no longer deleted; nothing else changes |
| `KVCache.KVCache.Delete` | kv_store/src/cache.rs:32-35 | The key is deleted and no longer written, its written value is returned; nothing else changes |
| `KVCache.KVCache.Take` | kv_store/src/cache.rs:16-21 | Hands over the whole contents and leaves the cache empty |
| `KVCache.BankGet` | kv_store/src/bank/kv/application.rs:93-99 | Reading through the cache in front of what is persisted reads the overlaid map, and nothing for a key deleted in the cache |
| `KVCache.FlushStore` | gears/src/baseapp/state.rs:55-64 | One store's block cache is emptied and flushed, deletes first |
| `KVCache.FlushIsReplay` | gears/src/baseapp/state.rs:52-65 | After the flush the store shows what the block's operations, in their own order, make of what it showed before, although all deletes are applied first |
| `KVCache.FlushedAt` | gears/src/baseapp/state.rs:55-64 | Key by key, whatever the two caches hold: what the block wrote is written, what it only deleted is deleted, and the rest is as it was |
| `KVCache.TakeBlockCache` | gears/src/baseapp/state.rs:52-65 | Every store is flushed with its own block cache and with no other |
| `StoreCommit.CommitExact` | kv_store/src/bank/kv/application.rs:150-178 | After a commit the tree holds exactly what the store showed through its cache if and only if it is not the case that the cache deletes every key of a non-empty store and writes only keys above all of them; in that case exactly the last of the old keys is left over |
| `StoreCommit.StrandsOneKey` | kv_store/src/bank/kv/application.rs:150-178 | The negative side has a witness: deleting the only key of a store and committing leaves the key in the tree though the store did not show it any more |
| `StoreCommit.MeetsLastLeaf` | kv_store/src/bank/kv/application.rs:150-178 | The map the commit loop should have reached is down to the one key about to be removed exactly in a store of that kind, at its last key |
| `StoreCommit.Collect` | kv_store/src/bank/kv/application.rs:155-159 | The two caches are collected in strict key order, each key once |
| `StoreCommit.UpdateTree` | kv_store/src/bank/kv/application.rs:161-168 | The loop takes the tree through the given trees one update at a time, a key that is both written and deleted counting as deleted |
| `StoreCommit.TraceExists` | kv_store/src/bank/kv/application.rs:161-168 | A commit can always be carried through when the keys it adds fit: no update in it finds the tree full |
| `StoreCommit.TraceUnique` | kv_store/src/bank/kv/application.rs:161-168 | The trees the loop goes through are determined by the tree and the cache |
| `StoreCommit.Commit` | kv_store/src/bank/kv/application.rs:150-178 | Empties the cache, updates the tree in key order and saves it under the next version, refusing exactly when that version exists with another tree; the new map is that of the exact condition above |

## Left out

- SHA-256 itself: an unknown function into 32 bytes. `EMPTY_HASH` is its value at the empty string, as its comment says; the literal bytes are not modelled.
- The `integer_encoding` crate: unsigned integers are LEB128 and signed ones zigzag. Its decoders' limit on the number of bytes read is not modelled, nor is the width of `usize`.
- The LRU cache's capacity and eviction order: the cache may drop any entries at every insertion, so every result holds for all of them.
- Locks, `Arc`, cloning of database handles and threads: one caller at a time.
- The RocksDB and Sled backends: the database is the in-memory one seen through a prefix, as `build_prefixed_stores` makes it. Of a tree on a bare `MemDB` only `BareVersions` is modelled.
- `BTreeMap`, `HashMap`, `HashSet` and `sort` of the standard library: sorted lists, maps and sets, an insertion sort, and an arbitrary order where the source iterates over an unordered set.
- The orphan list of `recursive_remove`: collected and never used.
- Versions and sizes beyond `u32`: `set`, `remove` and `save_version` are taken with a loaded version below the largest `u32`, and `set` where the number of leaves stays a `u32`; the source would overflow.
- Two trees writing the same database at once: a second handle would not see the first one's versions.
- Bounds on which `BTreeMap::range` panics: `StoreRange.Range` is taken with bounds it accepts.
- The `Range` enum of kv_store/src/range.rs and the gas-metered ranges: wrappers around the two iterators.
- `trees/src/iavl/tree_v3.rs` and the `draw` module: a prototype and a drawing aid.
- Multi-store banks, transaction caches and gas meters: `TakeBlockCache` takes the block caches and the stores as two lists indexed by store, and `AppHash` takes the stores a commit has saved as a list of names and trees.
- Keepers, handlers, the node, client and key management: not part of the storage layer.
- StoreCommit.Commit: takes the trees the loop goes through as a ghost argument; `TraceExists` provides them and `TraceUnique` says that they are the only ones. Where the source aborts because `save_version` refused, the model returns the refusal.
- Runs.NextKeeps: a run may write the nodes of the working tree in any order that has children first, and may be cut off anywhere; the order the source uses is `RecursiveTreeSave`.
