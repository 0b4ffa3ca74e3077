/** The names of the stores, and the independence of the views of one database they stand for. */
module StoreKeys {
  import opened Bytes
  import opened Options
  import opened SortedItems
  import opened Prefixes
  import opened Database

  datatype KeyError = EmptyKey(index: nat) | PrefixOfAnother(index: nat, other: bytes)

  /** Empty, or nothing but spaces. */
  predicate Blank(name: bytes) {
    forall i :: 0 <= i < |name| ==> name[i] == 32
  }

  /** A name with its spaces taken out. */
  ghost function WithoutSpaces(name: bytes): bytes {
    if name == [] then []
    else (if name[0] == ' ' as int then [] else [name[0]]) + WithoutSpaces(name[1..])
  }

  lemma {:induction false} BlankIff(name: bytes)
    ensures Blank(name) <==> WithoutSpaces(name) == []
  {
    if name == [] {
    } else {
      BlankIff(name[1..]);
      assert Blank(name) <==> name[0] == 32 && Blank(name[1..]) by {
        if name[0] == 32 && Blank(name[1..]) {
          forall i | 0 <= i < |name| ensures name[i] == 32 {
            if i > 0 { assert name[1..][i - 1] == 32; }
          }
        }
      }
    }
  }

  /** The test the derive macro makes of a name seen before against the next one. */
  predicate Conflicts(seen: bytes, name: bytes) {
    if |seen| < |name| then StartsWith(name, seen)
    else if |seen| == |name| then seen == name
    else StartsWith(seen, name)
  }

  lemma ConflictsIffNotApart(p: bytes, q: bytes)
    ensures Conflicts(p, q) <==> !Apart(p, q)
  {
  }

  ghost predicate PairwiseApart(names: seq<bytes>) {
    forall i, j :: 0 <= i < j < |names| ==> Apart(names[i], names[j])
  }

  /** The error names the first name that cannot stay, and why: it is blank, or it and an earlier name
      are not apart. */
  ghost predicate Refuses(names: seq<bytes>, e: KeyError) {
    && e.index < |names|
    && PairwiseApart(names[..e.index]) && (forall i :: 0 <= i < e.index ==> !Blank(names[i]))
    && match e {
      case EmptyKey(n) => Blank(names[n])
      case PrefixOfAnother(n, other) => !Blank(names[n]) && other in names[..n] && !Apart(other, names[n])
    }
  }

  /** The loop of `expand_store`: it accepts exactly the lists of non-blank names none of which is
      a prefix of another. */
  method ExpandStore(names: seq<bytes>) returns (r: Result<set<bytes>, KeyError>)
    ensures r.Ok? <==> PairwiseApart(names) && forall i :: 0 <= i < |names| ==> !Blank(names[i])
    ensures r.Ok? ==> r.value == set i | 0 <= i < |names| :: names[i]
    ensures r.Err? ==> Refuses(names, r.error)
  {
    var seen: set<bytes> := {};
    for n := 0 to |names|
      invariant seen == set i | 0 <= i < n :: names[i]
      invariant PairwiseApart(names[..n]) && forall i :: 0 <= i < n ==> !Blank(names[i])
    {
      var name := names[n];
      if Blank(name) { return Err(EmptyKey(n)); }
      if other :| other in seen && Conflicts(other, name) {
        ConflictsIffNotApart(other, name);
        return Err(PrefixOfAnother(n, other));
      }
      forall i | 0 <= i < n ensures Apart(names[i], name) {
        assert names[i] in seen;
        ConflictsIffNotApart(names[i], name);
      }
      seen := seen + {name};
    }
    assert names[..|names|] == names;
    r := Ok(seen);
  }

  /** `build_prefixed_stores`: one view of the database for each store. */
  method BuildPrefixedStores(db: MemDB, names: seq<bytes>) returns (stores: map<nat, PrefixDB>)
    ensures forall i: nat :: i in stores <==> i < |names|
    ensures forall i :: 0 <= i < |names| ==> stores[i] == PrefixDB(db, names[i])
  {
    stores := map[];
    for n := 0 to |names|
      invariant forall i: nat :: i in stores <==> i < n
      invariant forall i :: 0 <= i < n ==> stores[i] == PrefixDB(db, names[i])
    {
      stores := stores[n := PrefixDB(db, names[n])];
    }
  }

  /** A write through the view of one store. */
  datatype Write = Write(store: nat, key: bytes, value: bytes)

  /** The shared database after some writes. */
  ghost function Shared(s: seq<Item>, names: seq<bytes>, writes: seq<Write>): seq<Item>
    requires forall w :: w in writes ==> w.store < |names|
  {
    if writes == [] then s
    else
      var w := writes[|writes| - 1];
      Insert(Shared(s, names, writes[..|writes| - 1]), names[w.store] + w.key, w.value)
  }

  /** One store's map after its own writes alone. */
  ghost function Own(m: map<bytes, bytes>, i: nat, writes: seq<Write>): map<bytes, bytes> {
    if writes == [] then m
    else
      var w := writes[|writes| - 1];
      var before := Own(m, i, writes[..|writes| - 1]);
      if w.store == i then before[w.key := w.value] else before
  }

  /** The views of an accepted list of names behave as separate maps: after any writes through any of
      them, each holds what its own writes alone would have left in it. */
  lemma {:induction false} StoresAreIndependent(s: seq<Item>, names: seq<bytes>, writes: seq<Write>, i: nat)
    requires Sorted(s) && PairwiseApart(names) && i < |names|
    requires forall w :: w in writes ==> w.store < |names|
    ensures Sorted(Shared(s, names, writes))
    ensures ToMap(Stripped(Shared(s, names, writes), names[i])) == Own(ToMap(Stripped(s, names[i])), i, writes)
  {
    if writes == [] {
    } else {
      var w := writes[|writes| - 1];
      var init := writes[..|writes| - 1];
      StoresAreIndependent(s, names, init, i);
      var before := Shared(s, names, init);
      InsertSorted(before, names[w.store] + w.key, w.value);
      if w.store == i {
        StrippedInsert(before, names[i], w.key, w.value);
        InsertToMap(Stripped(before, names[i]), w.key, w.value);
      } else {
        StrippedApart(before, names[i], names[w.store], w.key, w.value);
      }
    }
  }

  /** Being apart is what independence takes: when one name is a prefix of another, every write
      through the longer one shows up in the view of the shorter. */
  lemma PrefixLeaks(s: seq<Item>, p: bytes, q: bytes, k: bytes, v: bytes)
    requires Sorted(s) && StartsWith(q, p)
    ensures Find(Stripped(Insert(s, q + k, v), p), q[|p|..] + k) == Some(v)
  {
    assert p + (q[|p|..] + k) == q + k;
    FindStripped(Insert(s, q + k, v), p, q[|p|..] + k);
    InsertToMap(s, q + k, v);
    FindIsLookup(Insert(s, q + k, v), q + k);
  }
}
