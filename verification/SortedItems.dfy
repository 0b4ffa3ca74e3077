/** Key-value lists in strictly increasing key order: what a `BTreeMap<Vec<u8>, Vec<u8>>`
    iterates over, and what the leaves of an IAVL tree spell from left to right. */
module SortedItems {
  import opened Bytes
  import opened Options

  datatype Item = Item(key: bytes, value: bytes)

  ghost predicate Sorted(s: seq<Item>) {
    forall i, j :: 0 <= i < j < |s| ==> Less(s[i].key, s[j].key)
  }

  ghost predicate AllBelow(s: seq<Item>, k: bytes) {
    forall i :: 0 <= i < |s| ==> Less(s[i].key, k)
  }

  ghost predicate AllFrom(s: seq<Item>, k: bytes) {
    forall i :: 0 <= i < |s| ==> !Less(s[i].key, k)
  }

  ghost predicate HasKey(s: seq<Item>, k: bytes) {
    exists i :: 0 <= i < |s| && s[i].key == k
  }

  /** The map a sorted list stands for. */
  ghost function ToMap(s: seq<Item>): map<bytes, bytes> {
    if s == [] then map[] else ToMap(s[1..])[s[0].key := s[0].value]
  }

  function Find(s: seq<Item>, k: bytes): Option<bytes> {
    if s == [] then None
    else if s[0].key == k then Some(s[0].value)
    else Find(s[1..], k)
  }

  function Insert(s: seq<Item>, k: bytes, v: bytes): seq<Item> {
    if s == [] || Less(k, s[0].key) then [Item(k, v)] + s
    else if s[0].key == k then [Item(k, v)] + s[1..]
    else [s[0]] + Insert(s[1..], k, v)
  }

  function Delete(s: seq<Item>, k: bytes): seq<Item> {
    if s == [] then []
    else if s[0].key == k then s[1..]
    else [s[0]] + Delete(s[1..], k)
  }

  // ---------- lists and maps ----------

  lemma {:induction false} ToMapHas(s: seq<Item>, k: bytes)
    ensures k in ToMap(s) <==> HasKey(s, k)
  {
    if s == [] {
    } else {
      ToMapHas(s[1..], k);
      if HasKey(s[1..], k) {
        var i :| 0 <= i < |s[1..]| && s[1..][i].key == k;
        assert s[i + 1].key == k;
      }
      if HasKey(s, k) && s[0].key != k {
        var i :| 0 <= i < |s| && s[i].key == k;
        assert s[1..][i - 1].key == k;
      }
    }
  }

  lemma {:induction false} FindIsLookup(s: seq<Item>, k: bytes)
    ensures Find(s, k) == if k in ToMap(s) then Some(ToMap(s)[k]) else None
  {
    if s == [] {
    } else {
      FindIsLookup(s[1..], k);
    }
  }

  lemma {:induction false} InsertToMap(s: seq<Item>, k: bytes, v: bytes)
    ensures ToMap(Insert(s, k, v)) == ToMap(s)[k := v]
  {
    var r := Insert(s, k, v);
    if s == [] || Less(k, s[0].key) {
      assert r[1..] == s;
    } else if s[0].key == k {
      assert r[1..] == s[1..];
    } else {
      InsertToMap(s[1..], k, v);
      assert r[1..] == Insert(s[1..], k, v);
    }
  }

  lemma NotBelowFirst(s: seq<Item>, k: bytes)
    requires Sorted(s) && s != [] && Less(k, s[0].key)
    ensures !HasKey(s, k)
  {
    LessAsymmetric(k, s[0].key);
    forall i | 0 <= i < |s| ensures s[i].key != k {
      if i > 0 { LessTransitive(k, s[0].key, s[i].key); LessIrreflexive(k); }
    }
  }

  lemma HasKeyTail(s: seq<Item>, k: bytes)
    requires s != [] && s[0].key != k
    ensures HasKey(s, k) <==> HasKey(s[1..], k)
  {
    if HasKey(s[1..], k) {
      var i :| 0 <= i < |s[1..]| && s[1..][i].key == k;
      assert s[i + 1].key == k;
    }
    if HasKey(s, k) {
      var i :| 0 <= i < |s| && s[i].key == k;
      assert s[1..][i - 1].key == k;
    }
  }

  lemma {:induction false} InsertLength(s: seq<Item>, k: bytes, v: bytes)
    requires Sorted(s)
    ensures |Insert(s, k, v)| == |s| + if HasKey(s, k) then 0 else 1
  {
    if s == [] {
    } else if Less(k, s[0].key) {
      NotBelowFirst(s, k);
    } else if s[0].key == k {
    } else {
      InsertLength(s[1..], k, v);
      HasKeyTail(s, k);
    }
  }

  lemma {:induction false} InsertSorted(s: seq<Item>, k: bytes, v: bytes)
    requires Sorted(s)
    ensures Sorted(Insert(s, k, v))
    ensures forall k0 :: (forall i :: 0 <= i < |s| ==> Less(k0, s[i].key)) && Less(k0, k)
                         ==> forall i :: 0 <= i < |Insert(s, k, v)| ==> Less(k0, Insert(s, k, v)[i].key)
  {
    if s == [] {
    } else if Less(k, s[0].key) {
      forall i | 0 <= i < |s| ensures Less(k, s[i].key) {
        if i > 0 { LessTransitive(k, s[0].key, s[i].key); }
      }
    } else if s[0].key == k {
    } else {
      InsertSorted(s[1..], k, v);
      LessTotal(s[0].key, k);
      forall i | 0 <= i < |s[1..]| ensures Less(s[0].key, s[1..][i].key) {
        assert s[1..][i] == s[i + 1];
      }
      var r := Insert(s[1..], k, v);
      assert forall i :: 0 <= i < |r| ==> Less(s[0].key, r[i].key);
      forall k0 | (forall i :: 0 <= i < |s| ==> Less(k0, s[i].key)) && Less(k0, k)
        ensures forall i :: 0 <= i < |r| ==> Less(k0, r[i].key)
      {
        assert forall i :: 0 <= i < |s[1..]| ==> Less(k0, s[1..][i].key);
      }
    }
  }

  /** Inserting into a sorted list keeps it sorted and updates exactly one binding. */
  lemma {:induction false} InsertIsUpdate(s: seq<Item>, k: bytes, v: bytes)
    requires Sorted(s)
    ensures Sorted(Insert(s, k, v))
    ensures ToMap(Insert(s, k, v)) == ToMap(s)[k := v]
    ensures forall k' :: HasKey(Insert(s, k, v), k') <==> k' == k || HasKey(s, k')
    ensures |Insert(s, k, v)| == |s| + if HasKey(s, k) then 0 else 1
  {
    InsertSorted(s, k, v);
    InsertToMap(s, k, v);
    InsertLength(s, k, v);
    forall k' ensures HasKey(Insert(s, k, v), k') <==> k' == k || HasKey(s, k') {
      ToMapHas(Insert(s, k, v), k');
      ToMapHas(s, k');
    }
  }

  lemma {:induction false} DeleteSorted(s: seq<Item>, k: bytes)
    requires Sorted(s)
    ensures Sorted(Delete(s, k))
    ensures forall i :: 0 <= i < |Delete(s, k)| ==> Delete(s, k)[i] in s
  {
    if s != [] && s[0].key != k {
      DeleteSorted(s[1..], k);
      var r := Delete(s[1..], k);
      forall i | 0 <= i < |r| ensures r[i] in s && Less(s[0].key, r[i].key) {
        assert r[i] in s[1..];
        var j :| 0 <= j < |s[1..]| && s[1..][j] == r[i];
        assert s[j + 1] == r[i];
      }
    }
  }

  lemma FirstOnce(a: seq<Item>)
    requires Sorted(a) && a != []
    ensures a[0].key !in ToMap(a[1..])
  {
    ToMapHas(a[1..], a[0].key);
    LessIrreflexive(a[0].key);
    forall i | 0 <= i < |a[1..]| ensures a[1..][i].key != a[0].key {
      assert Less(a[0].key, a[i + 1].key);
    }
  }

  lemma {:induction false} DeleteToMap(s: seq<Item>, k: bytes)
    requires Sorted(s)
    ensures ToMap(Delete(s, k)) == ToMap(s) - {k}
  {
    if s == [] {
    } else if s[0].key == k {
      FirstOnce(s);
    } else {
      DeleteToMap(s[1..], k);
      assert Delete(s, k)[1..] == Delete(s[1..], k);
    }
  }

  lemma {:induction false} DeleteLength(s: seq<Item>, k: bytes)
    ensures |Delete(s, k)| == |s| - if HasKey(s, k) then 1 else 0
  {
    if s != [] && s[0].key != k {
      DeleteLength(s[1..], k);
      HasKeyTail(s, k);
    }
  }

  lemma {:induction false} DeleteAbsent(s: seq<Item>, k: bytes)
    requires forall i :: 0 <= i < |s| ==> s[i].key != k
    ensures Delete(s, k) == s
  {
    if s == [] {
    } else {
      DeleteAbsent(s[1..], k);
    }
  }

  /** Deleting from a sorted list keeps it sorted and removes exactly one binding. */
  lemma DeleteIsRemoval(s: seq<Item>, k: bytes)
    requires Sorted(s)
    ensures Sorted(Delete(s, k))
    ensures ToMap(Delete(s, k)) == ToMap(s) - {k}
    ensures |Delete(s, k)| == |s| - if HasKey(s, k) then 1 else 0
    ensures !HasKey(s, k) ==> Delete(s, k) == s
  {
    DeleteSorted(s, k);
    DeleteToMap(s, k);
    DeleteLength(s, k);
    if !HasKey(s, k) { DeleteAbsent(s, k); }
  }

  // ---------- cutting at a key ----------

  lemma {:induction false} FindAbsent(s: seq<Item>, k: bytes)
    requires forall i :: 0 <= i < |s| ==> s[i].key != k
    ensures Find(s, k) == None
  {
    if s == [] {
    } else {
      FindAbsent(s[1..], k);
    }
  }

  lemma {:induction false} FindSplit(a: seq<Item>, b: seq<Item>, pivot: bytes, k: bytes)
    requires AllBelow(a, pivot) && AllFrom(b, pivot)
    ensures Find(a + b, k) == if Less(k, pivot) then Find(a, k) else Find(b, k)
  {
    if a == [] {
      assert a + b == b;
      if Less(k, pivot) { FindAbsent(b, k); }
    } else {
      assert (a + b)[1..] == a[1..] + b;
      FindSplit(a[1..], b, pivot, k);
    }
  }

  lemma {:induction false} InsertInFront(a: seq<Item>, b: seq<Item>, k: bytes, v: bytes)
    requires b != [] && Less(k, b[0].key)
    ensures Insert(a + b, k, v) == Insert(a, k, v) + b
  {
    if a == [] {
      assert a + b == b;
    } else {
      assert (a + b)[1..] == a[1..] + b && (a + b)[0] == a[0];
      InsertInFront(a[1..], b, k, v);
    }
  }

  lemma {:induction false} InsertBehind(a: seq<Item>, b: seq<Item>, pivot: bytes, k: bytes, v: bytes)
    requires AllBelow(a, pivot) && !Less(k, pivot)
    ensures Insert(a + b, k, v) == a + Insert(b, k, v)
  {
    if a == [] {
      assert a + b == b;
    } else {
      assert (a + b)[1..] == a[1..] + b && (a + b)[0] == a[0];
      InsertBehind(a[1..], b, pivot, k, v);
      assert Less(a[0].key, pivot);
      if Less(k, a[0].key) { LessTransitive(k, a[0].key, pivot); }
      assert [a[0]] + (a[1..] + Insert(b, k, v)) == a + Insert(b, k, v);
    }
  }

  lemma InsertSplit(a: seq<Item>, b: seq<Item>, pivot: bytes, k: bytes, v: bytes)
    requires AllBelow(a, pivot) && AllFrom(b, pivot) && b != [] && b[0].key == pivot
    ensures Insert(a + b, k, v) == if Less(k, pivot) then Insert(a, k, v) + b else a + Insert(b, k, v)
  {
    if Less(k, pivot) { InsertInFront(a, b, k, v); } else { InsertBehind(a, b, pivot, k, v); }
  }

  lemma {:induction false} DeleteInFront(a: seq<Item>, b: seq<Item>, k: bytes)
    requires forall i :: 0 <= i < |b| ==> b[i].key != k
    ensures Delete(a + b, k) == Delete(a, k) + b
  {
    if a == [] {
      assert a + b == b;
      DeleteAbsent(b, k);
    } else {
      assert (a + b)[1..] == a[1..] + b && (a + b)[0] == a[0];
      DeleteInFront(a[1..], b, k);
    }
  }

  lemma {:induction false} DeleteBehind(a: seq<Item>, b: seq<Item>, k: bytes)
    requires forall i :: 0 <= i < |a| ==> a[i].key != k
    ensures Delete(a + b, k) == a + Delete(b, k)
  {
    if a == [] {
      assert a + b == b;
    } else {
      assert (a + b)[1..] == a[1..] + b && (a + b)[0] == a[0];
      DeleteBehind(a[1..], b, k);
    }
  }

  lemma DeleteSplit(a: seq<Item>, b: seq<Item>, pivot: bytes, k: bytes)
    requires AllBelow(a, pivot) && AllFrom(b, pivot)
    ensures Delete(a + b, k) == if Less(k, pivot) then Delete(a, k) + b else a + Delete(b, k)
  {
    if Less(k, pivot) { DeleteInFront(a, b, k); } else { DeleteBehind(a, b, k); }
  }

  lemma {:induction false} SortedSplit(a: seq<Item>, b: seq<Item>)
    requires Sorted(a + b) && b != []
    ensures Sorted(a) && Sorted(b) && AllBelow(a, b[0].key) && AllFrom(b, b[0].key)
  {
    assert forall i :: 0 <= i < |a| ==> (a + b)[i] == a[i];
    forall i, j | 0 <= i < j < |b| ensures Less(b[i].key, b[j].key) {
      assert (a + b)[|a| + i] == b[i] && (a + b)[|a| + j] == b[j];
    }
    assert (a + b)[|a|] == b[0];
    forall i | 0 <= i < |b| ensures !Less(b[i].key, b[0].key) {
      if i == 0 { LessIrreflexive(b[0].key); } else { LessAsymmetric(b[0].key, b[i].key); }
    }
  }

  lemma EmptyMap(s: seq<Item>)
    ensures ToMap(s) == map[] <==> s == []
  {
    if s != [] { assert s[0].key in ToMap(s); }
  }

  lemma SameFirst(a: seq<Item>, b: seq<Item>)
    requires Sorted(a) && Sorted(b) && a != [] && b != [] && ToMap(a) == ToMap(b)
    ensures a[0].key == b[0].key
  {
    ToMapHas(a, a[0].key);
    ToMapHas(b, a[0].key);
    ToMapHas(a, b[0].key);
    ToMapHas(b, b[0].key);
    assert a[0].key == a[0].key && b[0].key == b[0].key;
    var i :| 0 <= i < |b| && b[i].key == a[0].key;
    var j :| 0 <= j < |a| && a[j].key == b[0].key;
    if i > 0 && j > 0 {
      LessAsymmetric(a[0].key, b[0].key);
    }
  }

  /** Two sorted lists with the same map are the same list. */
  lemma {:induction false} SortedUnique(a: seq<Item>, b: seq<Item>)
    requires Sorted(a) && Sorted(b) && ToMap(a) == ToMap(b)
    ensures a == b
  {
    EmptyMap(a);
    EmptyMap(b);
    if a != [] && b != [] {
      SameFirst(a, b);
      FindIsLookup(a, a[0].key);
      FindIsLookup(b, a[0].key);
      assert a[0] == b[0];
      FirstOnce(a);
      FirstOnce(b);
      assert ToMap(a[1..]) == ToMap(a) - {a[0].key};
      assert ToMap(b[1..]) == ToMap(b) - {a[0].key};
      SortedUnique(a[1..], b[1..]);
      assert a == [a[0]] + a[1..] && b == [b[0]] + b[1..];
    }
  }
}
