/** The double-ended merge of a cache's entries with a tree's. */
module MergedRange {
  import opened Bytes
  import opened Options
  import opened SortedItems

  /** The sorted union of two lists, the first overriding the second. */
  ghost function Union(a: seq<Item>, b: seq<Item>): seq<Item> {
    if a == [] then b else Insert(Union(a[1..], b), a[0].key, a[0].value)
  }

  lemma OverlayA(ma: map<bytes, bytes>, mb: map<bytes, bytes>, k: bytes, v: bytes)
    ensures mb + ma[k := v] == (mb + ma)[k := v]
  {
  }

  /** The union is the sorted list of the overlaid map, and the only one. */
  lemma {:induction false} UnionIsOverlay(a: seq<Item>, b: seq<Item>)
    requires Sorted(b)
    ensures Sorted(Union(a, b)) && ToMap(Union(a, b)) == ToMap(b) + ToMap(a)
  {
    if a == [] {
    } else {
      UnionIsOverlay(a[1..], b);
      OverlayA(ToMap(a[1..]), ToMap(b), a[0].key, a[0].value);
      InsertIsUpdate(Union(a[1..], b), a[0].key, a[0].value);
    }
  }

  lemma UnionUnique(a: seq<Item>, b: seq<Item>, s: seq<Item>)
    requires Sorted(b) && Sorted(s) && ToMap(s) == ToMap(b) + ToMap(a)
    ensures Union(a, b) == s
  {
    UnionIsOverlay(a, b);
    SortedUnique(Union(a, b), s);
  }

  lemma {:induction false} ToMapAppend(s: seq<Item>, x: Item)
    requires !HasKey(s, x.key)
    ensures ToMap(s + [x]) == ToMap(s)[x.key := x.value]
  {
    if s == [] {
      assert s + [x] == [x] && [x][1..] == [];
    } else {
      assert (s + [x])[1..] == s[1..] + [x];
      forall i | 0 <= i < |s[1..]| ensures s[1..][i].key != x.key { assert s[1..][i] == s[i + 1]; }
      ToMapAppend(s[1..], x);
      assert s[0].key != x.key;
    }
  }

  lemma LastOnce(s: seq<Item>)
    requires Sorted(s) && s != []
    ensures var init, last := s[..|s| - 1], s[|s| - 1];
      Sorted(init) && !HasKey(init, last.key) && ToMap(s) == ToMap(init)[last.key := last.value]
  {
    var init, last := s[..|s| - 1], s[|s| - 1];
    forall i | 0 <= i < |init| ensures init[i].key != last.key { LessIrreflexive(last.key); }
    ToMapAppend(init, last);
    assert s == init + [last];
  }

  /** Taking the entry with the least key off the overlaid map takes the front off the union. */
  lemma TakesFront(a: seq<Item>, b: seq<Item>, a': seq<Item>, b': seq<Item>, x: Item)
    requires Sorted(b) && Sorted(b')
    requires ToMap(b) + ToMap(a) == (ToMap(b') + ToMap(a'))[x.key := x.value]
    requires forall k :: k in ToMap(b') + ToMap(a') ==> Less(x.key, k)
    ensures Union(a, b) == [x] + Union(a', b')
  {
    var u := Union(a', b');
    UnionIsOverlay(a', b');
    forall i | 0 <= i < |u| ensures Less(x.key, u[i].key) { ToMapHas(u, u[i].key); }
    assert ([x] + u)[1..] == u;
    UnionUnique(a, b, [x] + u);
  }

  lemma TakesBack(a: seq<Item>, b: seq<Item>, a': seq<Item>, b': seq<Item>, x: Item)
    requires Sorted(b) && Sorted(b')
    requires ToMap(b) + ToMap(a) == (ToMap(b') + ToMap(a'))[x.key := x.value]
    requires forall k :: k in ToMap(b') + ToMap(a') ==> Less(k, x.key)
    ensures Union(a, b) == Union(a', b') + [x]
  {
    var u := Union(a', b');
    UnionIsOverlay(a', b');
    forall i | 0 <= i < |u| ensures Less(u[i].key, x.key) { ToMapHas(u, u[i].key); }
    LessIrreflexive(x.key);
    ToMapAppend(u, x);
    UnionUnique(a, b, u + [x]);
  }

  lemma TailOnce(s: seq<Item>)
    requires Sorted(s) && s != []
    ensures Sorted(s[1..]) && ToMap(s) == ToMap(s[1..])[s[0].key := s[0].value]
    ensures forall k :: k in ToMap(s[1..]) ==> Less(s[0].key, k)
  {
    forall k | k in ToMap(s[1..]) ensures Less(s[0].key, k) { ToMapHas(s[1..], k); }
  }

  lemma FromFirst(s: seq<Item>, low: bytes)
    requires Sorted(s) && (s != [] ==> Less(low, s[0].key))
    ensures forall k :: k in ToMap(s) ==> Less(low, k)
  {
    forall k | k in ToMap(s) ensures Less(low, k) {
      ToMapHas(s, k);
      var i :| 0 <= i < |s| && s[i].key == k;
      if i > 0 { LessTransitive(low, s[0].key, k); }
    }
  }

  lemma InitOnce(s: seq<Item>)
    requires Sorted(s) && s != []
    ensures var init, last := s[..|s| - 1], s[|s| - 1];
      Sorted(init) && ToMap(s) == ToMap(init)[last.key := last.value]
      && forall k :: k in ToMap(init) ==> Less(k, last.key)
  {
    LastOnce(s);
    var init, last := s[..|s| - 1], s[|s| - 1];
    forall k | k in ToMap(init) ensures Less(k, last.key) { ToMapHas(init, k); }
  }

  lemma ToLast(s: seq<Item>, high: bytes)
    requires Sorted(s) && (s != [] ==> Less(s[|s| - 1].key, high))
    ensures forall k :: k in ToMap(s) ==> Less(k, high)
  {
    forall k | k in ToMap(s) ensures Less(k, high) {
      ToMapHas(s, k);
      var i :| 0 <= i < |s| && s[i].key == k;
      if i < |s| - 1 { LessTransitive(k, s[|s| - 1].key, high); }
    }
  }

  lemma OverlayB(ma: map<bytes, bytes>, mb: map<bytes, bytes>, k: bytes, v: bytes)
    requires k !in ma
    ensures mb[k := v] + ma == (mb + ma)[k := v]
  {
  }

  lemma OverlayBoth(ma: map<bytes, bytes>, mb: map<bytes, bytes>, k: bytes, v: bytes, w: bytes)
    ensures mb[k := w] + ma[k := v] == (mb + ma)[k := v]
  {
  }

  // What each branch of `next` and `next_back` takes off the union.

  lemma FrontA(a: seq<Item>, b: seq<Item>)
    requires Sorted(a) && Sorted(b) && a != [] && (b != [] ==> Less(a[0].key, b[0].key))
    ensures Union(a, b) == [a[0]] + Union(a[1..], b)
  {
    TailOnce(a);
    FromFirst(b, a[0].key);
    OverlayA(ToMap(a[1..]), ToMap(b), a[0].key, a[0].value);
    TakesFront(a, b, a[1..], b, a[0]);
  }

  lemma FrontB(a: seq<Item>, b: seq<Item>)
    requires Sorted(a) && Sorted(b) && b != [] && (a != [] ==> Less(b[0].key, a[0].key))
    ensures Union(a, b) == [b[0]] + Union(a, b[1..])
  {
    TailOnce(b);
    FromFirst(a, b[0].key);
    if b[0].key in ToMap(a) { LessIrreflexive(b[0].key); }
    OverlayB(ToMap(a), ToMap(b[1..]), b[0].key, b[0].value);
    TakesFront(a, b, a, b[1..], b[0]);
  }

  lemma FrontBoth(a: seq<Item>, b: seq<Item>)
    requires Sorted(a) && Sorted(b) && a != [] && b != [] && a[0].key == b[0].key
    ensures Union(a, b) == [a[0]] + Union(a[1..], b[1..])
  {
    TailOnce(a);
    TailOnce(b);
    OverlayBoth(ToMap(a[1..]), ToMap(b[1..]), a[0].key, a[0].value, b[0].value);
    TakesFront(a, b, a[1..], b[1..], a[0]);
  }

  lemma BackA(a: seq<Item>, b: seq<Item>)
    requires Sorted(a) && Sorted(b) && a != [] && (b != [] ==> Less(b[|b| - 1].key, a[|a| - 1].key))
    ensures Union(a, b) == Union(a[..|a| - 1], b) + [a[|a| - 1]]
  {
    InitOnce(a);
    ToLast(b, a[|a| - 1].key);
    OverlayA(ToMap(a[..|a| - 1]), ToMap(b), a[|a| - 1].key, a[|a| - 1].value);
    TakesBack(a, b, a[..|a| - 1], b, a[|a| - 1]);
  }

  lemma BackB(a: seq<Item>, b: seq<Item>)
    requires Sorted(a) && Sorted(b) && b != [] && (a != [] ==> Less(a[|a| - 1].key, b[|b| - 1].key))
    ensures Union(a, b) == Union(a, b[..|b| - 1]) + [b[|b| - 1]]
  {
    InitOnce(b);
    ToLast(a, b[|b| - 1].key);
    if b[|b| - 1].key in ToMap(a) { LessIrreflexive(b[|b| - 1].key); }
    OverlayB(ToMap(a), ToMap(b[..|b| - 1]), b[|b| - 1].key, b[|b| - 1].value);
    TakesBack(a, b, a, b[..|b| - 1], b[|b| - 1]);
  }

  lemma BackBoth(a: seq<Item>, b: seq<Item>)
    requires Sorted(a) && Sorted(b) && a != [] && b != [] && a[|a| - 1].key == b[|b| - 1].key
    ensures Union(a, b) == Union(a[..|a| - 1], b[..|b| - 1]) + [a[|a| - 1]]
  {
    InitOnce(a);
    InitOnce(b);
    OverlayBoth(ToMap(a[..|a| - 1]), ToMap(b[..|b| - 1]), a[|a| - 1].key, a[|a| - 1].value, b[|b| - 1].value);
    TakesBack(a, b, a[..|a| - 1], b[..|b| - 1], a[|a| - 1]);
  }

  /** A deque: what one call takes, from the front or the back, and what it leaves. */
  ghost function Take(s: seq<Item>, front: bool): (Option<Item>, seq<Item>) {
    if s == [] then (None, [])
    else if front then (Some(s[0]), s[1..])
    else (Some(s[|s| - 1]), s[..|s| - 1])
  }

  ghost function Optional(o: Option<Item>): seq<Item> {
    if o.None? then [] else [o.value]
  }

  /** What a series of calls takes at the front, in the order taken. */
  ghost function Fronts(s: seq<Item>, calls: seq<bool>): seq<Item> {
    if calls == [] then []
    else
      var (r, rest) := Take(s, calls[0]);
      (if calls[0] then Optional(r) else []) + Fronts(rest, calls[1..])
  }

  /** What it takes at the back, the last taken first. */
  ghost function Backs(s: seq<Item>, calls: seq<bool>): seq<Item> {
    if calls == [] then []
    else
      var (r, rest) := Take(s, calls[0]);
      Backs(rest, calls[1..]) + (if calls[0] then [] else Optional(r))
  }

  /** What a series of calls yields, call by call, when the two ends take from the same items: what a
      double-ended iterator should. */
  ghost function OneQueue(s: seq<Item>, calls: seq<bool>): seq<Option<Item>> {
    if calls == [] then [] else [Take(s, calls[0]).0] + OneQueue(Take(s, calls[0]).1, calls[1..])
  }

  /** What is left afterwards. */
  ghost function Left(s: seq<Item>, calls: seq<bool>): seq<Item> {
    if calls == [] then s else Left(Take(s, calls[0]).1, calls[1..])
  }

  lemma EndsMeetStep(s: seq<Item>, front: bool, f: seq<Item>, l: seq<Item>, b: seq<Item>)
    requires Take(s, front).1 == f + l + b
    ensures var o := Optional(Take(s, front).0);
      s == if front then o + f + l + b else f + l + (b + o)
  {
  }

  /** Calls to the two ends in any order meet in the middle: every entry comes out once, from one
      end or the other, and none is left once there were as many calls as entries. */
  lemma {:induction false} EndsMeet(s: seq<Item>, calls: seq<bool>)
    ensures s == Fronts(s, calls) + Left(s, calls) + Backs(s, calls)
    ensures |calls| >= |s| ==> Left(s, calls) == []
  {
    if calls == [] {
    } else {
      var (r, rest) := Take(s, calls[0]);
      EndsMeet(rest, calls[1..]);
      EndsMeetStep(s, calls[0], Fronts(rest, calls[1..]), Left(rest, calls[1..]), Backs(rest, calls[1..]));
    }
  }

  class MergedRange {
    var a: seq<Item>
    var b: seq<Item>

    ghost predicate Valid()
      reads this
    {
      Sorted(a) && Sorted(b)
    }

    /** What is still to come: the union of the two queues. */
    ghost function Remaining(): seq<Item>
      reads this
    {
      Union(a, b)
    }

    constructor Merge(a: seq<Item>, b: seq<Item>)
      requires Sorted(a) && Sorted(b)
      ensures Valid() && Remaining() == Union(a, b)
    {
      this.a, this.b := a, b;
    }

    /** Takes the first entry of what is still to come, each key once, until nothing is left. */
    method Next() returns (r: Option<Item>)
      requires Valid()
      modifies this
      ensures Valid()
      ensures (r, Remaining()) == Take(old(Remaining()), true)
    {
      if a != [] {
        if b != [] {
          if Less(a[0].key, b[0].key) {
            FrontA(a, b);
            r, a := Some(a[0]), a[1..];
          } else if a[0].key == b[0].key {
            FrontBoth(a, b);
            r, a, b := Some(a[0]), a[1..], b[1..];
          } else {
            LessTotal(a[0].key, b[0].key);
            FrontB(a, b);
            r, b := Some(b[0]), b[1..];
          }
        } else {
          FrontA(a, b);
          r, a := Some(a[0]), a[1..];
        }
      } else if b != [] {
        FrontB(a, b);
        r, b := Some(b[0]), b[1..];
      } else {
        r := None;
      }
    }

    /** Takes the last entry of what is still to come. */
    method NextBack() returns (r: Option<Item>)
      requires Valid()
      modifies this
      ensures Valid()
      ensures (r, Remaining()) == Take(old(Remaining()), false)
    {
      if a != [] {
        var lastA := a[|a| - 1];
        if b != [] {
          var lastB := b[|b| - 1];
          if Less(lastB.key, lastA.key) {
            BackA(a, b);
            r, a := Some(lastA), a[..|a| - 1];
          } else if lastA.key == lastB.key {
            BackBoth(a, b);
            r, a, b := Some(lastA), a[..|a| - 1], b[..|b| - 1];
          } else {
            LessTotal(lastA.key, lastB.key);
            BackB(a, b);
            r, b := Some(lastB), b[..|b| - 1];
          }
        } else {
          BackA(a, b);
          r, a := Some(lastA), a[..|a| - 1];
        }
      } else if b != [] {
        BackB(a, b);
        r, b := Some(b[|b| - 1]), b[..|b| - 1];
      } else {
        r := None;
      }
    }
  }

  /** Any series of calls to the two ends of a merge, `true` for `next`, goes through the sorted union
      as one double-ended iterator. */
  method Calls(m: MergedRange, calls: seq<bool>) returns (rs: seq<Option<Item>>)
    requires m.Valid()
    modifies m
    ensures m.Valid() && rs == OneQueue(old(m.Remaining()), calls)
    ensures m.Remaining() == Left(old(m.Remaining()), calls)
    decreases |calls|
  {
    if calls == [] { return []; }
    var r;
    if calls[0] { r := m.Next(); } else { r := m.NextBack(); }
    var rest := Calls(m, calls[1..]);
    rs := [r] + rest;
  }
}
