/** Which keys start with a prefix, as a range of the key order, and the part of a sorted list
    that lies under a prefix. */
module Prefixes {
  import opened Bytes
  import opened SortedItems

  datatype Bound = Excluded(key: bytes) | Unbounded

  predicate Within(k: bytes, b: Bound) {
    b.Excluded? ==> Less(k, b.key)
  }

  /** The end bound of the keys that start with `p`. */
  function EndBound(p: bytes): Bound {
    if p == [] then Unbounded
    else
      var init, last := p[..|p| - 1], p[|p| - 1];
      if last != 255 then Excluded(init + [last + 1]) else EndBound(init)
  }

  /** `prefix_end_bound` */
  method PrefixEndBound(prefix: bytes) returns (b: Bound)
    ensures b == EndBound(prefix)
  {
    var p := prefix;
    while true
      invariant EndBound(p) == EndBound(prefix)
      decreases |p|
    {
      if p == [] { return Unbounded; }
      var last := p[|p| - 1];
      if last != 255 {
        p := p[|p| - 1 := last + 1];
        assert p[..|p| - 1] + [last + 1] == p;
        return Excluded(p);
      }
      p := p[..|p| - 1];
    }
  }

  lemma {:induction false} EndBoundFromFront(c: byte, q: bytes)
    ensures EndBound([c] + q) ==
      match EndBound(q)
      case Excluded(e) => Excluded([c] + e)
      case Unbounded => if c == 255 then Unbounded else Excluded([c + 1])
  {
    var p := [c] + q;
    if q == [] {
      assert p[..0] == [];
      assert EndBound([]) == Unbounded;
    } else {
      var init, last := q[..|q| - 1], q[|q| - 1];
      assert p[..|p| - 1] == [c] + init && p[|p| - 1] == last;
      if last != 255 {
        assert ([c] + init) + [last + 1] == [c] + (init + [last + 1]);
      } else {
        EndBoundFromFront(c, init);
      }
    }
  }

  /** The keys that start with a prefix are exactly those from the prefix up to its end bound. */
  lemma {:induction false} PrefixIsRange(p: bytes, k: bytes)
    ensures StartsWith(k, p) <==> AtMost(p, k) && Within(k, EndBound(p))
  {
    if p == [] {
    } else {
      assert p == [p[0]] + p[1..];
      EndBoundFromFront(p[0], p[1..]);
      if k != [] {
        PrefixIsRange(p[1..], k[1..]);
        assert k == [k[0]] + k[1..];
        if StartsWith(k, p) { assert k[1..][..|p| - 1] == p[1..]; }
        if k[0] == p[0] && StartsWith(k[1..], p[1..]) { assert k[..|p|] == p; }
        if k[0] == p[0] { assert AtMost(p, k) <==> AtMost(p[1..], k[1..]); }
        match EndBound(p[1..]) {
          case Excluded(e) => assert ([p[0]] + e)[1..] == e;
          case Unbounded => if p[0] != 255 { assert Less(k, [p[0] + 1]) <==> k[0] <= p[0]; }
        }
      }
    }
  }

  /** The bound is the least one: whatever lies above every key under the prefix lies at or above
      it, and when there is none, nothing lies above them all. */
  lemma EndBoundIsLeast(p: bytes, x: bytes)
    requires forall k :: StartsWith(k, p) ==> Less(k, x)
    ensures EndBound(p).Excluded? && AtMost(EndBound(p).key, x)
  {
    assert StartsWith(p, p);
    PrefixIsRange(p, x);
    LessIrreflexive(x);
    assert !StartsWith(x, p);
    LessTotal(EndBound(p).key, x);
  }

  ghost predicate All255(p: bytes) {
    forall i :: 0 <= i < |p| ==> p[i] == 255
  }

  lemma {:induction false} UnboundedIffAll255(p: bytes)
    ensures EndBound(p).Unbounded? <==> All255(p)
  {
    if p == [] {
    } else {
      UnboundedIffAll255(p[..|p| - 1]);
      assert p == p[..|p| - 1] + [p[|p| - 1]];
    }
  }

  // ---------- the part of a list under a prefix ----------

  /** Entries whose keys start with `p`. */
  function Under(s: seq<Item>, p: bytes): seq<Item> {
    if s == [] then []
    else (if StartsWith(s[0].key, p) then [s[0]] else []) + Under(s[1..], p)
  }

  /** The entries `BTreeMap::range` yields between an included start and an end bound. */
  function InRange(s: seq<Item>, start: bytes, end: Bound): seq<Item> {
    if s == [] then []
    else (if AtMost(start, s[0].key) && Within(s[0].key, end) then [s[0]] else []) + InRange(s[1..], start, end)
  }

  lemma {:induction false} RangeIsUnder(s: seq<Item>, p: bytes)
    ensures InRange(s, p, EndBound(p)) == Under(s, p)
  {
    if s == [] {
    } else {
      PrefixIsRange(p, s[0].key);
      RangeIsUnder(s[1..], p);
    }
  }

  /** The same entries with the prefix taken off their keys: what a prefixed view holds. */
  function Stripped(s: seq<Item>, p: bytes): seq<Item> {
    if s == [] then []
    else (if StartsWith(s[0].key, p) then [Item(s[0].key[|p|..], s[0].value)] else []) + Stripped(s[1..], p)
  }

  lemma {:induction false} LessAfterPrefix(p: bytes, a: bytes, b: bytes)
    ensures Less(p + a, p + b) <==> Less(a, b)
  {
    if p == [] {
      assert p + a == a && p + b == b;
    } else {
      LessAfterPrefix(p[1..], a, b);
      assert (p + a)[1..] == p[1..] + a && (p + b)[1..] == p[1..] + b;
    }
  }

  lemma StripOfPrefixed(p: bytes, k: bytes)
    ensures StartsWith(p + k, p) && (p + k)[|p|..] == k
  {
  }

  lemma PrefixedOfStrip(p: bytes, x: bytes)
    requires StartsWith(x, p)
    ensures x == p + x[|p|..]
  {
  }

  /** Reading a key through a view reads the prefixed key below. */
  lemma {:induction false} FindStripped(s: seq<Item>, p: bytes, k: bytes)
    ensures Find(Stripped(s, p), k) == Find(s, p + k)
  {
    if s == [] {
    } else {
      FindStripped(s[1..], p, k);
      var x := s[0].key;
      if StartsWith(x, p) {
        PrefixedOfStrip(p, x);
        assert Stripped(s, p)[0].key == x[|p|..] && Stripped(s, p)[1..] == Stripped(s[1..], p);
        StripOfPrefixed(p, k);
      } else {
        assert Stripped(s, p) == Stripped(s[1..], p);
        StripOfPrefixed(p, k);
      }
    }
  }

  lemma {:induction false} StrippedAbove(s: seq<Item>, p: bytes, k: bytes)
    requires Sorted(s) && (s != [] ==> Less(p + k, s[0].key))
    ensures var t := Stripped(s, p); t == [] || Less(k, t[0].key)
  {
    if s == [] {
    } else {
      var x := s[0].key;
      if StartsWith(x, p) {
        PrefixedOfStrip(p, x);
        LessAfterPrefix(p, k, x[|p|..]);
        assert Stripped(s, p)[0].key == x[|p|..];
      } else {
        if |s| > 1 { LessTransitive(p + k, x, s[1].key); }
        StrippedAbove(s[1..], p, k);
        assert Stripped(s, p) == Stripped(s[1..], p);
      }
    }
  }

  /** Writing through a view inserts into exactly what the view holds. */
  lemma {:induction false} StrippedInsert(s: seq<Item>, p: bytes, k: bytes, v: bytes)
    requires Sorted(s)
    ensures Stripped(Insert(s, p + k, v), p) == Insert(Stripped(s, p), k, v)
  {
    StripOfPrefixed(p, k);
    var r := Insert(s, p + k, v);
    if s == [] || Less(p + k, s[0].key) {
      assert r[0].key == p + k && r[1..] == s;
      assert Stripped(r, p) == [Item(k, v)] + Stripped(s, p);
      StrippedAbove(s, p, k);
    } else if s[0].key == p + k {
      assert r[1..] == s[1..];
      assert Stripped(s, p)[0].key == k && Stripped(s, p)[1..] == Stripped(s[1..], p);
      LessIrreflexive(k);
    } else {
      StrippedInsert(s[1..], p, k, v);
      assert r[0] == s[0] && r[1..] == Insert(s[1..], p + k, v);
      var x := s[0].key;
      if StartsWith(x, p) {
        PrefixedOfStrip(p, x);
        LessAfterPrefix(p, k, x[|p|..]);
        assert Stripped(s, p)[0].key == x[|p|..] != k && Stripped(s, p)[1..] == Stripped(s[1..], p);
        assert Stripped(r, p) == [Stripped(s, p)[0]] + Stripped(r[1..], p);
      } else {
        assert Stripped(r, p) == Stripped(r[1..], p) && Stripped(s, p) == Stripped(s[1..], p);
      }
    }
  }

  lemma {:induction false} StrippedSorted(s: seq<Item>, p: bytes)
    requires Sorted(s)
    ensures Sorted(Stripped(s, p))
    ensures forall i :: 0 <= i < |Stripped(s, p)| ==> HasKey(s, p + Stripped(s, p)[i].key)
  {
    if s == [] {
    } else {
      StrippedSorted(s[1..], p);
      var r := Stripped(s[1..], p);
      var x := s[0].key;
      forall i | 0 <= i < |r|
        ensures HasKey(s, p + r[i].key)
        ensures StartsWith(x, p) ==> Less(x[|p|..], r[i].key)
      {
        var j :| 0 <= j < |s[1..]| && s[1..][j].key == p + r[i].key;
        assert s[j + 1].key == p + r[i].key;
        if StartsWith(x, p) {
          PrefixedOfStrip(p, x);
          LessAfterPrefix(p, x[|p|..], r[i].key);
        }
      }
      if StartsWith(x, p) {
        PrefixedOfStrip(p, x);
        assert s[0].key == p + x[|p|..];
        assert Stripped(s, p) == [Item(x[|p|..], s[0].value)] + r;
      } else {
        assert Stripped(s, p) == r;
      }
    }
  }

  /** A view of a view is the view under the joined prefix. */
  lemma {:induction false} StrippedTwice(s: seq<Item>, p: bytes, q: bytes)
    ensures Stripped(Stripped(s, p), q) == Stripped(s, p + q)
  {
    if s == [] {
    } else {
      StrippedTwice(s[1..], p, q);
      var x := s[0].key;
      if StartsWith(x, p) {
        PrefixedOfStrip(p, x);
        var first := Item(x[|p|..], s[0].value);
        assert Stripped(s, p)[0] == first && Stripped(s, p)[1..] == Stripped(s[1..], p);
        if StartsWith(x, p + q) {
          assert x[|p|..][..|q|] == q;
          assert x[|p|..][|q|..] == x[|p + q|..];
        }
      } else {
        assert Stripped(s, p) == Stripped(s[1..], p);
        assert !StartsWith(x, p + q);
      }
    }
  }

  /** Neither name is a prefix of the other. */
  predicate Apart(p: bytes, q: bytes) {
    !StartsWith(p, q) && !StartsWith(q, p)
  }

  lemma ApartKeys(p: bytes, q: bytes, k: bytes)
    requires Apart(p, q)
    ensures !StartsWith(q + k, p)
  {
  }

  /** Writing under one of two prefixes that are apart changes nothing under the other. */
  lemma {:induction false} StrippedApart(s: seq<Item>, p: bytes, q: bytes, k: bytes, v: bytes)
    requires Apart(p, q)
    ensures Stripped(Insert(s, q + k, v), p) == Stripped(s, p)
  {
    ApartKeys(p, q, k);
    var r := Insert(s, q + k, v);
    if s == [] || Less(q + k, s[0].key) {
      assert r[1..] == s;
    } else if s[0].key == q + k {
      assert r[1..] == s[1..];
    } else {
      StrippedApart(s[1..], p, q, k, v);
      assert r[1..] == Insert(s[1..], q + k, v);
    }
  }
}
