/** The in-memory database, an ordered map shared by everyone who holds it, and the prefixed
    views through which the stores use it. */
module Database {
  import opened Bytes
  import opened Options
  import opened SortedItems
  import opened Prefixes

  class MemDB {
    /** The entries of the `BTreeMap`, in key order. */
    var store: seq<Item>

    ghost predicate Valid()
      reads this
    {
      Sorted(store)
    }

    constructor ()
      ensures Valid() && store == []
    {
      store := [];
    }

    method Get(key: bytes) returns (r: Option<bytes>)
      ensures r == Find(store, key)
    {
      r := Find(store, key);
    }

    method Put(key: bytes, value: bytes)
      requires Valid()
      modifies this
      ensures Valid() && store == Insert(old(store), key, value)
    {
      InsertSorted(store, key, value);
      store := Insert(store, key, value);
    }

    /** Exactly the entries whose keys start with the prefix, in key order. */
    method PrefixIterator(prefix: bytes) returns (pairs: seq<Item>)
      ensures pairs == Under(store, prefix)
    {
      var end := PrefixEndBound(prefix);
      var range := InRange(store, prefix, end);
      pairs := [];
      for i := 0 to |range|
        invariant pairs == range[..i]
      {
        pairs := pairs + [range[i]];
      }
      assert pairs == range;
      RangeIsUnder(store, prefix);
    }
  }

  /** Whatever is seen through a prefix apart from `prefix` is the same. */
  ghost predicate SameApart(s: seq<Item>, s': seq<Item>, prefix: bytes) {
    forall other :: Apart(other, prefix) ==> Stripped(s', other) == Stripped(s, other)
  }

  /** The mapping both iterators of a view apply: cut the first `n` bytes off each key. */
  function StripKeys(s: seq<Item>, n: nat): seq<Item>
    requires forall i :: 0 <= i < |s| ==> n <= |s[i].key|
  {
    if s == [] then [] else [Item(s[0].key[n..], s[0].value)] + StripKeys(s[1..], n)
  }

  lemma {:induction false} StripUnder(s: seq<Item>, p: bytes)
    ensures forall i :: 0 <= i < |Under(s, p)| ==> |p| <= |Under(s, p)[i].key|
    ensures StripKeys(Under(s, p), |p|) == Stripped(s, p)
  {
    if s == [] {
    } else {
      StripUnder(s[1..], p);
      if StartsWith(s[0].key, p) {
        assert Under(s, p)[1..] == Under(s[1..], p);
      } else {
        assert Under(s, p) == Under(s[1..], p);
      }
    }
  }

  /** `PrefixDB`: a view of a shared database through a key prefix. Its own state never changes. */
  datatype PrefixDB = PrefixDB(db: MemDB, prefix: bytes) {

    /** What the view holds: the entries under the prefix, the prefix taken off. */
    ghost function Entries(): seq<Item>
      reads db
    {
      Stripped(db.store, prefix)
    }

    ghost function View(): map<bytes, bytes>
      reads db
    {
      ToMap(Entries())
    }

    method Get(key: bytes) returns (r: Option<bytes>)
      ensures r == Find(Entries(), key)
      ensures r == if key in View() then Some(View()[key]) else None
    {
      r := db.Get(prefix + key);
      FindStripped(db.store, prefix, key);
      FindIsLookup(Entries(), key);
    }

    method Put(key: bytes, value: bytes)
      requires db.Valid()
      modifies db
      ensures db.Valid() && db.store == Insert(old(db.store), prefix + key, value)
      ensures Entries() == Insert(old(Entries()), key, value)
      ensures View() == old(View())[key := value]
      ensures SameApart(old(db.store), db.store, prefix)
    {
      forall other | Apart(other, prefix)
        ensures Stripped(Insert(db.store, prefix + key, value), other) == Stripped(db.store, other)
      {
        StrippedApart(db.store, other, prefix, key, value);
      }
      StrippedInsert(db.store, prefix, key, value);
      StrippedSorted(db.store, prefix);
      InsertIsUpdate(Stripped(db.store, prefix), key, value);
      db.Put(prefix + key, value);
    }

    method Iterator() returns (pairs: seq<Item>)
      ensures pairs == Entries()
    {
      var under := db.PrefixIterator(prefix);
      StripUnder(db.store, prefix);
      pairs := StripKeys(under, |prefix|);
    }

    /** The entries of the view that start with a further prefix, that prefix taken off too. */
    method PrefixIterator(more: bytes) returns (pairs: seq<Item>)
      ensures pairs == Stripped(Entries(), more)
    {
      var joined := prefix + more;
      var under := db.PrefixIterator(joined);
      StripUnder(db.store, joined);
      StrippedTwice(db.store, prefix, more);
      pairs := StripKeys(under, |joined|);
    }
  }
}
