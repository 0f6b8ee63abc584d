/** Listing a jshashtable, comparing two of them, and merging one into another. */
module HashListing {
  import opened HashBuckets
  import opened HashContents
  import opened Options

  /** All entries, in the order of entries(): buckets from the last to the first. */
  function AllEntries<K, V>(t: Table<K, V>): Entries<K, V> {
    if t == [] then [] else t[|t| - 1].entries + AllEntries(t[..|t| - 1])
  }

  lemma {:induction false} FindInConcat<K, V>(p: Policy<K>, a: Entries<K, V>, b: Entries<K, V>, key: K)
    ensures Find(p, a + b, key) == if Find(p, b, key).Some? then Find(p, b, key) else Find(p, a, key)
  {
    if b == [] {
      assert a + b == a;
    } else {
      assert (a + b)[..|a + b| - 1] == a + b[..|b| - 1];
      FindInConcat(p, a, b[..|b| - 1], key);
    }
  }

  lemma {:induction false} EntriesHashes<K(!new), V>(p: Policy<K>, t: Table<K, V>)
    requires WellFormed(p, t)
    ensures forall e :: e in AllEntries(t) ==> exists i :: 0 <= i < |t| && t[i].hash == p.hash(e.0)
  {
    if t != [] {
      var init, b := t[..|t| - 1], t[|t| - 1];
      EntriesHashes(p, init);
      forall e | e in AllEntries(t)
        ensures exists i :: 0 <= i < |t| && t[i].hash == p.hash(e.0)
      {
        if e in AllEntries(init) {
          var i :| 0 <= i < |init| && init[i].hash == p.hash(e.0);
          assert t[i] == init[i];
        } else {
          assert e in b.entries && t[|t| - 1] == b;
          var i :| 0 <= i < |b.entries| && b.entries[i] == e;
          assert BucketOk(p, b);
        }
      }
    }
  }

  /** The listing holds each key once, and looking a key up in it is looking it up in the table. */
  lemma {:induction false} ListingMeans<K(!new), V>(p: Policy<K>, t: Table<K, V>)
    requires Sound(p) && WellFormed(p, t)
    ensures UniqueKeys(p, AllEntries(t))
    ensures forall k :: Find(p, AllEntries(t), k) == Lookup(p, t, k)
    ensures AllEntries(t) == [] <==> t == []
  {
    hide Find, Lookup;
    if t == [] {
      forall k
        ensures Find(p, AllEntries(t), k) == Lookup(p, t, k)
      {
        LookupMissing(p, t, k);
        FindNothing(p, k, AllEntries(t));
      }
    } else {
      var init, b := t[..|t| - 1], t[|t| - 1];
      assert BucketOk(p, b);
      ListingMeans(p, init);
      UniqueInListing(p, t);
      forall k
        ensures Find(p, AllEntries(t), k) == Lookup(p, t, k)
      {
        FindInConcat(p, b.entries, AllEntries(init), k);
        if p.hash(k) == b.hash {
          LookupIn(p, t, |t| - 1, k);
          LookupMissing(p, init, k);
        } else {
          NotInBucket(p, b, k);
          LookupInit(p, t, k);
        }
      }
    }
  }

  lemma NotInBucket<K(!new), V>(p: Policy<K>, b: BucketValue<K, V>, k: K)
    requires Sound(p) && BucketOk(p, b) && p.hash(k) != b.hash
    ensures Find(p, b.entries, k) == None
  {
  }

  lemma LookupInit<K(!new), V>(p: Policy<K>, t: Table<K, V>, k: K)
    requires WellFormed(p, t) && t != [] && t[|t| - 1].hash != p.hash(k)
    ensures Lookup(p, t[..|t| - 1], k) == Lookup(p, t, k)
  {
    hide Find;
  }

  lemma UniqueInListing<K(!new), V>(p: Policy<K>, t: Table<K, V>)
    requires Sound(p) && WellFormed(p, t) && t != []
    requires UniqueKeys(p, AllEntries(t[..|t| - 1]))
    ensures UniqueKeys(p, AllEntries(t))
  {
    var init, b := t[..|t| - 1], t[|t| - 1];
    var es, rest := b.entries, AllEntries(init);
    EntriesHashes(p, init);
    assert BucketOk(p, b);
    forall i, j | 0 <= i < |es| && 0 <= j < |rest|
      ensures !p.eq(es[i].0, rest[j].0)
    {
      assert rest[j] in rest;
      var c :| 0 <= c < |init| && init[c].hash == p.hash(rest[j].0);
      assert t[c] == init[c];
    }
  }

  // ---------------------------------------------------------------- equality

  ghost predicate SameMap<K(!new), V>(p: Policy<K>, a: Entries<K, V>, b: Entries<K, V>) {
    forall k :: Find(p, a, k) == Find(p, b, k)
  }

  lemma FindRespects<K(!new), V>(p: Policy<K>, es: Entries<K, V>, a: K, b: K)
    requires Sound(p) && UniqueKeys(p, es) && p.eq(a, b)
    ensures Find(p, es, a) == Find(p, es, b)
  {
    assert p.eq(b, a);
    if Search(p, es, a).Some? {
      FindAt(p, es, b, Search(p, es, a).value);
    } else if Search(p, es, b).Some? {
      FindAt(p, es, a, Search(p, es, b).value);
    }
  }

  lemma Symmetric<K(!new)>(p: Policy<K>, a: K, b: K)
    requires Sound(p)
    ensures p.eq(a, b) <==> p.eq(b, a)
  {
  }

  /** Every key of a occurs in b. */
  ghost predicate KeysWithin<K, V>(p: Policy<K>, a: Entries<K, V>, b: Entries<K, V>) {
    forall i {:trigger a[i]} :: 0 <= i < |a| ==> Find(p, b, a[i].0).Some?
  }

  /** Pigeonhole: if the keys of a occur in b then a is no longer than b, and if it is as long then the
      keys of b occur in a. */
  lemma {:induction false} KeysPigeonhole<K(!new), V>(p: Policy<K>, a: Entries<K, V>, b: Entries<K, V>)
    requires Sound(p) && UniqueKeys(p, a) && UniqueKeys(p, b) && KeysWithin(p, a, b)
    ensures |a| <= |b|
    ensures |a| == |b| ==> KeysWithin(p, b, a)
    decreases |a|
  {
    hide Find;
    if a != [] {
      var n := |a| - 1;
      var init, key := a[..n], a[n].0;
      assert Find(p, b, a[n].0).Some?;
      FoundAt(p, b, key);
      var m := Search(p, b, key).value;
      var b' := RemoveEntry(p, b, key);
      RemoveEntryMeans(p, b, key);
      forall i | 0 <= i < n
        ensures Find(p, b', init[i].0).Some?
      {
        assert init[i] == a[i] && Find(p, b, a[i].0).Some?;
        Symmetric(p, key, a[i].0);
      }
      KeysPigeonhole(p, init, b');
      if |a| == |b| {
        forall j | 0 <= j < |b|
          ensures Find(p, a, b[j].0).Some?
        {
          assert a == init + [a[n]];
          FindInConcat(p, init, [a[n]], b[j].0);
          if j == m {
            FindSingle(p, a[n], b[j].0);
          } else {
            assert b' [if j < m then j else j - 1] == b[j];
          }
        }
      }
    }
  }

  lemma FoundAt<K(!new), V>(p: Policy<K>, es: Entries<K, V>, key: K)
    requires Find(p, es, key).Some?
    ensures Search(p, es, key).Some?
  {
  }

  lemma FindSingle<K(!new), V>(p: Policy<K>, e: (K, V), key: K)
    requires Sound(p) && p.eq(e.0, key)
    ensures Find(p, [e], key).Some?
  {
  }

  /** What the loop of equals checks: every entry of a is found in b with the same value. */
  ghost predicate EntriesWithin<K, V>(p: Policy<K>, a: Entries<K, V>, b: Entries<K, V>) {
    forall i {:trigger a[i]} :: 0 <= i < |a| ==> Find(p, b, a[i].0) == Some(a[i].1)
  }

  /** Comparing sizes and looking one way is enough to compare the two maps. */
  lemma EqualsMeans<K(!new), V>(p: Policy<K>, a: Entries<K, V>, b: Entries<K, V>)
    requires Sound(p) && UniqueKeys(p, a) && UniqueKeys(p, b)
    ensures |a| == |b| && EntriesWithin(p, a, b) <==> SameMap(p, a, b)
  {
    if |a| == |b| && EntriesWithin(p, a, b) {
      KeysPigeonhole(p, a, b);
      forall k
        ensures Find(p, a, k) == Find(p, b, k)
      {
        SameAt(p, a, b, k);
      }
    }
    if SameMap(p, a, b) {
      forall i | 0 <= i < |a|
        ensures Find(p, b, a[i].0) == Some(a[i].1)
      {
        FindAt(p, a, a[i].0, i);
      }
      forall i | 0 <= i < |b|
        ensures Find(p, a, b[i].0) == Some(b[i].1)
      {
        FindAt(p, b, b[i].0, i);
      }
      KeysPigeonhole(p, a, b);
      KeysPigeonhole(p, b, a);
    }
  }

  lemma SameAt<K(!new), V>(p: Policy<K>, a: Entries<K, V>, b: Entries<K, V>, k: K)
    requires Sound(p) && UniqueKeys(p, a) && UniqueKeys(p, b)
    requires EntriesWithin(p, a, b) && KeysWithin(p, b, a)
    ensures Find(p, a, k) == Find(p, b, k)
  {
    if Search(p, a, k).Some? {
      var i := Search(p, a, k).value;
      assert Find(p, b, a[i].0) == Some(a[i].1);
      FindRespects(p, b, k, a[i].0);
    } else if Search(p, b, k).Some? {
      var j := Search(p, b, k).value;
      assert Find(p, a, b[j].0).Some?;
      FindRespects(p, a, k, b[j].0);
    }
  }

  // ---------------------------------------------------------------- putAll

  /** The right-biased union of two maps, at one key. */
  ghost function UnionAt<K, V>(p: Policy<K>, t: Table<K, V>, es: Entries<K, V>, key: K): Option<V> {
    if Find(p, es, key).Some? then Find(p, es, key) else Lookup(p, t, key)
  }

  /** One turn of the loop of putAll, which goes through the entries from the last to the first. */
  lemma PutAllStep<K(!new), V>(p: Policy<K>, t0: Table<K, V>, t: Table<K, V>, es: Entries<K, V>, i: nat)
    requires Sound(p) && WellFormed(p, t) && UniqueKeys(p, es) && i < |es|
    requires forall k :: Lookup(p, t, k) == UnionAt(p, t0, es[i + 1..], k)
    ensures forall k :: Lookup(p, PutTable(p, t, es[i].0, es[i].1), k) == UnionAt(p, t0, es[i..], k)
  {
    hide Lookup, PutTable, Find;
    PutMeans(p, t, es[i].0, es[i].1);
    forall k
      ensures Lookup(p, PutTable(p, t, es[i].0, es[i].1), k) == UnionAt(p, t0, es[i..], k)
    {
      if p.eq(es[i].0, k) {
        assert p.eq(k, es[i].0) && es[i..][0] == es[i];
        FindAt(p, es[i..], k, 0);
      } else {
        FindPast(p, es, i, k);
      }
    }
  }

  lemma FindPast<K(!new), V>(p: Policy<K>, es: Entries<K, V>, i: nat, k: K)
    requires Sound(p) && i < |es| && !p.eq(es[i].0, k)
    ensures Find(p, es[i..], k) == Find(p, es[i + 1..], k)
  {
    assert es[i..] == [es[i]] + es[i + 1..];
    FindInConcat(p, [es[i]], es[i + 1..], k);
    Symmetric(p, k, es[i].0);
  }
}
