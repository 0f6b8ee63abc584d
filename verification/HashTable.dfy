/** jshashtable (hashtable.js): a list of buckets and an index by hash that share the same bucket objects. */
module HashTable {
  import opened HashBuckets
  import opened HashContents
  import opened HashListing
  import opened Options

  class Bucket<K(!new), V> {
    const hash: string
    var entries: Entries<K, V>

    constructor (hash: string, firstKey: K, firstValue: V)
      ensures this.hash == hash && entries == [(firstKey, firstValue)]
    {
      this.hash := hash;
      entries := [(firstKey, firstValue)];
    }

    /** createBucketSearcher: scans the entries from the end. */
    method SearchEntry(p: Policy<K>, key: K) returns (index: Option<nat>)
      ensures index == Search(p, entries, key)
    {
      var i := |entries|;
      while i > 0
        invariant 0 <= i <= |entries|
        invariant Search(p, entries, key) == Search(p, entries[..i], key)
      {
        i := i - 1;
        assert entries[..i + 1][..i] == entries[..i];
        if p.eq(key, entries[i].0) {
          return Some(i);
        }
      }
      index := None;
    }
  }

  lemma NothingToRemove<K(!new), V>(p: Policy<K>, t: Table<K, V>, key: K, n: nat)
    requires WellFormed(p, t) && n < |t| && BucketAt(t, p.hash(key)) == Some(n) && Search(p, t[n].entries, key) == None
    ensures RemoveTable(p, t, key) == t
  {
    assert BucketOk(p, t[n]);
  }

  /** An index stays in step with the list when a bucket leaves both. */
  lemma SplicedIndex<K(!new), V>(before: seq<Bucket<K, V>>, index: map<string, Bucket<K, V>>, n: nat)
    requires n < |before|
    requires forall i, j :: 0 <= i < j < |before| ==> before[i].hash != before[j].hash
    requires InStep(before, index)
    ensures InStep(before[..n] + before[n + 1..], index - {before[n].hash})
  {
    var after, index' := before[..n] + before[n + 1..], index - {before[n].hash};
    forall j | 0 <= j < |after|
      ensures after[j].hash in index' && index'[after[j].hash] == after[j]
    {
      var i := if j < n then j else j + 1;
      assert after[j] == before[i];
      assert before[i].hash != before[n].hash;
    }
    forall h | h in index'
      ensures index'[h] in after && index'[h].hash == h
    {
      var i :| 0 <= i < |before| && before[i] == index[h];
      assert i != n && after[if i < n then i else i - 1] == before[i];
    }
  }

  /** A list of buckets and an index by hash hold the same buckets. */
  ghost predicate InStep<K(!new), V>(buckets: seq<Bucket<K, V>>, index: map<string, Bucket<K, V>>) {
    && (forall i {:trigger buckets[i]} :: 0 <= i < |buckets| ==>
          buckets[i].hash in index && index[buckets[i].hash] == buckets[i])
    && (forall h {:trigger index[h]} :: h in index ==> index[h] in buckets && index[h].hash == h)
  }

  /** A call returns, or throws because its key or value is null or undefined. */
  datatype Outcome<+T> = Thrown | Returned(value: T)

  class Hashtable<K(!new), V(==)> {
    const policy: Policy<K>
    var buckets: seq<Bucket<K, V>>
    var bucketsByHash: map<string, Bucket<K, V>>

    ghost function Contents(): (t: Table<K, V>)
      reads this, buckets
      ensures |t| == |buckets|
      ensures forall i {:trigger t[i]} {:trigger buckets[i]} :: 0 <= i < |t| ==>
          t[i] == BucketValue(buckets[i].hash, buckets[i].entries)
    {
      seq(|buckets|, i requires 0 <= i < |buckets| reads this, buckets =>
        BucketValue(buckets[i].hash, buckets[i].entries))
    }

    /** The list and the index hold the same buckets. */
    ghost predicate Indexed()
      reads this, buckets
    {
      InStep(buckets, bucketsByHash)
    }

    ghost predicate Valid()
      reads this, buckets
    {
      Sound(policy) && WellFormed(policy, Contents()) && Indexed()
    }

    constructor (policy: Policy<K>)
      requires Sound(policy)
      ensures Valid() && Contents() == [] && this.policy == policy && buckets == []
    {
      this.policy := policy;
      buckets := [];
      bucketsByHash := map[];
    }

    /** getBucketForHash, and where the bucket is in the list. */
    method BucketForHash(hash: string) returns (bucket: Option<Bucket<K, V>>, ghost n: nat)
      requires Valid()
      ensures bucket.None? ==> BucketAt(Contents(), hash) == None && hash !in bucketsByHash
      ensures bucket.Some? ==> n < |buckets| && buckets[n] == bucket.value && BucketAt(Contents(), hash) == Some(n)
    {
      n := 0;
      if hash in bucketsByHash {
        bucket := Some(bucketsByHash[hash]);
        n :| 0 <= n < |buckets| && buckets[n] == bucketsByHash[hash];
        BucketIs(policy, Contents(), n);
      } else {
        bucket := None;
      }
    }

    /** Writes the entries of one bucket, which the list and the index both see. */
    method SetEntries(b: Bucket<K, V>, ghost n: nat, entries: Entries<K, V>)
      requires n < |buckets| && buckets[n] == b && Indexed()
      requires Apart()
      modifies b
      ensures Indexed() && b.entries == entries
      ensures Contents() == old(Contents())[n := BucketValue(b.hash, entries)]
    {
      b.entries := entries;
    }

    method AddBucket(b: Bucket<K, V>)
      requires Indexed() && b !in buckets && b.hash !in bucketsByHash
      modifies this
      ensures Indexed() && buckets == old(buckets) + [b]
      ensures Contents() == old(Contents()) + [BucketValue(b.hash, b.entries)]
    {
      buckets := buckets + [b];
      bucketsByHash := bucketsByHash[b.hash := b];
    }

    /** Splices a bucket out of the list. */
    method SpliceList(index: nat)
      requires index < |buckets|
      modifies this`buckets
      ensures buckets == old(buckets[..index] + buckets[index + 1..])
      ensures Contents() == old(Contents())[..index] + old(Contents())[index + 1..]
    {
      ghost var before, table := buckets, Contents();
      buckets := buckets[..index] + buckets[index + 1..];
      forall j | 0 <= j < |buckets|
        ensures Contents()[j] == table[if j < index then j else j + 1]
      {
        assert buckets[j] == before[if j < index then j else j + 1];
      }
    }

    /** Splices a bucket out of the list and deletes it from the index. */
    method DropBucket(index: nat)
      requires Indexed() && index < |buckets|
      requires Apart()
      modifies this
      ensures Indexed() && buckets == old(buckets[..index] + buckets[index + 1..])
      ensures Contents() == old(Contents())[..index] + old(Contents())[index + 1..]
    {
      hide Contents;
      var hash := buckets[index].hash;
      SplicedIndex(buckets, bucketsByHash, index);
      SpliceList(index);
      bucketsByHash := bucketsByHash - {hash};
    }

    method Put(key: Option<K>, value: Option<V>) returns (result: Outcome<Option<V>>)
      requires Valid()
      modifies this, buckets
      ensures Valid()
      ensures forall b :: b in buckets ==> b in old(buckets) || fresh(b)
      ensures key.None? || value.None? ==> result == Thrown && Contents() == old(Contents())
      ensures key.Some? && value.Some? ==>
                && Contents() == PutTable(policy, old(Contents()), key.value, value.value)
                && result == Returned(Lookup(policy, old(Contents()), key.value))
    {
      hide WellFormed, Search, BucketAt, Indexed, Sound, Lookup, PutTable, Apart, Contents;
      if key.None? || value.None? {
        return Thrown;
      }
      BySearch(policy, Contents(), key.value, value.value);
      var hash := policy.hash(key.value);
      PutMeans(policy, Contents(), key.value, value.value);
      DistinctBuckets();
      var bucket, n := BucketForHash(hash);
      if bucket.Some? {
        var entries := bucket.value.entries;
        var entry := bucket.value.SearchEntry(policy, key.value);
        if entry.Some? {
          var i := entry.value;
          result := Returned(Some(entries[i].1));
          var kept := if policy.replaceDuplicateKey then key.value else entries[i].0;
          SetEntries(bucket.value, n, entries[i := (kept, value.value)]);
        } else {
          result := Returned(None);
          SetEntries(bucket.value, n, entries + [(key.value, value.value)]);
        }
      } else {
        result := Returned(None);
        var b := new Bucket(hash, key.value, value.value);
        AddBucket(b);
      }
    }

    /** Two places in the bucket list hold different objects, with different hashes. */
    ghost predicate Apart()
      reads this
    {
      forall i, j :: 0 <= i < j < |buckets| ==> buckets[i].hash != buckets[j].hash
    }

    lemma DistinctBuckets()
      requires Valid()
      ensures Apart()
    {
      forall i, j | 0 <= i < j < |buckets|
        ensures buckets[i].hash != buckets[j].hash
      {
        assert Contents()[i].hash != Contents()[j].hash;
      }
    }

    method Get(key: Option<K>) returns (result: Outcome<Option<V>>)
      requires Valid()
      ensures result == if key.None? then Thrown else Returned(Lookup(policy, Contents(), key.value))
    {
      hide WellFormed, Search, BucketAt, Lookup, Indexed, Sound;
      if key.None? {
        return Thrown;
      }
      LookupBySearch(policy, Contents(), key.value);
      var bucket, n := BucketForHash(policy.hash(key.value));
      if bucket.Some? {
        var entry := bucket.value.SearchEntry(policy, key.value);
        if entry.Some? {
          return Returned(Some(bucket.value.entries[entry.value].1));
        }
      }
      return Returned(None);
    }

    method ContainsKey(key: Option<K>) returns (result: Outcome<bool>)
      requires Valid()
      ensures result == if key.None? then Thrown else Returned(Lookup(policy, Contents(), key.value).Some?)
    {
      hide WellFormed, Search, BucketAt, Lookup, Indexed, Sound;
      if key.None? {
        return Thrown;
      }
      LookupBySearch(policy, Contents(), key.value);
      var bucket, n := BucketForHash(policy.hash(key.value));
      if bucket.Some? {
        var entry := bucket.value.SearchEntry(policy, key.value);
        return Returned(entry.Some?);
      }
      return Returned(false);
    }

    method Clear()
      requires Valid()
      modifies this
      ensures Valid() && Contents() == [] && buckets == []
    {
      buckets := [];
      bucketsByHash := map[];
    }

    method IsEmpty() returns (empty: bool)
      requires Valid()
      ensures empty <==> forall k :: Lookup(policy, Contents(), k) == None
    {
      empty := |buckets| == 0;
      if !empty {
        assert BucketOk(policy, Contents()[0]);
        LookupIn(policy, Contents(), 0, buckets[0].entries[0].0);
        FindAt(policy, buckets[0].entries, buckets[0].entries[0].0, 0);
      }
    }

    /** Deletes an entry of a bucket, and the bucket when that empties it. */
    method RemoveFromBucket(b: Bucket<K, V>, ghost n: nat, i: nat)
      requires n < |buckets| && buckets[n] == b && Indexed() && i < |b.entries|
      requires Apart()
      modifies this, b
      ensures Indexed()
      ensures forall c :: c in buckets ==> c in old(buckets)
      ensures var es, t := old(b.entries[..i] + b.entries[i + 1..]), old(Contents());
              Contents() == if es == [] then t[..n] + t[n + 1..] else t[n := BucketValue(b.hash, es)]
    {
      hide Indexed;
      var entries := b.entries[..i] + b.entries[i + 1..];
      SetEntries(b, n, entries);
      if |b.entries| == 0 {
        var index := SearchBuckets(b.hash, n);
        ghost var t := Contents();
        DropBucket(index);
        assert t[..n] == old(Contents())[..n] && t[n + 1..] == old(Contents())[n + 1..];
      }
    }

    /** remove; searchBuckets finds the emptied bucket in the list. */
    method Remove(key: Option<K>) returns (result: Outcome<Option<V>>)
      requires Valid()
      modifies this, buckets
      ensures Valid()
      ensures forall b :: b in buckets ==> b in old(buckets)
      ensures key.None? ==> result == Thrown && Contents() == old(Contents())
      ensures key.Some? ==>
                && Contents() == RemoveTable(policy, old(Contents()), key.value)
                && result == Returned(Lookup(policy, old(Contents()), key.value))
    {
      hide WellFormed, Search, BucketAt, Indexed, Sound, Lookup, RemoveTable, Apart, Contents;
      if key.None? {
        return Thrown;
      }
      RemoveBySearch(policy, Contents(), key.value);
      var hash := policy.hash(key.value);
      RemoveMeans(policy, Contents(), key.value);
      DistinctBuckets();
      var bucket, n := BucketForHash(hash);
      result := Returned(None);
      if bucket.Some? {
        var entries := bucket.value.entries;
        var entry := bucket.value.SearchEntry(policy, key.value);
        if entry.Some? {
          var i := entry.value;
          result := Returned(Some(entries[i].1));
          RemoveFromBucket(bucket.value, n, i);
        } else {
          NothingToRemove(policy, Contents(), key.value, n);
        }
      }
    }

    method SearchBuckets(hash: string, ghost n: nat) returns (index: nat)
      requires n < |buckets| && buckets[n].hash == hash
      requires forall j :: 0 <= j < |buckets| && j != n ==> buckets[j].hash != hash
      ensures index == n
    {
      index := |buckets|;
      while index > 0
        invariant n < index <= |buckets|
      {
        index := index - 1;
        if buckets[index].hash == hash {
          return;
        }
      }
    }

    /** entries, through createBucketAggregator: buckets from the last to the first. */
    method Entries() returns (aggregated: HashBuckets.Entries<K, V>)
      ensures aggregated == AllEntries(Contents())
    {
      aggregated := [];
      var i := |buckets|;
      ghost var t := Contents();
      assert t[..i] == t;
      while i > 0
        invariant 0 <= i <= |buckets|
        invariant aggregated + AllEntries(t[..i]) == AllEntries(t)
      {
        i := i - 1;
        assert t[..i + 1][..i] == t[..i];
        aggregated := aggregated + buckets[i].entries;
      }
    }

    /** What the listed keys say about the map: see ListedKeys. */
    method Keys() returns (keys: seq<K>)
      ensures keys == KeysOf(AllEntries(Contents()))
    {
      var entries := Entries();
      keys := [];
      for i := 0 to |entries|
        invariant keys == KeysOf(entries[..i])
      {
        assert entries[..i + 1][..i] == entries[..i];
        keys := keys + [entries[i].0];
      }
      assert entries[..|entries|] == entries;
    }

    method Size() returns (total: nat)
      requires Valid()
      ensures total == |AllEntries(Contents())|
    {
      total := 0;
      var i := |buckets|;
      ghost var t := Contents();
      assert t[..i] == t;
      while i > 0
        invariant 0 <= i <= |buckets|
        invariant total + |AllEntries(t[..i])| == |AllEntries(t)|
      {
        i := i - 1;
        assert t[..i + 1][..i] == t[..i];
        total := total + |buckets[i].entries|;
      }
    }

    method ContainsValue(value: Option<V>) returns (result: Outcome<bool>)
      requires Valid()
      ensures value.None? ==> result == Thrown
      ensures value.Some? ==>
                result.Returned? && (result.value <==> HoldsValue(policy, Contents(), value.value))
    {
      hide WellFormed, HoldsValue, Indexed, Sound, AllEntries, Contents;
      if value.None? {
        return Thrown;
      }
      ListedValues(policy, Contents(), value.value);
      hide Valid;
      var entries := Entries();
      var i := |entries|;
      while i > 0
        invariant 0 <= i <= |entries|
        invariant forall j :: i <= j < |entries| ==> entries[j].1 != value.value
      {
        i := i - 1;
        if entries[i].1 == value.value {
          return Returned(true);
        }
      }
      return Returned(false);
    }

    /** Two tables with the same hash and equality are equal exactly when they stand for the same map. */
    method Equals(other: Hashtable<K, V>) returns (same: bool)
      requires Valid() && other.Valid() && other.policy == policy
      ensures same <==> forall k :: Lookup(policy, Contents(), k) == Lookup(policy, other.Contents(), k)
    {
      hide WellFormed, Lookup, Find, Indexed, Sound, AllEntries, KeysOf, Contents;
      ghost var t, t' := Contents(), other.Contents();
      ghost var a, b := AllEntries(t), AllEntries(t');
      SameListings(policy, t, t');
      var count := Size();
      var otherCount := other.Size();
      if count != otherCount {
        return false;
      }
      var keys := Keys();
      while count > 0
        invariant 0 <= count <= |keys| == |a|
        invariant forall i {:trigger a[i]} :: count <= i < |a| ==> Find(policy, b, a[i].0) == Some(a[i].1)
      {
        count := count - 1;
        var key := keys[count];
        var val := other.Get(Some(key));
        var mine := Get(Some(key));
        ListedValue(policy, t, t', count);
        if val.value == None || val != mine {
          assert a[count].0 == key && Find(policy, b, key) != Some(a[count].1);
          return false;
        }
      }
      assert EntriesWithin(policy, a, b);
      same := true;
    }

    /** putAll without a callback: right-biased union. */
    method PutAll(other: Hashtable<K, V>)
      requires Valid() && other.Valid() && other.policy == policy
      modifies this, buckets
      ensures Valid()
      ensures forall b :: b in buckets ==> b in old(buckets) || fresh(b)
      ensures forall k ::
                Lookup(policy, Contents(), k) == UnionAt(policy, old(Contents()), old(AllEntries(other.Contents())), k)
    {
      hide WellFormed, Indexed, Sound, Lookup, PutTable, Find;
      var entries := other.Entries();
      ListingMeans(policy, other.Contents());
      ghost var t0 := Contents();
      var i := |entries|;
      NothingAdded(policy, t0, entries[i..]);
      while i > 0
        invariant 0 <= i <= |entries|
        invariant Valid()
        invariant forall b :: b in buckets ==> b in old(buckets) || fresh(b)
        invariant forall k :: Lookup(policy, Contents(), k) == UnionAt(policy, t0, entries[i..], k)
      {
        i := i - 1;
        PutAllStep(policy, t0, Contents(), entries, i);
        assert forall j :: 0 <= j < |buckets| ==> buckets[j] in old(buckets) || fresh(buckets[j]);
        var previous := Put(Some(entries[i].0), Some(entries[i].1));
      }
      assert entries[0..] == entries;
    }

    /** clone: a new table with the same map; nothing existing is modified. */
    method Clone() returns (clone: Hashtable<K, V>)
      requires Valid()
      ensures fresh(clone) && clone.Valid() && clone.policy == policy
      ensures forall b :: b in clone.buckets ==> fresh(b)
      ensures forall k :: Lookup(policy, clone.Contents(), k) == Lookup(policy, Contents(), k)
    {
      hide WellFormed, Indexed, Sound, Find;
      clone := new Hashtable(policy);
      clone.PutAll(this);
      ListingMeans(policy, Contents());
      forall k
        ensures Lookup(policy, clone.Contents(), k) == Lookup(policy, Contents(), k)
      {
        LookupEmpty<K, V>(policy, k);
      }
    }
  }

  lemma LookupEmpty<K(!new), V>(p: Policy<K>, k: K)
    ensures Lookup<K, V>(p, [], k) == None
  {
  }

  lemma NothingAdded<K(!new), V>(p: Policy<K>, t: Table<K, V>, es: HashBuckets.Entries<K, V>)
    requires es == []
    ensures forall k :: UnionAt(p, t, es, k) == Lookup(p, t, k)
  {
  }

  function KeysOf<K, V>(es: HashBuckets.Entries<K, V>): (keys: seq<K>)
    ensures |keys| == |es| && forall i {:trigger keys[i]} :: 0 <= i < |keys| ==> keys[i] == es[i].0
  {
    if es == [] then [] else KeysOf(es[..|es| - 1]) + [es[|es| - 1].0]
  }

  /** The listed keys are pairwise different, and are exactly the keys of the map. */
  lemma ListedKeys<K(!new), V>(p: Policy<K>, t: Table<K, V>)
    requires Sound(p) && WellFormed(p, t)
    ensures var keys := KeysOf(AllEntries(t));
            && (forall i, j :: 0 <= i < j < |keys| ==> !p.eq(keys[i], keys[j]))
            && (forall k :: Lookup(p, t, k).Some? <==> exists i :: 0 <= i < |keys| && p.eq(k, keys[i]))
  {
    hide Lookup;
    ListingMeans(p, t);
    var es := AllEntries(t);
    var keys := KeysOf(es);
    forall k
      ensures Find(p, es, k).Some? <==> exists i :: 0 <= i < |keys| && p.eq(k, keys[i])
    {
      if Search(p, es, k).Some? {
        assert p.eq(k, keys[Search(p, es, k).value]);
      }
    }
  }

  lemma SameListings<K(!new), V>(p: Policy<K>, t: Table<K, V>, t': Table<K, V>)
    requires Sound(p) && WellFormed(p, t) && WellFormed(p, t')
    ensures (forall k :: Lookup(p, t, k) == Lookup(p, t', k))
            <==> |AllEntries(t)| == |AllEntries(t')| && EntriesWithin(p, AllEntries(t), AllEntries(t'))
  {
    hide Lookup, Find;
    ListingMeans(p, t);
    ListingMeans(p, t');
    EqualsMeans(p, AllEntries(t), AllEntries(t'));
    assert SameMap(p, AllEntries(t), AllEntries(t')) <==> forall k :: Lookup(p, t, k) == Lookup(p, t', k);
  }

  /** Some key of the abstract map has the value. */
  ghost predicate HoldsValue<K(!new), V>(p: Policy<K>, t: Table<K, V>, v: V) {
    exists k :: Lookup(p, t, k) == Some(v)
  }

  /** The values of a table are those of its listed entries. */
  lemma ListedValues<K(!new), V>(p: Policy<K>, t: Table<K, V>, v: V)
    requires Sound(p) && WellFormed(p, t)
    ensures var es := AllEntries(t);
            HoldsValue(p, t, v) <==> exists j :: 0 <= j < |es| && es[j].1 == v
  {
    hide Lookup, UniqueKeys;
    ListingMeans(p, t);
    var es := AllEntries(t);
    forall j | 0 <= j < |es| && es[j].1 == v
      ensures Lookup(p, t, es[j].0) == Some(v)
    {
      FindAt(p, es, es[j].0, j);
    }
  }

  lemma ListedValue<K(!new), V>(p: Policy<K>, t: Table<K, V>, t': Table<K, V>, i: nat)
    requires Sound(p) && WellFormed(p, t) && WellFormed(p, t') && i < |AllEntries(t)|
    ensures Lookup(p, t, AllEntries(t)[i].0) == Some(AllEntries(t)[i].1)
    ensures Lookup(p, t', AllEntries(t)[i].0) == Find(p, AllEntries(t'), AllEntries(t)[i].0)
  {
    ListingMeans(p, t);
    ListingMeans(p, t');
    FindAt(p, AllEntries(t), AllEntries(t)[i].0, i);
  }
}
