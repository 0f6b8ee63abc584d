/** A whole jshashtable as a value, and the abstract map from keys to values it stands for. */
module HashContents {
  import opened HashBuckets
  import opened Options

  function BucketAt<K, V>(t: Table<K, V>, hash: string): (i: Option<nat>)
    ensures i.Some? ==> i.value < |t| && t[i.value].hash == hash
    ensures i.None? ==> forall j :: 0 <= j < |t| ==> t[j].hash != hash
  {
    if t == [] then None
    else if t[|t| - 1].hash == hash then Some(|t| - 1)
    else BucketAt(t[..|t| - 1], hash)
  }

  ghost predicate BucketOk<K(!new), V>(p: Policy<K>, b: BucketValue<K, V>) {
    && b.entries != []
    && UniqueKeys(p, b.entries)
    && forall i {:trigger b.entries[i]} :: 0 <= i < |b.entries| ==> p.hash(b.entries[i].0) == b.hash
  }

  /** Buckets have distinct hashes, none is empty, and each holds distinct keys with its hash. */
  ghost predicate WellFormed<K(!new), V>(p: Policy<K>, t: Table<K, V>) {
    && (forall i, j :: 0 <= i < j < |t| ==> t[i].hash != t[j].hash)
    && forall i {:trigger t[i]} :: 0 <= i < |t| ==> BucketOk(p, t[i])
  }

  function Lookup<K, V>(p: Policy<K>, t: Table<K, V>, key: K): Option<V> {
    match BucketAt(t, p.hash(key))
    case None => None
    case Some(i) => Find(p, t[i].entries, key)
  }

  function PutTable<K, V>(p: Policy<K>, t: Table<K, V>, key: K, value: V): Table<K, V> {
    match BucketAt(t, p.hash(key))
    case None => t + [BucketValue(p.hash(key), [(key, value)])]
    case Some(i) => t[i := BucketValue(t[i].hash, PutEntry(p, t[i].entries, key, value))]
  }

  function RemoveTable<K, V>(p: Policy<K>, t: Table<K, V>, key: K): Table<K, V> {
    match BucketAt(t, p.hash(key))
    case None => t
    case Some(i) =>
      var es := RemoveEntry(p, t[i].entries, key);
      if es == [] then t[..i] + t[i + 1..] else t[i := BucketValue(t[i].hash, es)]
  }

  /** What get, put and remove do, by what the two searches found. */
  lemma BySearch<K, V>(p: Policy<K>, t: Table<K, V>, key: K, value: V)
    ensures BucketAt(t, p.hash(key)) == None ==>
              && Lookup(p, t, key) == None
              && PutTable(p, t, key, value) == t + [BucketValue(p.hash(key), [(key, value)])]
    ensures BucketAt(t, p.hash(key)).Some? ==>
              var n := BucketAt(t, p.hash(key)).value;
              var es := t[n].entries;
              match Search(p, es, key)
              case None =>
                && Lookup(p, t, key) == None
                && PutTable(p, t, key, value) == t[n := BucketValue(t[n].hash, es + [(key, value)])]
              case Some(i) =>
                && Lookup(p, t, key) == Some(es[i].1)
                && PutTable(p, t, key, value)
                   == t[n := BucketValue(t[n].hash, es[i := (if p.replaceDuplicateKey then key else es[i].0, value)])]
  {
    hide BucketAt, Search;
  }

  lemma RemoveBySearch<K, V>(p: Policy<K>, t: Table<K, V>, key: K)
    ensures BucketAt(t, p.hash(key)) == None ==> RemoveTable(p, t, key) == t && Lookup(p, t, key) == None
    ensures BucketAt(t, p.hash(key)).Some? ==>
              var n := BucketAt(t, p.hash(key)).value;
              var es := t[n].entries;
              match Search(p, es, key)
              case None => Lookup(p, t, key) == None
              case Some(i) =>
                && Lookup(p, t, key) == Some(es[i].1)
                && RemoveTable(p, t, key)
                   == (if es[..i] + es[i + 1..] == [] then t[..n] + t[n + 1..]
                       else t[n := BucketValue(t[n].hash, es[..i] + es[i + 1..])])
  {
    hide BucketAt, Search;
  }

  lemma LookupBySearch<K, V>(p: Policy<K>, t: Table<K, V>, key: K)
    ensures Lookup(p, t, key)
         == match BucketAt(t, p.hash(key))
            case None => None
            case Some(n) =>
              match Search(p, t[n].entries, key) case None => None case Some(i) => Some(t[n].entries[i].1)
  {
    hide BucketAt, Search;
  }

  lemma BucketIs<K(!new), V>(p: Policy<K>, t: Table<K, V>, i: nat)
    requires WellFormed(p, t) && i < |t|
    ensures BucketAt(t, t[i].hash) == Some(i)
  {
  }

  lemma LookupIn<K(!new), V>(p: Policy<K>, t: Table<K, V>, i: nat, key: K)
    requires WellFormed(p, t) && i < |t| && t[i].hash == p.hash(key)
    ensures Lookup(p, t, key) == Find(p, t[i].entries, key)
  {
    BucketIs(p, t, i);
  }

  lemma LookupMissing<K(!new), V>(p: Policy<K>, t: Table<K, V>, key: K)
    requires forall j {:trigger t[j]} :: 0 <= j < |t| ==> t[j].hash != p.hash(key)
    ensures Lookup(p, t, key) == None
  {
  }

  /** put changes the abstract map at the key, and nowhere else. */
  lemma PutMeans<K(!new), V>(p: Policy<K>, t: Table<K, V>, key: K, value: V)
    requires Sound(p) && WellFormed(p, t)
    ensures WellFormed(p, PutTable(p, t, key, value))
    ensures forall k ::
              Lookup(p, PutTable(p, t, key, value), k) == if p.eq(key, k) then Some(value) else Lookup(p, t, k)
  {
    hide Lookup, Find, UniqueKeys, PutEntry, Search;
    var h := p.hash(key);
    var t' := PutTable(p, t, key, value);
    var at := BucketAt(t, h);
    var n := if at.None? then |t| else at.value;
    if at.Some? {
      PutBucket(p, t[n].entries, key, value);
      BucketIs(p, t, n);
    } else {
      PutFirst(p, key, value);
    }
    assert WellFormed(p, t');
    forall k
      ensures Lookup(p, t', k) == if p.eq(key, k) then Some(value) else Lookup(p, t, k)
    {
      if p.hash(k) == h {
        LookupIn(p, t', n, k);
        if at.Some? { LookupIn(p, t, n, k); } else { LookupMissing(p, t, k); }
      } else {
        LookupElsewhere(p, t, t', n, k);
      }
    }
  }

  /** A key and value that are stored together; the key is one of an equivalence class. */
  ghost predicate HasEntry<K(!new), V>(t: Table<K, V>, key: K, value: V) {
    exists n :: 0 <= n < |t| && (key, value) in t[n].entries
  }

  /** Of the equal keys put into it a table keeps the first, or with replaceDuplicateKey the last. */
  lemma PutKeepsKey<K(!new), V>(p: Policy<K>, t: Table<K, V>, key: K, value: V) returns (kept: K, before: V)
    requires Sound(p) && WellFormed(p, t)
    ensures HasEntry(PutTable(p, t, key, value), kept, value)
    ensures Lookup(p, t, key) == None || p.replaceDuplicateKey ==> kept == key
    ensures Lookup(p, t, key).Some? && !p.replaceDuplicateKey ==> p.eq(key, kept) && HasEntry(t, kept, before)
  {
    before := value;
    BySearch(p, t, key, value);
    var t' := PutTable(p, t, key, value);
    hide PutTable, Lookup, BucketAt, Search;
    match BucketAt(t, p.hash(key))
    case None =>
      kept := key;
      assert t'[|t|].entries[0] == (key, value);
    case Some(n) =>
      var es := t[n].entries;
      match Search(p, es, key)
      case None =>
        kept := key;
        assert t'[n].entries[|es|] == (key, value);
      case Some(i) =>
        kept, before := if p.replaceDuplicateKey then key else es[i].0, es[i].1;
        assert es[i] in t[n].entries && t'[n].entries[i] == (kept, value);
  }

  lemma PutBucket<K(!new), V>(p: Policy<K>, es: Entries<K, V>, key: K, value: V)
    requires Sound(p) && UniqueKeys(p, es)
    requires forall i {:trigger es[i]} :: 0 <= i < |es| ==> p.hash(es[i].0) == p.hash(key)
    ensures BucketOk(p, BucketValue(p.hash(key), PutEntry(p, es, key, value)))
    ensures forall k :: Find(p, PutEntry(p, es, key, value), k) == if p.eq(key, k) then Some(value) else Find(p, es, k)
    ensures es == [] ==> PutEntry(p, es, key, value) == [(key, value)]
  {
    PutEntryMeans(p, es, key, value);
    PutEntryIs(p, es, key, value);
    hide PutEntry, Find, UniqueKeys;
  }

  lemma PutFirst<K(!new), V>(p: Policy<K>, key: K, value: V)
    requires Sound(p)
    ensures BucketOk(p, BucketValue(p.hash(key), [(key, value)]))
    ensures forall k :: Find(p, [(key, value)], k) == if p.eq(key, k) then Some(value) else None
  {
    PutBucket(p, [], key, value);
  }

  lemma FindNothing<K(!new), V>(p: Policy<K>, key: K, es: Entries<K, V>)
    requires es == []
    ensures Find(p, es, key) == None
  {
  }

  /** A change of one bucket does not affect keys with another hash. */
  lemma LookupElsewhere<K(!new), V>(p: Policy<K>, t: Table<K, V>, t': Table<K, V>, n: nat, key: K)
    requires WellFormed(p, t) && WellFormed(p, t')
    requires n <= |t| && n < |t'| && |t| <= |t'| <= if n < |t| then |t| else |t| + 1
    requires forall j {:trigger t[j]} {:trigger t'[j]} :: 0 <= j < |t| && j != n ==> t'[j] == t[j]
    requires t'[n].hash != p.hash(key) && (n < |t| ==> t[n].hash != p.hash(key))
    ensures Lookup(p, t', key) == Lookup(p, t, key)
  {
    hide Find;
    match BucketAt(t, p.hash(key))
    case None => LookupMissing(p, t', key);
    case Some(i) => LookupIn(p, t', i, key);
  }

  /** remove deletes the key from the abstract map, and nothing else. */
  lemma RemoveMeans<K(!new), V>(p: Policy<K>, t: Table<K, V>, key: K)
    requires Sound(p) && WellFormed(p, t)
    ensures WellFormed(p, RemoveTable(p, t, key))
    ensures forall k :: Lookup(p, RemoveTable(p, t, key), k) == if p.eq(key, k) then None else Lookup(p, t, k)
  {
    hide Lookup, Find, UniqueKeys, RemoveEntry, Search;
    var h := p.hash(key);
    var t' := RemoveTable(p, t, key);
    match BucketAt(t, h)
    case None =>
      forall k | p.eq(key, k)
        ensures Lookup(p, t, k) == None
      {
        LookupMissing(p, t, k);
      }
    case Some(n) =>
      var es := t[n].entries;
      var es' := RemoveEntry(p, es, key);
      RemoveBucket(p, es, key, h);
      BucketIs(p, t, n);
      if es' == [] {
        DroppedBucket(p, t, n);
      }
      forall k
        ensures Lookup(p, t', k) == if p.eq(key, k) then None else Lookup(p, t, k)
      {
        if p.hash(k) == h {
          LookupIn(p, t, n, k);
          if es' == [] {
            LookupMissing(p, t', k);
            FindNothing(p, k, es');
          } else {
            LookupIn(p, t', n, k);
          }
        } else if es' == [] {
          LookupDropped(p, t, n, k);
        } else {
          LookupElsewhere(p, t, t', n, k);
        }
      }
  }

  lemma RemoveBucket<K(!new), V>(p: Policy<K>, es: Entries<K, V>, key: K, h: string)
    requires Sound(p) && BucketOk(p, BucketValue(h, es))
    ensures var es' := RemoveEntry(p, es, key);
            && (es' != [] ==> BucketOk(p, BucketValue(h, es')))
            && forall k :: Find(p, es', k) == if p.eq(key, k) then None else Find(p, es, k)
  {
    RemoveEntryMeans(p, es, key);
    var es' := RemoveEntry(p, es, key);
    forall i | 0 <= i < |es'|
      ensures p.hash(es'[i].0) == h
    {
      assert es'[i] in es;
      var j :| 0 <= j < |es| && es[j] == es'[i];
    }
  }

  lemma DroppedBucket<K(!new), V>(p: Policy<K>, t: Table<K, V>, n: nat)
    requires WellFormed(p, t) && n < |t|
    ensures var t' := t[..n] + t[n + 1..];
            && WellFormed(p, t')
            && forall j {:trigger t'[j]} :: 0 <= j < |t'| ==>
                t'[j] == t[if j < n then j else j + 1] && t'[j].hash != t[n].hash
  {
    hide BucketOk;
  }

  lemma LookupDropped<K(!new), V>(p: Policy<K>, t: Table<K, V>, n: nat, key: K)
    requires WellFormed(p, t) && n < |t| && t[n].hash != p.hash(key)
    ensures Lookup(p, t[..n] + t[n + 1..], key) == Lookup(p, t, key)
  {
    hide Find, BucketOk;
    var t' := t[..n] + t[n + 1..];
    DroppedBucket(p, t, n);
    match BucketAt(t, p.hash(key))
    case None => LookupMissing(p, t', key);
    case Some(i) => LookupIn(p, t', if i < n then i else i - 1, key);
  }
}
