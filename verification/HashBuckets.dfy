/** The contents of a jshashtable (hashtable.js) as a value: the list of its buckets. What put, get, remove
    and the listing functions do to it, and the abstract map it stands for. */
module HashBuckets {
  import opened Options

  /** The hash and equality functions of a table, and its replaceDuplicateKey property. */
  datatype Policy<!K> = Policy(hash: K -> string, eq: (K, K) -> bool, replaceDuplicateKey: bool)

  /** Equality is an equivalence and equal keys hash alike. */
  ghost predicate Sound<K(!new)>(p: Policy<K>) {
    && (forall a :: p.eq(a, a))
    && (forall a, b :: p.eq(a, b) ==> p.eq(b, a) && p.hash(a) == p.hash(b))
    && (forall a, b, c :: p.eq(a, b) && p.eq(b, c) ==> p.eq(a, c))
  }

  type Entries<K, V> = seq<(K, V)>

  datatype BucketValue<K, V> = BucketValue(hash: string, entries: Entries<K, V>)

  type Table<K, V> = seq<BucketValue<K, V>>

  // ---------------------------------------------------------------- one bucket

  /** Index of the entry for a key; the source scans from the end. */
  function Search<K, V>(p: Policy<K>, es: Entries<K, V>, key: K): (i: Option<nat>)
    ensures i.Some? ==> i.value < |es| && p.eq(key, es[i.value].0)
    ensures i.Some? ==> forall j :: i.value < j < |es| ==> !p.eq(key, es[j].0)
    ensures i.None? ==> forall j :: 0 <= j < |es| ==> !p.eq(key, es[j].0)
  {
    if es == [] then None
    else if p.eq(key, es[|es| - 1].0) then Some(|es| - 1)
    else Search(p, es[..|es| - 1], key)
  }

  function Find<K, V>(p: Policy<K>, es: Entries<K, V>, key: K): Option<V> {
    match Search(p, es, key)
    case None => None
    case Some(i) => Some(es[i].1)
  }

  ghost predicate UniqueKeys<K, V>(p: Policy<K>, es: Entries<K, V>) {
    forall i, j :: 0 <= i < j < |es| ==> !p.eq(es[i].0, es[j].0)
  }

  function PutEntry<K, V>(p: Policy<K>, es: Entries<K, V>, key: K, value: V): Entries<K, V> {
    match Search(p, es, key)
    case None => es + [(key, value)]
    case Some(i) => es[i := (if p.replaceDuplicateKey then key else es[i].0, value)]
  }

  function RemoveEntry<K, V>(p: Policy<K>, es: Entries<K, V>, key: K): Entries<K, V> {
    match Search(p, es, key)
    case None => es
    case Some(i) => es[..i] + es[i + 1..]
  }

  lemma FindAt<K(!new), V>(p: Policy<K>, es: Entries<K, V>, key: K, i: nat)
    requires Sound(p) && UniqueKeys(p, es) && i < |es| && p.eq(key, es[i].0)
    ensures Search(p, es, key) == Some(i) && Find(p, es, key) == Some(es[i].1)
  {
    if Search(p, es, key).Some? {
      SameClass(p, key, es[i].0, es[Search(p, es, key).value].0);
    }
  }

  lemma SameClass<K(!new)>(p: Policy<K>, key: K, a: K, b: K)
    requires Sound(p) && p.eq(key, a) && p.eq(key, b)
    ensures p.eq(a, b) && p.eq(b, a)
  {
  }

  lemma OthersDiffer<K(!new), V>(p: Policy<K>, es: Entries<K, V>, key: K, i: nat)
    requires Sound(p) && UniqueKeys(p, es) && i < |es| && p.eq(key, es[i].0)
    ensures forall j :: 0 <= j < |es| && j != i ==> !p.eq(key, es[j].0) && !p.eq(es[j].0, key)
  {
  }

  lemma PutEntryMeans<K(!new), V>(p: Policy<K>, es: Entries<K, V>, key: K, value: V)
    requires Sound(p) && UniqueKeys(p, es)
    ensures UniqueKeys(p, PutEntry(p, es, key, value))
    ensures forall k :: Find(p, PutEntry(p, es, key, value), k) == if p.eq(key, k) then Some(value) else Find(p, es, k)
  {
    hide Find, PutEntry;
    PutEntryIs(p, es, key, value);
    PutEntryUnique(p, es, key, value);
    forall k
      ensures Find(p, PutEntry(p, es, key, value), k) == if p.eq(key, k) then Some(value) else Find(p, es, k)
    {
      FindPut(p, es, key, value, k);
    }
  }

  /** The place a put writes to. */
  function PutPlace<K, V>(p: Policy<K>, es: Entries<K, V>, key: K): nat {
    match Search(p, es, key) case None => |es| case Some(i) => i
  }

  /** A put writes one place, with an equal key, and leaves the others, whose keys are not equal to it. */
  lemma PutEntryIs<K(!new), V>(p: Policy<K>, es: Entries<K, V>, key: K, value: V)
    requires Sound(p) && UniqueKeys(p, es)
    ensures var es', n := PutEntry(p, es, key, value), PutPlace(p, es, key);
            && n <= |es| && n < |es'| && |es'| == (if n == |es| then n + 1 else |es|)
            && p.eq(key, es'[n].0) && es'[n].1 == value
            && (es == [] ==> es' == [(key, value)])
            && forall j {:trigger es'[j]} {:trigger es[j]} :: 0 <= j < |es'| && j != n ==>
                 j < |es| && es'[j] == es[j] && !p.eq(key, es[j].0)
  {
    if Search(p, es, key).Some? {
      OthersDiffer(p, es, key, PutPlace(p, es, key));
    }
  }

  lemma PutEntryUnique<K(!new), V>(p: Policy<K>, es: Entries<K, V>, key: K, value: V)
    requires Sound(p) && UniqueKeys(p, es)
    ensures UniqueKeys(p, PutEntry(p, es, key, value))
  {
    PutEntryIs(p, es, key, value);
    hide PutEntry, PutPlace, Search;
    var es', n := PutEntry(p, es, key, value), PutPlace(p, es, key);
    forall i, j | 0 <= i < j < |es'|
      ensures !p.eq(es'[i].0, es'[j].0)
    {
      if i == n {
        assert es'[j] == es[j];
      } else if j == n {
        assert es'[i] == es[i];
      }
    }
  }

  lemma FindPut<K(!new), V>(p: Policy<K>, es: Entries<K, V>, key: K, value: V, k: K)
    requires Sound(p) && UniqueKeys(p, es)
    ensures Find(p, PutEntry(p, es, key, value), k) == if p.eq(key, k) then Some(value) else Find(p, es, k)
  {
    PutEntryIs(p, es, key, value);
    PutEntryUnique(p, es, key, value);
    hide PutEntry, PutPlace, UniqueKeys;
    var es', n := PutEntry(p, es, key, value), PutPlace(p, es, key);
    if p.eq(key, k) {
      FindAt(p, es', k, n);
    } else if Search(p, es, k).Some? {
      var j := Search(p, es, k).value;
      assert j != n && es'[j] == es[j];
      FindAt(p, es', k, j);
    }
  }

  lemma RemoveEntryMeans<K(!new), V>(p: Policy<K>, es: Entries<K, V>, key: K)
    requires Sound(p) && UniqueKeys(p, es)
    ensures UniqueKeys(p, RemoveEntry(p, es, key))
    ensures forall k :: Find(p, RemoveEntry(p, es, key), k) == if p.eq(key, k) then None else Find(p, es, k)
    ensures forall e :: e in RemoveEntry(p, es, key) ==> e in es
  {
    if Search(p, es, key).Some? {
      RemovedAt(p, es, key, Search(p, es, key).value);
    }
    hide Find, UniqueKeys;
    forall k
      ensures Find(p, RemoveEntry(p, es, key), k) == if p.eq(key, k) then None else Find(p, es, k)
    {
      FindRemoved(p, es, key, k);
    }
  }

  lemma FindRemoved<K(!new), V>(p: Policy<K>, es: Entries<K, V>, key: K, k: K)
    requires Sound(p) && UniqueKeys(p, es)
    ensures Find(p, RemoveEntry(p, es, key), k) == if p.eq(key, k) then None else Find(p, es, k)
  {
    var es' := RemoveEntry(p, es, key);
    var at := Search(p, es, key);
    if at.Some? {
      RemovedAt(p, es, key, at.value);
    }
    hide UniqueKeys;
    if p.eq(key, k) {
      if Search(p, es', k).Some? {
        SameClass(p, k, key, es'[Search(p, es', k).value].0);
      }
    } else if at.Some? && Search(p, es, k).Some? {
      var o := Search(p, es, k).value;
      assert o != at.value;
      FindAt(p, es', k, if o < at.value then o else o - 1);
    }
  }

  lemma RemovedAt<K(!new), V>(p: Policy<K>, es: Entries<K, V>, key: K, n: nat)
    requires Sound(p) && UniqueKeys(p, es) && Search(p, es, key) == Some(n)
    ensures var es' := es[..n] + es[n + 1..];
            && UniqueKeys(p, es')
            && forall j {:trigger es'[j]} :: 0 <= j < |es'| ==>
                es'[j] == es[if j < n then j else j + 1] && !p.eq(key, es'[j].0)
  {
    var es' := es[..n] + es[n + 1..];
    forall j | 0 <= j < |es'|
      ensures es'[j] == es[if j < n then j else j + 1] && !p.eq(key, es'[j].0)
    {
      OthersDiffer(p, es, key, n);
    }
  }
}
