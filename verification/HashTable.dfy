/**
 The growable hash table (Xext/hashtable.c): a table of bucket lists that refines a finite map, also across rehashing
 and failed growth.
 */
module HashTables {
  import opened Options
  import opened Bits

  datatype Entry<K, V> = Entry(key: K, data: V)

  const INITHASHSIZE: nat := 6
  const MAXHASHSIZE: nat := 11

  // ---- Bucket tables on values

  /** All entries of the table. */
  function Entries<K(==), V(==)>(buckets: seq<seq<Entry<K, V>>>): multiset<Entry<K, V>> {
    if |buckets| == 0 then multiset{}
    else Entries(buckets[..|buckets| - 1]) + multiset(buckets[|buckets| - 1])
  }

  /** Each entry is in the bucket its key hashes to. */
  ghost predicate Placed<K, V>(buckets: seq<seq<Entry<K, V>>>, hash: (K, nat) -> nat, bits: nat) {
    forall b, i :: 0 <= b < |buckets| && 0 <= i < |buckets[b]| ==> hash(buckets[b][i].key, bits) == b
  }

  ghost predicate HashInRange<K(!new)>(hash: (K, nat) -> nat) {
    forall k: K, bits: nat :: hash(k, bits) < Pow2(bits)
  }

  /** The entries are those of the map, each once. */
  ghost predicate Represents<K(!new), V(!new)>(entries: multiset<Entry<K, V>>, m: map<K, V>) {
    forall k: K, v: V :: entries[Entry(k, v)] == if k in m && m[k] == v then 1 else 0
  }

  lemma {:induction false} EntriesUpdate<K, V>(buckets: seq<seq<Entry<K, V>>>, b: nat, bucket: seq<Entry<K, V>>)
    requires b < |buckets|
    ensures multiset(buckets[b]) <= Entries(buckets)
    ensures Entries(buckets[b := bucket]) == Entries(buckets) - multiset(buckets[b]) + multiset(bucket)
  {
    var n := |buckets| - 1;
    var updated := buckets[b := bucket];
    if b == n {
      assert updated[..n] == buckets[..n];
    } else {
      assert updated[..n] == buckets[..n][b := bucket];
      EntriesUpdate(buckets[..n], b, bucket);
    }
  }

  lemma {:induction false} EntriesNone<K, V>(buckets: seq<seq<Entry<K, V>>>)
    requires forall b :: 0 <= b < |buckets| ==> buckets[b] == []
    ensures Entries(buckets) == multiset{}
  {
    if |buckets| != 0 {
      EntriesNone(buckets[..|buckets| - 1]);
    }
  }

  /** An entry of the table is in some bucket. */
  lemma {:induction false} EntryInBucket<K, V>(buckets: seq<seq<Entry<K, V>>>, e: Entry<K, V>)
    requires e in Entries(buckets)
    ensures exists b, i :: 0 <= b < |buckets| && 0 <= i < |buckets[b]| && buckets[b][i] == e
  {
    var n := |buckets| - 1;
    if e in multiset(buckets[n]) {
      var i :| 0 <= i < |buckets[n]| && buckets[n][i] == e;
    } else {
      EntryInBucket(buckets[..n], e);
      var b, i :| 0 <= b < n && 0 <= i < |buckets[..n][b]| && buckets[..n][b][i] == e;
      assert buckets[b][i] == e;
    }
  }

  /** In a placed table the bucket of a key holds every entry with that key. */
  lemma {:induction false} InOwnBucket<K, V>(buckets: seq<seq<Entry<K, V>>>, hash: (K, nat) -> nat, bits: nat,
                                             e: Entry<K, V>)
    requires Placed(buckets, hash, bits) && hash(e.key, bits) < |buckets|
    ensures e in Entries(buckets) <==> e in buckets[hash(e.key, bits)]
  {
    var own := hash(e.key, bits);
    if e in Entries(buckets) {
      EntryInBucket(buckets, e);
      var b, i :| 0 <= b < |buckets| && 0 <= i < |buckets[b]| && buckets[b][i] == e;
      assert hash(buckets[b][i].key, bits) == b;
    }
    if e in buckets[own] {
      EntriesUpdate(buckets, own, []);
      assert e in multiset(buckets[own]);
    }
  }

  /** `x & ~((~0U) << bits)`, which is how ht_generic_hash brings a hash value into range. */
  function GenericHash(value: nat, bits: nat): (r: nat)
    ensures r == value % Pow2(bits) < Pow2(bits)
  {
    LowIsAnd(value, bits);
    LowIsRemainder(value, bits);
    And(value, Pow2(bits) - 1)
  }

  class HashTable<K(!new, ==), V(!new, ==)> {
    var elements: nat
    var bucketBits: nat
    var buckets: array<seq<Entry<K, V>>>
    const hash: (K, nat) -> nat
    /** The finite map the table stands for. */
    ghost var contents: map<K, V>

    ghost predicate Valid()
      reads this, buckets
    {
      && buckets.Length == Pow2(bucketBits)
      && HashInRange(hash)
      && Placed(buckets[..], hash, bucketBits)
      && Represents(Entries(buckets[..]), contents)
      && elements == |Entries(buckets[..])|
      && (bucketBits < MAXHASHSIZE ==> elements <= 4 * Pow2(bucketBits))
    }

    constructor (hash: (K, nat) -> nat)
      requires HashInRange(hash)
      ensures Valid() && contents == map[] && fresh(buckets) && this.hash == hash
    {
      this.hash := hash;
      elements, bucketBits, contents := 0, INITHASHSIZE, map[];
      buckets := new seq<Entry<K, V>>[Pow2(INITHASHSIZE)](_ => []);
      new;
      EntriesNone(buckets[..]);
    }

    method Find(key: K) returns (found: Option<V>)
      requires Valid()
      ensures found == if key in contents then Some(contents[key]) else None
    {
      var index := hash(key, bucketBits);
      var bucket := buckets[index];
      for i := 0 to |bucket|
        invariant forall j :: 0 <= j < i ==> bucket[j].key != key
      {
        if bucket[i].key == key {
          EntryOfMap(key, bucket[i].data, i);
          return Some(bucket[i].data);
        }
      }
      AbsentFromMap(key);
      return None;
    }

    /** An entry met in its bucket is one of the map's. */
    lemma {:induction false} EntryOfMap(key: K, v: V, i: nat)
      requires Valid() && i < |buckets[hash(key, bucketBits)]|
      requires buckets[hash(key, bucketBits)][i] == Entry(key, v)
      ensures key in contents && contents[key] == v
    {
      InOwnBucket(buckets[..], hash, bucketBits, Entry(key, v));
      assert Entries(buckets[..])[Entry(key, v)] >= 1;
    }

    lemma {:induction false} AbsentFromMap(key: K)
      requires Valid()
      requires forall i :: 0 <= i < |buckets[hash(key, bucketBits)]| ==> buckets[hash(key, bucketBits)][i].key != key
      ensures key !in contents
    {
      if key in contents {
        InOwnBucket(buckets[..], hash, bucketBits, Entry(key, contents[key]));
      }
    }

    /** Twice as many buckets: every entry moves to the front of its new bucket. */
    method DoubleSize(memory: bool) returns (ok: bool)
      requires buckets.Length == Pow2(bucketBits) && HashInRange(hash)
      modifies this`buckets, this`bucketBits
      ensures ok <==> memory
      ensures !ok ==> buckets == old(buckets) && bucketBits == old(bucketBits)
      ensures ok ==> fresh(buckets) && bucketBits == old(bucketBits) + 1 && buckets.Length == Pow2(bucketBits)
      ensures ok ==> Placed(buckets[..], hash, bucketBits) && Entries(buckets[..]) == Entries(old(buckets[..]))
    {
      if !memory {
        return false;
      }
      var newBucketBits := bucketBits + 1;
      var newBuckets := new seq<Entry<K, V>>[Pow2(newBucketBits)](_ => []);
      EntriesNone(newBuckets[..]);
      ghost var source := buckets[..];
      for c := 0 to buckets.Length
        invariant buckets[..] == source
        invariant Placed(newBuckets[..], hash, newBucketBits)
        invariant Entries(newBuckets[..]) == Entries(source[..c])
      {
        MoveBucket(newBuckets, buckets[c], newBucketBits);
        assert source[..c + 1][..c] == source[..c];
      }
      assert source[..buckets.Length] == source;
      buckets, bucketBits := newBuckets, newBucketBits;
      return true;
    }

    /** Move one bucket's entries. */
    method MoveBucket(newBuckets: array<seq<Entry<K, V>>>, bucket: seq<Entry<K, V>>, bits: nat)
      requires newBuckets.Length == Pow2(bits) && HashInRange(hash) && Placed(newBuckets[..], hash, bits)
      modifies newBuckets
      ensures Placed(newBuckets[..], hash, bits)
      ensures Entries(newBuckets[..]) == Entries(old(newBuckets[..])) + multiset(bucket)
    {
      hide Entries, Pow2;
      for i := 0 to |bucket|
        invariant Placed(newBuckets[..], hash, bits)
        invariant Entries(newBuckets[..]) == Entries(old(newBuckets[..])) + multiset(bucket[..i])
      {
        var it := bucket[i];
        var index := hash(it.key, bits);
        PutFront(newBuckets[..], hash, bits, it);
        assert bucket[..i + 1] == bucket[..i] + [it];
        ghost var next := newBuckets[..][index := [it] + newBuckets[index]];
        newBuckets[index] := [it] + newBuckets[index];
        assert newBuckets[..] == next;
      }
      assert bucket[..|bucket|] == bucket;
    }

    /**
     Insert a key that is not in the table. When an allocation fails, also that of the larger table, nothing has
     changed.
     */
    method Add(key: K, data: V, memory: bool, growth: bool) returns (ok: bool)
      requires Valid() && key !in contents
      modifies this, buckets
      ensures Valid() && fresh({buckets} - {old(buckets)})
      ensures ok ==> contents == old(contents)[key := data] && elements == old(elements) + 1
      ensures !ok ==> contents == old(contents) && elements == old(elements) && bucketBits == old(bucketBits)
                      && buckets == old(buckets) && buckets[..] == old(buckets[..])
      ensures var full := old(elements) == 4 * Pow2(old(bucketBits)) && old(bucketBits) < MAXHASHSIZE;
              && (ok <==> memory && (growth || !full))
              && bucketBits == if ok && full then old(bucketBits) + 1 else old(bucketBits)
    {
      hide Entries, Pow2;
      var index := hash(key, bucketBits);
      if !memory {
        return false;
      }
      var e := Entry(key, data);
      ghost var before := buckets[..];
      PutFront(before, hash, bucketBits, e);
      AddedRepresents(Entries(before), contents, key, data);
      buckets[index] := [e] + buckets[index];
      ghost var longer := before[index := [e] + before[index]];
      assert buckets[..] == longer;
      elements := elements + 1;
      GrowthRoom(bucketBits);
      if elements > 4 * Pow2(bucketBits) && bucketBits < MAXHASHSIZE {
        var doubled := DoubleSize(growth);
        if !doubled {
          elements := elements - 1;
          buckets[index] := buckets[index][1..];
          assert buckets[..] == before;
          return false;
        }
      }
      contents := contents[key := data];
      return true;
    }

    /** Remove a key; it is fine if it is not there. */
    method Remove(key: K)
      requires Valid()
      modifies this`elements, this`contents, buckets
      ensures Valid() && contents == old(contents) - {key}
      ensures buckets == old(buckets) && bucketBits == old(bucketBits)
    {
      hide Entries, Pow2;
      var index := hash(key, bucketBits);
      var bucket := buckets[index];
      for i := 0 to |bucket|
        invariant forall j :: 0 <= j < i ==> bucket[j].key != key
      {
        if bucket[i].key == key {
          ghost var before := buckets[..];
          EntryOfMap(key, bucket[i].data, i);
          TakeOut(before, hash, bucketBits, index, i);
          RemovedRepresents(Entries(before), contents, key);
          ghost var shorter := before[index := bucket[..i] + bucket[i + 1..]];
          buckets[index] := bucket[..i] + bucket[i + 1..];
          assert buckets[..] == shorter;
          elements := elements - 1;
          contents := contents - {key};
          return;
        }
      }
      AbsentFromMap(key);
      assert contents - {key} == contents;
    }
  }

  // ---- One entry more, one entry less

  /** Changing one bucket to one whose entries belong there keeps the table placed. */
  lemma {:induction false} PlacedUpdate<K, V>(buckets: seq<seq<Entry<K, V>>>, hash: (K, nat) -> nat, bits: nat, b: nat,
                                              bucket: seq<Entry<K, V>>)
    requires Placed(buckets, hash, bits) && b < |buckets|
    requires forall i :: 0 <= i < |bucket| ==> hash(bucket[i].key, bits) == b
    ensures Placed(buckets[b := bucket], hash, bits)
  {
  }

  lemma {:induction false} PutFront<K, V>(buckets: seq<seq<Entry<K, V>>>, hash: (K, nat) -> nat, bits: nat,
                                          e: Entry<K, V>)
    requires Placed(buckets, hash, bits) && hash(e.key, bits) < |buckets|
    ensures var b := hash(e.key, bits);
            var after := buckets[b := [e] + buckets[b]];
            Placed(after, hash, bits) && Entries(after) == Entries(buckets) + multiset{e}
  {
    var b := hash(e.key, bits);
    var bucket := [e] + buckets[b];
    forall i | 0 <= i < |bucket|
      ensures hash(bucket[i].key, bits) == b
    {
      assert i > 0 ==> bucket[i] == buckets[b][i - 1];
    }
    hide Entries, Placed;
    PlacedUpdate(buckets, hash, bits, b, bucket);
    EntriesUpdate(buckets, b, bucket);
    assert multiset(bucket) == multiset{e} + multiset(buckets[b]);
  }

  lemma {:induction false} TakeOut<K, V>(buckets: seq<seq<Entry<K, V>>>, hash: (K, nat) -> nat, bits: nat, b: nat,
                                         i: nat)
    requires Placed(buckets, hash, bits) && b < |buckets| && i < |buckets[b]|
    ensures var after := buckets[b := buckets[b][..i] + buckets[b][i + 1..]];
            Placed(after, hash, bits) && Entries(after) == Entries(buckets) - multiset{buckets[b][i]}
    ensures buckets[b][i] in Entries(buckets)
  {
    var bucket := buckets[b];
    var rest := bucket[..i] + bucket[i + 1..];
    forall j | 0 <= j < |rest|
      ensures hash(rest[j].key, bits) == b
    {
      assert rest[j] == if j < i then bucket[j] else bucket[j + 1];
    }
    hide Entries, Placed;
    PlacedUpdate(buckets, hash, bits, b, rest);
    EntriesUpdate(buckets, b, rest);
    OneOut(bucket, i);
  }

  lemma {:induction false} OneOut<T>(s: seq<T>, i: nat)
    requires i < |s|
    ensures multiset(s) == multiset(s[..i] + s[i + 1..]) + multiset{s[i]}
  {
    assert s == s[..i] + [s[i]] + s[i + 1..];
  }

  lemma {:induction false} AddedRepresents<K(!new), V(!new)>(entries: multiset<Entry<K, V>>, m: map<K, V>, k: K, v: V)
    requires Represents(entries, m) && k !in m
    ensures Represents(entries + multiset{Entry(k, v)}, m[k := v])
  {
    forall x: K, y: V
      ensures (entries + multiset{Entry(k, v)})[Entry(x, y)] == if x in m[k := v] && m[k := v][x] == y then 1 else 0
    {
      assert entries[Entry(x, y)] == if x in m && m[x] == y then 1 else 0;
    }
  }

  lemma {:induction false} RemovedRepresents<K(!new), V(!new)>(entries: multiset<Entry<K, V>>, m: map<K, V>, k: K)
    requires Represents(entries, m) && k in m
    ensures Represents(entries - multiset{Entry(k, m[k])}, m - {k})
  {
    forall x: K, y: V
      ensures (entries - multiset{Entry(k, m[k])})[Entry(x, y)] == if x in m - {k} && (m - {k})[x] == y then 1 else 0
    {
      assert entries[Entry(x, y)] == if x in m && m[x] == y then 1 else 0;
    }
  }

  lemma {:induction false} GrowthRoom(bits: nat)
    ensures 4 * Pow2(bits) + 1 <= 4 * Pow2(bits + 1)
  {
  }
}
