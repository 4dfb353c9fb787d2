/** The chained hash table of flb_hash_table.c, a refinement of OrderedMap. */
module HashTable {
  import opened Bytes
  import opened OrderedMap

  class Entry {
    const key: Key
    const hash: nat
    /** The chain the entry is linked into. */
    const bucket: nat
    var value: Value
    var created: int
    var hits: nat

    constructor (key: Key, hash: nat, bucket: nat, value: Value, now: int)
      ensures this.key == key && this.hash == hash && this.bucket == bucket
      ensures this.value == value && created == now && hits == 0
    {
      this.key, this.hash, this.bucket := key, hash, bucket;
      this.value, created, hits := value, now, 0;
    }
  }

  /** `strncmp` or `strncasecmp` on keys of equal length. */
  predicate SameKey(caseSensitive: bool, a: seq<byte>, b: seq<byte>) {
    |a| == |b| && if caseSensitive then a == b else Fold(a) == Fold(b)
  }

  /** The entries linked into chain `b`, in the order of the global list. */
  ghost function InBucket(s: seq<Entry>, b: nat): seq<Entry> {
    if s == [] then []
    else InBucket(s[..|s| - 1], b) + if s[|s| - 1].bucket == b then [s[|s| - 1]] else []
  }

  /** `mk_list_del`: the list without the node. */
  function Unlink(s: seq<Entry>, e: Entry): seq<Entry> {
    if s == [] then []
    else if s[|s| - 1] == e then s[..|s| - 1]
    else Unlink(s[..|s| - 1], e) + [s[|s| - 1]]
  }

  lemma {:induction false} InBucketHas(s: seq<Entry>, b: nat, e: Entry)
    ensures e in InBucket(s, b) <==> e in s && e.bucket == b
  {
    if s != [] {
      InBucketHas(s[..|s| - 1], b, e);
      assert s == s[..|s| - 1] + [s[|s| - 1]];
    }
  }

  lemma {:induction false} UnlinkBucket(s: seq<Entry>, b: nat, e: Entry)
    ensures InBucket(Unlink(s, e), b) == if e.bucket == b then Unlink(InBucket(s, b), e) else InBucket(s, b)
  {
    if s != [] {
      var init, last := s[..|s| - 1], s[|s| - 1];
      UnlinkBucket(init, b, e);
      var c := InBucket(s, b);
      assert last.bucket == b ==> c[..|c| - 1] == InBucket(init, b) && c[|c| - 1] == last;
      assert last.bucket != b ==> c == InBucket(init, b) + [] == InBucket(init, b);
      if last != e {
        var u := Unlink(s, e);
        assert u[..|u| - 1] == Unlink(init, e) && u[|u| - 1] == last;
      }
    }
  }

  lemma {:induction false} UnlinkAt(s: seq<Entry>, i: nat)
    requires i < |s| && forall j :: i < j < |s| ==> s[j] != s[i]
    ensures Unlink(s, s[i]) == RemoveAt(s, i)
  {
    if i < |s| - 1 {
      UnlinkAt(s[..|s| - 1], i);
      assert RemoveAt(s, i) == RemoveAt(s[..|s| - 1], i) + [s[|s| - 1]];
    } else {
      assert RemoveAt(s, i) == s[..|s| - 1];
    }
  }

  lemma {:induction false} UnlinkLength(s: seq<Entry>, e: Entry)
    requires e in s
    ensures |Unlink(s, e)| == |s| - 1
  {
    if s[|s| - 1] != e {
      UnlinkLength(s[..|s| - 1], e);
    }
  }

  /** Every chain holds the entries of its bucket, and its counter is its length. */
  ghost predicate Linked(size: nat, chains: seq<seq<Entry>>, counts: seq<nat>, entries: seq<Entry>) {
    && 0 < size == |chains| == |counts|
    && forall b :: 0 <= b < size ==> chains[b] == InBucket(entries, b) && counts[b] == |chains[b]|
  }

  /** Every entry is in the bucket of its folded key's hash, and no two keys are equal. */
  ghost predicate Keyed(size: nat, hashOf: seq<byte> -> nat, cs: bool, entries: seq<Entry>) {
    && 0 < size
    && (forall i :: 0 <= i < |entries| ==>
          && entries[i].key != []
          && entries[i].hash == hashOf(Canon(cs, entries[i].key))
          && entries[i].bucket == entries[i].hash % size)
    && (forall i, j :: 0 <= i < j < |entries| ==> Canon(cs, entries[i].key) != Canon(cs, entries[j].key))
  }

  lemma KeyedRemove(size: nat, hashOf: seq<byte> -> nat, cs: bool, entries: seq<Entry>, i: nat)
    requires Keyed(size, hashOf, cs, entries) && i < |entries|
    ensures Keyed(size, hashOf, cs, RemoveAt(entries, i))
  {
    hide Canon;
    var r := RemoveAt(entries, i);
    forall a, b | 0 <= a < b < |r|
      ensures Canon(cs, r[a].key) != Canon(cs, r[b].key)
    {
      var a', b' := if a < i then a else a + 1, if b < i then b else b + 1;
      assert r[a] == entries[a'] && r[b] == entries[b'];
    }
  }

  lemma LinkedAppend(size: nat, chains: seq<seq<Entry>>, counts: seq<nat>, entries: seq<Entry>, e: Entry)
    requires Linked(size, chains, counts, entries) && e.bucket < size
    ensures Linked(size, chains[e.bucket := chains[e.bucket] + [e]], counts[e.bucket := counts[e.bucket] + 1], entries + [e])
  {
    assert (entries + [e])[..|entries|] == entries;
  }

  lemma KeyedEntry(size: nat, hashOf: seq<byte> -> nat, cs: bool, entries: seq<Entry>, i: nat)
    requires Keyed(size, hashOf, cs, entries) && i < |entries|
    ensures entries[i].bucket < size
    ensures forall j :: 0 <= j < |entries| && entries[j] == entries[i] ==> j == i
  {
  }

  /** Unlinking an entry from both of its lists keeps them in step. */
  lemma LinkedUnlink(size: nat, chains: seq<seq<Entry>>, counts: seq<nat>, entries: seq<Entry>, e: Entry)
    requires Linked(size, chains, counts, entries) && e in entries && e.bucket < size
    ensures |chains| == |counts| == size && counts[e.bucket] > 0
    ensures Linked(size, chains[e.bucket := Unlink(chains[e.bucket], e)], counts[e.bucket := counts[e.bucket] - 1],
                   Unlink(entries, e))
  {
    InBucketHas(entries, e.bucket, e);
    UnlinkLength(chains[e.bucket], e);
    forall b | 0 <= b < size
      ensures InBucket(Unlink(entries, e), b) == if e.bucket == b then Unlink(chains[b], e) else chains[b]
    {
      UnlinkBucket(entries, b, e);
    }
  }

  class Table {
    const size: nat
    const evictMode: int
    const maxEntries: int
    const cacheTtl: int
    /** The hash function is any function at all. */
    const hashOf: seq<byte> -> nat
    var caseSensitive: bool
    var chains: seq<seq<Entry>>
    var counts: seq<nat>
    var entries: seq<Entry>
    var totalCount: nat

    ghost function Cfg(): Config
      reads this
    {
      Config(caseSensitive, evictMode, maxEntries, cacheTtl)
    }

    /** The ordered map this table stands for. */
    ghost function View(): (m: seq<Item>)
      reads this, entries
      ensures |m| == |entries|
      ensures forall i :: 0 <= i < |m| ==>
                m[i] == Item(entries[i].key, entries[i].value, entries[i].created, entries[i].hits)
    {
      seq(|entries|, i requires 0 <= i < |entries| reads this, entries =>
        Item(entries[i].key, entries[i].value, entries[i].created, entries[i].hits))
    }

    ghost predicate Valid()
      reads this
    {
      && 0 < size == |chains| == |counts|
      && Linked(size, chains, counts, entries) && totalCount == |entries|
      && Keyed(size, hashOf, caseSensitive, entries)
    }

    constructor (evictMode: int, size: nat, maxEntries: int, cacheTtl: int, hashOf: seq<byte> -> nat)
      requires size > 0
      ensures Valid() && entries == [] && Cfg() == Config(true, evictMode, maxEntries, cacheTtl)
      ensures this.size == size && this.hashOf == hashOf
    {
      this.evictMode, this.size, this.maxEntries, this.cacheTtl, this.hashOf := evictMode, size, maxEntries, cacheTtl, hashOf;
      caseSensitive, entries, totalCount := true, [], 0;
      chains, counts := seq(size, _ => []), seq(size, _ => 0);
    }

    /** Compares keys from now on with or without regard to case. The table stays sound exactly if its entries stand
        where the new comparison looks for them, and none of them fall together. */
    method SetCaseSensitivity(status: bool)
      requires Valid()
      modifies this`caseSensitive
      ensures caseSensitive == status && (Valid() <==> Keyed(size, hashOf, status, entries))
      ensures entries == [] || status == old(caseSensitive) ==> Valid()
    {
      caseSensitive := status;
    }

    /** The entry stored under a key, found through its chain. */
    method HashGetEntry(key: Key) returns (e: Entry?)
      requires Valid()
      ensures key == [] ==> e == null
      ensures key != [] ==>
                var i := Find(caseSensitive, View(), key);
                if i < 0 then e == null else e == entries[i]
    {
      if |key| == 0 {
        return null;
      }
      var id := hashOf(Canon(caseSensitive, key)) % size;
      if counts[id] == 0 {
        e := null;
      } else if counts[id] == 1 {
        e := chains[id][0];
        if !SameKey(caseSensitive, e.key, key) {
          e := null;
        }
      } else {
        e := null;
        var j := 0;
        while j < |chains[id]|
          invariant 0 <= j <= |chains[id]|
          invariant e == null
          invariant forall k :: 0 <= k < j ==> !SameKey(caseSensitive, chains[id][k].key, key)
        {
          e := chains[id][j];
          if SameKey(caseSensitive, e.key, key) {
            break;
          }
          e := null;
          j := j + 1;
        }
      }
      ChainAnswers(key, e, id);
    }

    /** A match in the chain is the match in the whole table, and no match in the chain is none at all. */
    lemma ChainAnswers(key: Key, e: Entry?, id: nat)
      requires Valid() && id == hashOf(Canon(caseSensitive, key)) % size
      requires e != null ==> e in chains[id] && SameKey(caseSensitive, e.key, key)
      requires e == null ==> forall k :: 0 <= k < |chains[id]| ==> !SameKey(caseSensitive, chains[id][k].key, key)
      ensures var i := Find(caseSensitive, View(), key);
              if i < 0 then e == null else e == entries[i]
    {
      var i := Find(caseSensitive, View(), key);
      if e != null {
        InBucketHas(entries, id, e);
        var k :| 0 <= k < |entries| && entries[k] == e;
        FindIs(caseSensitive, View(), key, k);
      } else if i >= 0 {
        InBucketHas(entries, id, entries[i]);
      }
    }

    /** Unlinks an entry from its chain and from the global list. */
    method EntryFree(e: Entry, ghost i: nat)
      requires Valid() && i < |entries| && entries[i] == e
      modifies this`chains, this`counts, this`entries, this`totalCount
      ensures Valid() && entries == RemoveAt(old(entries), i)
      ensures View() == RemoveAt(old(View()), i)
      ensures forall e :: e in entries ==> e in old(entries)
    {
      hide Linked, Keyed, Unlink;
      KeyedEntry(size, hashOf, caseSensitive, entries, i);
      UnlinkAt(entries, i);
      LinkedUnlink(size, chains, counts, entries, e);
      KeyedRemove(size, hashOf, caseSensitive, entries, i);
      chains := chains[e.bucket := Unlink(chains[e.bucket], e)];
      entries := Unlink(entries, e);
      counts := counts[e.bucket := counts[e.bucket] - 1];
      totalCount := totalCount - 1;
    }

    /** The entry with the fewest hits, the earliest of them. */
    method EvictLessUsed()
      requires Valid() && entries != []
      modifies this`chains, this`counts, this`entries, this`totalCount
      ensures Valid() && View() == RemoveAt(old(View()), LeastUsed(old(View())))
      ensures forall e :: e in entries ==> e in old(entries)
    {
      hide Linked, Keyed;
      var lessUsed := entries[0];
      ghost var at := 0;
      var j := 0;
      while j < |entries|
        invariant 0 <= j <= |entries|
        invariant at < |entries| && lessUsed == entries[at] && (at < j || (at == 0 && j == 0))
        invariant forall k :: 0 <= k < j ==> lessUsed.hits <= entries[k].hits
        invariant forall k :: 0 <= k < at ==> lessUsed.hits < entries[k].hits
      {
        if entries[j].hits < lessUsed.hits {
          lessUsed := entries[j];
          at := j;
        }
        j := j + 1;
      }
      assert LeastUsed(View()) == at;
      EntryFree(lessUsed, at);
    }

    /** The `random() % total_count`-th entry of the global list. */
    method EvictRandom(random: nat)
      requires Valid() && entries != []
      modifies this`chains, this`counts, this`entries, this`totalCount
      ensures Valid() && View() == RemoveAt(old(View()), random % |old(View())|)
      ensures forall e :: e in entries ==> e in old(entries)
    {
      hide Linked, Keyed;
      var id := random % totalCount;
      var count := 0;
      while count < |entries|
        invariant count <= id
      {
        if id == count {
          EntryFree(entries[count], count);
          break;
        }
        count := count + 1;
      }
    }

    /** Makes room when the table is full, as its mode says. */
    method EvictForRoom(random: nat)
      requires Valid()
      modifies this`chains, this`counts, this`entries, this`totalCount
      ensures Valid() && View() == Evict(Cfg(), old(View()), random)
      ensures forall e :: e in entries ==> e in old(entries)
    {
      hide Linked, Keyed, RemoveAt, LeastUsed;
      if maxEntries > 0 && totalCount >= maxEntries {
        if evictMode == EVICT_OLDER {
          EntryFree(entries[0], 0);
        } else if evictMode == EVICT_LESS_USED {
          EvictLessUsed();
        } else if evictMode == EVICT_RANDOM {
          EvictRandom(random);
        }
      }
    }

    /** Stores a value under a key, evicting first if the table is full; returns the bucket, or -1. */
    method Add(key: Key, value: Value, now: int, random: nat) returns (id: int)
      requires Valid()
      modifies this, entries
      ensures Valid() && caseSensitive == old(caseSensitive)
      ensures View() == OrderedMap.Add(Cfg(), old(View()), key, value, now, random)
      ensures id == if key == [] then -1 else hashOf(Canon(caseSensitive, key)) % size
      ensures forall e :: e in entries ==> e in old(entries) || fresh(e)
    {
      hide Linked, Keyed, Evict, Find;
      if |key| == 0 {
        return -1;
      }
      EvictForRoom(random);
      id := hashOf(Canon(caseSensitive, key)) % size;
      var entry := HashGetEntry(key);
      if entry != null {
        assert entry in entries;
        SetValue(entry, Find(caseSensitive, View(), key), value, now);
      } else {
        Append(key, value, now);
      }
    }

    /** Replaces the value of an entry; its place, key and hits stay. */
    method SetValue(entry: Entry, ghost i: nat, value: Value, now: int)
      requires Valid() && i < |entries| && entries[i] == entry
      modifies entry
      ensures Valid() && View() == old(View())[i := old(View())[i].(value := value, created := now)]
    {
      hide Linked, Keyed;
      KeyedEntry(size, hashOf, caseSensitive, entries, i);
      entry.value := value;
      entry.created := now;
    }

    /** Links a new entry at the end of its chain and of the global list. */
    method Append(key: Key, value: Value, now: int)
      requires Valid() && key != [] && Find(caseSensitive, View(), key) < 0
      modifies this`chains, this`counts, this`entries, this`totalCount
      ensures Valid() && View() == old(View()) + [Item(key, value, now, 0)]
      ensures forall e :: e in entries ==> e in old(entries) || fresh(e)
    {
      hide Linked, Canon, Find;
      var hash := hashOf(Canon(caseSensitive, key));
      var id := hash % size;
      var entry := new Entry(key, hash, id, value, now);
      LinkedAppend(size, chains, counts, entries, entry);
      assert forall k :: 0 <= k < |entries| ==> Canon(caseSensitive, View()[k].key) != Canon(caseSensitive, key);
      chains := chains[id := chains[id] + [entry]];
      entries := entries + [entry];
      counts := counts[id := counts[id] + 1];
      totalCount := totalCount + 1;
    }

    /** Looks a key up; counts the hit, or drops the entry if it has expired. */
    method Get(key: Key, now: int) returns (id: int, value: Lookup)
      requires Valid()
      modifies this`chains, this`counts, this`entries, this`totalCount, entries
      ensures Valid() && View() == OrderedMap.Get(Cfg(), old(View()), key, now)
      ensures value == Got(Cfg(), old(View()), key, now)
      ensures id == if value.Missing? then -1 else hashOf(Canon(caseSensitive, key)) % size
      ensures forall e :: e in entries ==> e in old(entries)
    {
      hide Linked, Keyed, Find, RemoveAt;
      var entry := HashGetEntry(key);
      if entry == null {
        return -1, Missing;
      }
      ghost var i := Find(caseSensitive, View(), key);
      if cacheTtl > 0 {
        var expiration := entry.created + cacheTtl;
        if now > expiration {
          EntryFree(entry, i);
          return -1, Missing;
        }
      }
      CountHit(entry, i);
      return hashOf(Canon(caseSensitive, key)) % size, Found(entry.value);
    }

    method CountHit(entry: Entry, ghost i: nat)
      requires Valid() && i < |entries| && entries[i] == entry
      modifies entry`hits
      ensures Valid() && View() == Hit(old(View()), i)
    {
      hide Linked, Keyed;
      KeyedEntry(size, hashOf, caseSensitive, entries, i);
      entry.hits := (entry.hits + 1) % HITS_MODULUS;
    }

    /** Looks a key up without regard to expiry. */
    method GetPtr(key: Key) returns (value: Lookup)
      requires Valid()
      modifies entries
      ensures Valid()
      ensures value == if key == [] then Missing else ValueOf(caseSensitive, old(View()), key)
      ensures View() == Touch(caseSensitive, old(View()), key)
    {
      hide Linked, Keyed, Find;
      var entry := HashGetEntry(key);
      if entry == null {
        return Missing;
      }
      CountHit(entry, Find(caseSensitive, View(), key));
      return Found(entry.value);
    }

    /** Is any live entry stored under this hash?  Only the hash's own chain is searched. */
    method Exists(hash: nat) returns (found: bool)
      requires Valid()
      ensures found <==> exists e :: e in entries && e.hash == hash
    {
      var id := hash % size;
      found := false;
      for j := 0 to |chains[id]|
        invariant forall k :: 0 <= k < j ==> chains[id][k].hash != hash
      {
        if chains[id][j].hash == hash {
          InBucketHas(entries, id, chains[id][j]);
          return true;
        }
      }
      forall e | e in entries && e.hash == hash
        ensures false
      {
        InBucketHas(entries, id, e);
      }
    }

    /** Deletes the entry stored under a key. */
    method Del(key: Key) returns (ret: int)
      requires Valid()
      modifies this`chains, this`counts, this`entries, this`totalCount
      ensures Valid() && View() == Delete(caseSensitive, old(View()), key)
      ensures ret == if key != [] && Find(caseSensitive, old(View()), key) >= 0 then 0 else -1
      ensures forall e :: e in entries ==> e in old(entries)
    {
      hide Linked, Keyed, RemoveAt;
      var len := |key|;
      if len == 0 {
        return -1;
      }
      var entry := ChainEntry(key);
      if entry == null {
        return -1;
      }
      EntryFree(entry, Find(caseSensitive, View(), key));
      return 0;
    }

    /** The search of the delete operation: it has no case of its own for an empty chain. */
    method ChainEntry(key: Key) returns (e: Entry?)
      requires Valid() && key != []
      ensures var i := Find(caseSensitive, View(), key);
              if i < 0 then e == null else e == entries[i]
    {
      hide Keyed, Find;
      var id := hashOf(Canon(caseSensitive, key)) % size;
      if counts[id] == 1 {
        e := chains[id][0];
        if !SameKey(caseSensitive, e.key, key) {
          e := null;
        }
      } else {
        e := null;
        var j := 0;
        while j < |chains[id]|
          invariant 0 <= j <= |chains[id]|
          invariant e == null
          invariant forall k :: 0 <= k < j ==> !SameKey(caseSensitive, chains[id][k].key, key)
        {
          e := chains[id][j];
          if SameKey(caseSensitive, e.key, key) {
            break;
          }
          e := null;
          j := j + 1;
        }
      }
      ChainAnswers(key, e, id);
    }

    method Perform(op: Op)
      requires Valid()
      modifies this, entries
      ensures Valid() && caseSensitive == old(caseSensitive)
      ensures View() == Apply(Cfg(), old(View()), op)
      ensures forall e :: e in entries ==> e in old(entries) || fresh(e)
    {
      hide Linked, Keyed, OrderedMap.Add, OrderedMap.Get, Touch, Delete, Find;
      match op
      case OpAdd(key, value, now, random) =>
        var id := Add(key, value, now, random);
      case OpGet(key, now) =>
        var id, v := Get(key, now);
      case OpGetPtr(key) =>
        var v := GetPtr(key);
      case OpDelete(key) =>
        var ret := Del(key);
    }

    /** Any sequence of operations takes the table to the map the same operations take its map to. */
    method Execute(ops: seq<Op>)
      requires Valid()
      modifies this, entries
      ensures Valid() && caseSensitive == old(caseSensitive)
      ensures View() == Run(Cfg(), old(View()), ops)
    {
      hide Linked, Keyed, Apply, Table.Valid;
      assert ops[0..] == ops;
      for i := 0 to |ops|
        invariant Valid() && caseSensitive == old(caseSensitive)
        invariant forall e :: e in entries ==> e in old(entries) || fresh(e)
        invariant Run(Cfg(), old(View()), ops) == Run(Cfg(), View(), ops[i..])
      {
        assert ops[i..][1..] == ops[i + 1..];
        assert forall k :: 0 <= k < |entries| ==> entries[k] in entries;
        Perform(ops[i]);
      }
    }
  }
}
