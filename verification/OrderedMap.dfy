/**
  What the hash table stands for: an insertion-ordered map.  The list below is the table's global
  entry list, oldest first; buckets play no part.
 */
module OrderedMap {
  import opened Bytes

  /** C strings with an explicit length: no NUL inside. */
  type Key = k: seq<byte> | NUL !in k

  /** A value copied into the table, or a pointer kept as it was given. */
  datatype Value = Copied(bytes: seq<byte>) | Reference(address: nat)

  datatype Item = Item(key: Key, value: Value, created: int, hits: nat)

  /** Eviction modes, numbered as in flb_hash_table.h; other numbers evict nothing. */
  const EVICT_NONE := 0
  const EVICT_OLDER := 1
  const EVICT_LESS_USED := 2
  const EVICT_RANDOM := 3

  datatype Config = Config(caseSensitive: bool, evictMode: int, maxEntries: int, ttl: int)

  /** Hit counters are 64 bits wide. */
  const HITS_MODULUS: int := 0x1_0000_0000_0000_0000

  function ToLower(c: byte): byte {
    if 65 <= c <= 90 then c + 32 else c
  }

  function Fold(k: seq<byte>): (f: seq<byte>)
    ensures |f| == |k|
  {
    seq(|k|, i requires 0 <= i < |k| => ToLower(k[i]))
  }

  const UPPER := "ABCDEFGHIJKLMNOPQRSTUVWXYZ"
  const LOWER := "abcdefghijklmnopqrstuvwxyz"

  /** Folding changes the letters A to Z and nothing else. */
  lemma CaseFolding(c: byte)
    ensures forall j :: 0 <= j < 26 && c == UPPER[j] as int ==> ToLower(c) == LOWER[j] as int
    ensures (forall j :: 0 <= j < 26 ==> c != UPPER[j] as int) ==> ToLower(c) == c
  {
    assert forall j :: 0 <= j < 26 ==> UPPER[j] as int == 65 + j && LOWER[j] as int == 97 + j;
    if 65 <= c <= 90 {
      assert c == UPPER[c - 65] as int;
    }
  }

  /** Keys are compared in this form. */
  function Canon(caseSensitive: bool, k: seq<byte>): (f: seq<byte>)
    ensures |f| == |k|
  {
    if caseSensitive then k else Fold(k)
  }

  predicate Distinct(cs: bool, m: seq<Item>) {
    forall i, j :: 0 <= i < j < |m| ==> Canon(cs, m[i].key) != Canon(cs, m[j].key)
  }

  /** The position of the item stored under `key`, or -1. */
  function Find(cs: bool, m: seq<Item>, key: seq<byte>): (i: int)
    ensures -1 <= i < |m|
    ensures i >= 0 ==> Canon(cs, m[i].key) == Canon(cs, key)
    ensures i < 0 ==> forall j :: 0 <= j < |m| ==> Canon(cs, m[j].key) != Canon(cs, key)
  {
    if m == [] then -1
    else if Canon(cs, m[|m| - 1].key) == Canon(cs, key) then |m| - 1
    else Find(cs, m[..|m| - 1], key)
  }

  function RemoveAt<T>(m: seq<T>, i: nat): seq<T>
    requires i < |m|
  {
    m[..i] + m[i + 1..]
  }

  /** The earliest of the items with the fewest hits. */
  function LeastUsed(m: seq<Item>): (i: nat)
    requires m != []
    ensures i < |m|
    ensures forall j :: 0 <= j < |m| ==> m[i].hits <= m[j].hits
    ensures forall j :: 0 <= j < i ==> m[i].hits < m[j].hits
  {
    if |m| == 1 then 0
    else
      var i := LeastUsed(m[..|m| - 1]);
      if m[|m| - 1].hits < m[i].hits then |m| - 1 else i
  }

  /** The position an add evicts before anything else, or -1. */
  function Victim(c: Config, m: seq<Item>, random: nat): (i: int)
    ensures -1 <= i < |m|
  {
    if !(c.maxEntries > 0 && |m| >= c.maxEntries) then -1
    else if c.evictMode == EVICT_OLDER then 0
    else if c.evictMode == EVICT_LESS_USED then LeastUsed(m)
    else if c.evictMode == EVICT_RANDOM then random % |m|
    else -1
  }

  function Evict(c: Config, m: seq<Item>, random: nat): seq<Item> {
    var v := Victim(c, m, random);
    if v < 0 then m else RemoveAt(m, v)
  }

  /** A key already there keeps its place, spelling and hits; a new one goes last. */
  function Put(cs: bool, m: seq<Item>, key: Key, value: Value, now: int): seq<Item> {
    var i := Find(cs, m, key);
    if i < 0 then m + [Item(key, value, now, 0)] else m[i := m[i].(value := value, created := now)]
  }

  function Add(c: Config, m: seq<Item>, key: Key, value: Value, now: int, random: nat): seq<Item> {
    if key == [] then m else Put(c.caseSensitive, Evict(c, m, random), key, value, now)
  }

  predicate Expired(c: Config, item: Item, now: int) {
    c.ttl > 0 && now > item.created + c.ttl
  }

  function Hit(m: seq<Item>, i: nat): seq<Item>
    requires i < |m|
  {
    m[i := m[i].(hits := (m[i].hits + 1) % HITS_MODULUS)]
  }

  /** A lookup counts a hit, or removes the item if it has outlived the time to live. */
  function Get(c: Config, m: seq<Item>, key: seq<byte>, now: int): seq<Item> {
    var i := if key == [] then -1 else Find(c.caseSensitive, m, key);
    if i < 0 then m
    else if Expired(c, m[i], now) then RemoveAt(m, i)
    else Hit(m, i)
  }

  /** A lookup that pays no heed to expiry. */
  function Touch(cs: bool, m: seq<Item>, key: seq<byte>): seq<Item> {
    var i := if key == [] then -1 else Find(cs, m, key);
    if i < 0 then m else Hit(m, i)
  }

  datatype Lookup = Missing | Found(value: Value)

  function Got(c: Config, m: seq<Item>, key: seq<byte>, now: int): Lookup {
    var i := if key == [] then -1 else Find(c.caseSensitive, m, key);
    if i < 0 || Expired(c, m[i], now) then Missing else Found(m[i].value)
  }

  function Delete(cs: bool, m: seq<Item>, key: seq<byte>): seq<Item> {
    var i := if key == [] then -1 else Find(cs, m, key);
    if i < 0 then m else RemoveAt(m, i)
  }

  datatype Op =
    | OpAdd(key: Key, value: Value, now: int, random: nat)
    | OpGet(key: Key, now: int)
    | OpGetPtr(key: Key)
    | OpDelete(key: Key)

  function Apply(c: Config, m: seq<Item>, op: Op): seq<Item> {
    match op
    case OpAdd(key, value, now, random) => Add(c, m, key, value, now, random)
    case OpGet(key, now) => Get(c, m, key, now)
    case OpGetPtr(key) => Touch(c.caseSensitive, m, key)
    case OpDelete(key) => Delete(c.caseSensitive, m, key)
  }

  function Run(c: Config, m: seq<Item>, ops: seq<Op>): seq<Item>
    decreases |ops|
  {
    if ops == [] then m else Run(c, Apply(c, m, ops[0]), ops[1..])
  }

  // ----- what every operation keeps -----

  lemma FindIs(cs: bool, m: seq<Item>, key: seq<byte>, i: nat)
    requires Distinct(cs, m) && i < |m| && Canon(cs, m[i].key) == Canon(cs, key)
    ensures Find(cs, m, key) == i
  {
    var j := Find(cs, m, key);
    assert j >= 0 && Canon(cs, m[j].key) == Canon(cs, m[i].key);
  }

  lemma DistinctRemove(cs: bool, m: seq<Item>, i: nat)
    requires Distinct(cs, m) && i < |m|
    ensures Distinct(cs, RemoveAt(m, i))
  {
    var r := RemoveAt(m, i);
    forall a, b | 0 <= a < b < |r|
      ensures Canon(cs, r[a].key) != Canon(cs, r[b].key)
    {
      var a', b' := if a < i then a else a + 1, if b < i then b else b + 1;
      assert r[a] == m[a'] && r[b] == m[b'];
    }
  }

  lemma DistinctPut(cs: bool, m: seq<Item>, key: Key, value: Value, now: int)
    requires Distinct(cs, m)
    ensures Distinct(cs, Put(cs, m, key, value, now))
  {
    hide Find, Canon;
    var i, r := Find(cs, m, key), Put(cs, m, key, value, now);
    forall a, b | 0 <= a < b < |r|
      ensures Canon(cs, r[a].key) != Canon(cs, r[b].key)
    {
      assert a < |m| && r[a].key == m[a].key;
      assert b < |m| ==> r[b].key == m[b].key;
    }
  }

  lemma DistinctHit(cs: bool, m: seq<Item>, i: nat)
    requires Distinct(cs, m) && i < |m|
    ensures Distinct(cs, Hit(m, i))
  {
    hide Canon;
    assert forall a :: 0 <= a < |m| ==> Hit(m, i)[a].key == m[a].key;
  }

  /** No operation ever makes two entries with the same canonical key. */
  lemma DistinctApply(c: Config, m: seq<Item>, op: Op)
    requires Distinct(c.caseSensitive, m)
    ensures Distinct(c.caseSensitive, Apply(c, m, op))
  {
    hide Find, Canon, Distinct, RemoveAt, Put, Hit, Victim;
    var cs := c.caseSensitive;
    var i := Find(cs, m, op.key);
    if i >= 0 {
      DistinctRemove(cs, m, i);
      DistinctHit(cs, m, i);
    }
    if op.OpAdd? {
      var v := Victim(c, m, op.random);
      if v >= 0 {
        DistinctRemove(cs, m, v);
      }
      DistinctPut(cs, Evict(c, m, op.random), op.key, op.value, op.now);
    }
  }

  lemma {:induction false} DistinctRun(c: Config, m: seq<Item>, ops: seq<Op>)
    requires Distinct(c.caseSensitive, m)
    ensures Distinct(c.caseSensitive, Run(c, m, ops))
    decreases |ops|
  {
    if ops != [] {
      DistinctApply(c, m, ops[0]);
      DistinctRun(c, Apply(c, m, ops[0]), ops[1..]);
    }
  }

  /** A table that evicts never outgrows its limit, in any run. */
  lemma {:induction false} RunBounded(c: Config, m: seq<Item>, ops: seq<Op>)
    requires c.maxEntries > 0 && EVICT_OLDER <= c.evictMode <= EVICT_RANDOM
    requires |m| <= c.maxEntries
    ensures |Run(c, m, ops)| <= c.maxEntries
    decreases |ops|
  {
    if ops != [] {
      ApplyBounded(c, m, ops[0]);
      hide Apply;
      RunBounded(c, Apply(c, m, ops[0]), ops[1..]);
    }
  }

  lemma ApplyBounded(c: Config, m: seq<Item>, op: Op)
    requires c.maxEntries > 0 && EVICT_OLDER <= c.evictMode <= EVICT_RANDOM
    requires |m| <= c.maxEntries
    ensures |Apply(c, m, op)| <= c.maxEntries
  {
    match op {
      case OpAdd(key, value, now, random) => AddBounded(c, m, key, value, now, random);
      case OpGet(key, now) => GetShorter(c, m, key, now);
      case OpGetPtr(key) => GetShorter(c, m, key, 0);
      case OpDelete(key) => GetShorter(c, m, key, 0);
    }
  }

  lemma EvictBounded(c: Config, m: seq<Item>, random: nat)
    requires c.maxEntries > 0 && EVICT_OLDER <= c.evictMode <= EVICT_RANDOM && |m| <= c.maxEntries
    ensures |Evict(c, m, random)| < c.maxEntries
  {
    hide LeastUsed;
  }

  lemma AddBounded(c: Config, m: seq<Item>, key: Key, value: Value, now: int, random: nat)
    requires c.maxEntries > 0 && EVICT_OLDER <= c.evictMode <= EVICT_RANDOM && |m| <= c.maxEntries
    ensures |Add(c, m, key, value, now, random)| <= c.maxEntries
  {
    EvictBounded(c, m, random);
    hide Evict, Find;
  }

  lemma GetShorter(c: Config, m: seq<Item>, key: seq<byte>, now: int)
    ensures |Get(c, m, key, now)| <= |m| && |Touch(c.caseSensitive, m, key)| <= |m| && |Delete(c.caseSensitive, m, key)| <= |m|
  {
    hide Find;
  }

  // ----- the operations as operations on a map -----

  /** The value stored under a canonical key. */
  function ValueOf(cs: bool, m: seq<Item>, key: seq<byte>): Lookup {
    var i := Find(cs, m, key);
    if i < 0 then Missing else Found(m[i].value)
  }

  lemma FindRemoved(cs: bool, m: seq<Item>, v: nat, key: seq<byte>)
    requires Distinct(cs, m) && v < |m|
    ensures ValueOf(cs, RemoveAt(m, v), key) ==
            if Canon(cs, m[v].key) == Canon(cs, key) then Missing else ValueOf(cs, m, key)
  {
    hide Canon;
    var r := RemoveAt(m, v);
    DistinctRemove(cs, m, v);
    hide Find;
    var i := Find(cs, m, key);
    if i >= 0 && i != v {
      FindIs(cs, r, key, if i < v then i else i - 1);
    } else {
      forall a | 0 <= a < |r|
        ensures Canon(cs, r[a].key) != Canon(cs, key)
      {
        var b := if a < v then a else a + 1;
        assert r[a] == m[b] && Canon(cs, m[b].key) != Canon(cs, m[v].key);
      }
    }
  }

  lemma FindPut(cs: bool, m: seq<Item>, k: Key, value: Value, now: int, key: seq<byte>)
    requires Distinct(cs, m)
    ensures ValueOf(cs, Put(cs, m, k, value, now), key) ==
            if Canon(cs, k) == Canon(cs, key) then Found(value) else ValueOf(cs, m, key)
  {
    hide Canon;
    var r, i := Put(cs, m, k, value, now), Find(cs, m, k);
    DistinctPut(cs, m, k, value, now);
    assert forall a :: 0 <= a < |m| ==> r[a].key == m[a].key;
    if Canon(cs, k) == Canon(cs, key) {
      FindIs(cs, r, key, if i < 0 then |m| else i);
    } else {
      var j := Find(cs, m, key);
      if j >= 0 {
        FindIs(cs, r, key, j);
      } else {
        assert Find(cs, r, key) < 0;
      }
    }
  }

  /** An add loses at most one binding, the victim's, and sets its own; eviction comes first. */
  lemma AddAsMap(c: Config, m: seq<Item>, k: Key, value: Value, now: int, random: nat, key: seq<byte>)
    requires Distinct(c.caseSensitive, m) && k != []
    ensures var cs, v := c.caseSensitive, Victim(c, m, random);
            ValueOf(cs, Add(c, m, k, value, now, random), key) ==
            if Canon(cs, k) == Canon(cs, key) then Found(value)
            else if v >= 0 && Canon(cs, m[v].key) == Canon(cs, key) then Missing
            else ValueOf(cs, m, key)
  {
    hide Canon, Find, Victim, ValueOf;
    var cs, v := c.caseSensitive, Victim(c, m, random);
    if v >= 0 {
      DistinctRemove(cs, m, v);
      FindRemoved(cs, m, v, key);
    }
    FindPut(cs, Evict(c, m, random), k, value, now, key);
  }
}
