/** What a run of operations leaves in a map that neither evicts nor expires, told from the operations alone. */
module MapHistory {
  import opened Bytes
  import opened OrderedMap

  /** No entry ever leaves the map but by deletion. */
  predicate Quiet(c: Config) {
    (c.evictMode == EVICT_NONE || c.maxEntries <= 0) && c.ttl <= 0
  }

  predicate About(cs: bool, op: Op, f: seq<byte>) {
    op.key != [] && Canon(cs, op.key) == f
  }

  /** The value last set under a canonical key and not deleted since. */
  function LastSet(cs: bool, ops: seq<Op>, f: seq<byte>): Lookup {
    if ops == [] then Missing
    else
      var init, op := ops[..|ops| - 1], ops[|ops| - 1];
      if About(cs, op, f) && op.OpAdd? then Found(op.value)
      else if About(cs, op, f) && op.OpDelete? then Missing
      else LastSet(cs, init, f)
  }

  /** The index of the add that created the live entry under a canonical key, or -1. */
  function Birth(cs: bool, ops: seq<Op>, f: seq<byte>): (b: int)
    ensures -1 <= b < |ops|
    ensures b >= 0 ==> ops[b].OpAdd? && About(cs, ops[b], f)
    ensures b >= 0 <==> LastSet(cs, ops, f).Found?
  {
    if ops == [] then -1
    else
      var init, op := ops[..|ops| - 1], ops[|ops| - 1];
      var b := Birth(cs, init, f);
      if About(cs, op, f) && op.OpAdd? && b < 0 then |ops| - 1
      else if About(cs, op, f) && op.OpDelete? then -1
      else b
  }

  lemma {:induction false} RunSnoc(c: Config, m: seq<Item>, ops: seq<Op>, op: Op)
    ensures Run(c, m, ops + [op]) == Apply(c, Run(c, m, ops), op)
    decreases |ops|
  {
    hide Apply;
    if ops == [] {
      assert [op][1..] == [];
    } else {
      assert (ops + [op])[1..] == ops[1..] + [op];
      RunSnoc(c, Apply(c, m, ops[0]), ops[1..], op);
    }
  }

  // ----- a limit without eviction -----

  function Letters(n: nat): (k: Key)
    ensures |k| == n
  {
    if n == 0 then [] else Letters(n - 1) + [65]
  }

  /** Adds under keys of 1, 2, … `n` letters. */
  function Adds(n: nat): (ops: seq<Op>)
    ensures |ops| == n
  {
    if n == 0 then [] else Adds(n - 1) + [AddOf(n)]
  }

  function AddOf(n: nat): Op {
    OpAdd(Letters(n), Copied([65]), 0, 0)
  }

  predicate Evicts(c: Config) {
    EVICT_OLDER <= c.evictMode <= EVICT_RANDOM
  }

  /** Without an eviction mode every one of them stays. */
  lemma {:induction false} AddsStay(c: Config, n: nat)
    requires !Evicts(c)
    ensures var m := Run(c, [], Adds(n)); |m| == n && forall i :: 0 <= i < |m| ==> |m[i].key| == i + 1
  {
    hide Run, Adds, Apply, Letters;
    AddsNext(c, n);
    if n > 0 {
      var m := Run(c, [], Adds(n - 1));
      AddsStay(c, n - 1);
      RunSnoc(c, [], Adds(n - 1), AddOf(n));
      AddsLonger(c, m, Letters(n));
      assert Run(c, [], Adds(n)) == m + [Item(Letters(n), Copied([65]), 0, 0)];
    }
  }

  lemma AddsNext(c: Config, n: nat)
    ensures n == 0 ==> Run(c, [], Adds(n)) == []
    ensures n > 0 ==> Adds(n) == Adds(n - 1) + [AddOf(n)]
  {
  }

  lemma AddsLonger(c: Config, m: seq<Item>, k: Key)
    requires !Evicts(c) && |k| > 0 && forall i :: 0 <= i < |m| ==> |m[i].key| != |k|
    ensures Apply(c, m, OpAdd(k, Copied([65]), 0, 0)) == m + [Item(k, Copied([65]), 0, 0)]
  {
    hide Canon;
    assert Evict(c, m, 0) == m;
    assert Find(c.caseSensitive, m, k) < 0;
    hide Find, Evict;
  }

  /** A maximum is kept in every run if and only if the table has an eviction mode. */
  lemma BoundedExactly(c: Config)
    requires c.maxEntries > 0
    ensures (forall ops :: |Run(c, [], ops)| <= c.maxEntries) <==> Evicts(c)
  {
    if Evicts(c) {
      forall ops
        ensures |Run(c, [], ops)| <= c.maxEntries
      {
        RunBounded(c, [], ops);
      }
    } else {
      AddsStay(c, c.maxEntries + 1);
      assert |Run(c, [], Adds(c.maxEntries + 1))| > c.maxEntries;
    }
  }

  lemma HitKeeps(cs: bool, m: seq<Item>, i: nat, key: seq<byte>)
    requires Distinct(cs, m) && i < |m|
    ensures ValueOf(cs, Hit(m, i), key) == ValueOf(cs, m, key)
  {
    hide Canon;
    var j := Find(cs, m, key);
    assert forall a :: 0 <= a < |m| ==> Hit(m, i)[a].key == m[a].key && Hit(m, i)[a].value == m[a].value;
    DistinctHit(cs, m, i);
    if j >= 0 {
      FindIs(cs, Hit(m, i), key, j);
    }
  }

  /** One operation, as seen under one canonical key. */
  lemma ApplyAsMap(c: Config, m: seq<Item>, op: Op, key: seq<byte>)
    requires Quiet(c) && Distinct(c.caseSensitive, m)
    ensures var cs := c.caseSensitive;
            ValueOf(cs, Apply(c, m, op), key) ==
            if About(cs, op, Canon(cs, key)) && op.OpAdd? then Found(op.value)
            else if About(cs, op, Canon(cs, key)) && op.OpDelete? then Missing
            else ValueOf(cs, m, key)
  {
    hide Canon, Find, ValueOf, RemoveAt, Hit, Put;
    var cs := c.caseSensitive;
    if op.key != [] {
      var i := Find(cs, m, op.key);
      if op.OpAdd? {
        FindPut(cs, m, op.key, op.value, op.now, key);
      } else if i >= 0 {
        HitKeeps(cs, m, i, key);
        FindRemoved(cs, m, i, key);
      } else {
        NotFound(cs, m, op.key, key);
      }
    }
  }

  lemma NotFound(cs: bool, m: seq<Item>, k: seq<byte>, key: seq<byte>)
    requires Find(cs, m, k) < 0
    ensures Canon(cs, k) == Canon(cs, key) ==> ValueOf(cs, m, key) == Missing
  {
  }

  /** After any operations a lookup, in any spelling of the key, gives the value last set. */
  lemma {:induction false} LookupIsLastSet(c: Config, ops: seq<Op>, key: seq<byte>)
    requires Quiet(c)
    ensures ValueOf(c.caseSensitive, Run(c, [], ops), key) == LastSet(c.caseSensitive, ops, Canon(c.caseSensitive, key))
  {
    if ops != [] {
      hide Canon, Apply, ValueOf;
      var init, op := ops[..|ops| - 1], ops[|ops| - 1];
      assert ops == init + [op];
      RunSnoc(c, [], init, op);
      DistinctRun(c, [], init);
      ApplyAsMap(c, Run(c, [], init), op, key);
      LookupIsLastSet(c, init, key);
    }
  }

  /** What an operation can make of a binding, in a table that may evict and expire: its own doing, or a loss. */
  lemma ApplyNeverStale(c: Config, m: seq<Item>, op: Op, key: seq<byte>)
    requires Distinct(c.caseSensitive, m)
    ensures var cs := c.caseSensitive;
            var after := ValueOf(cs, Apply(c, m, op), key);
            if About(cs, op, Canon(cs, key)) && op.OpAdd? then after == Found(op.value)
            else if About(cs, op, Canon(cs, key)) && op.OpDelete? then after == Missing
            else after == Missing || after == ValueOf(cs, m, key)
  {
    hide Canon, Find, ValueOf, RemoveAt, Hit, Put, Evict, Victim;
    var cs := c.caseSensitive;
    if op.key != [] {
      var i := Find(cs, m, op.key);
      if op.OpAdd? {
        AddAsMap(c, m, op.key, op.value, op.now, op.random, key);
      } else if i >= 0 {
        HitKeeps(cs, m, i, key);
        FindRemoved(cs, m, i, key);
      } else {
        NotFound(cs, m, op.key, key);
      }
    }
  }

  /** However a table evicts and expires, a lookup never gives anything but the value last set and not deleted since. */
  lemma {:induction false} LookupNeverStale(c: Config, ops: seq<Op>, key: seq<byte>)
    ensures var v := ValueOf(c.caseSensitive, Run(c, [], ops), key);
            v == Missing || v == LastSet(c.caseSensitive, ops, Canon(c.caseSensitive, key))
  {
    if ops != [] {
      hide Canon, Apply, ValueOf;
      var init, op := ops[..|ops| - 1], ops[|ops| - 1];
      assert ops == init + [op];
      RunSnoc(c, [], init, op);
      DistinctRun(c, [], init);
      ApplyNeverStale(c, Run(c, [], init), op, key);
      LookupNeverStale(c, init, key);
    }
  }

  /** A lookup answers with the value last set, and joins the history. */
  lemma GetIsLastSet(c: Config, ops: seq<Op>, key: Key, now: int)
    requires Quiet(c)
    ensures var m := Run(c, [], ops);
            && Got(c, m, key, now) == (if key == [] then Missing else LastSet(c.caseSensitive, ops, Canon(c.caseSensitive, key)))
            && Run(c, [], ops + [OpGet(key, now)]) == OrderedMap.Get(c, m, key, now)
  {
    RunSnoc(c, [], ops, OpGet(key, now));
    LookupIsLastSet(c, ops, key);
    hide Run, LastSet, Canon, OrderedMap.Get, Find;
  }

  /** The entries stand in the order of the adds that created them, spelt as those adds spelt them. */
  ghost predicate Ordered(cs: bool, m: seq<Item>, ops: seq<Op>) {
    && (forall i :: 0 <= i < |m| ==>
          var b := Birth(cs, ops, Canon(cs, m[i].key));
          b >= 0 && ops[b].key == m[i].key)
    && (forall i, j :: 0 <= i < j < |m| ==>
          Birth(cs, ops, Canon(cs, m[i].key)) < Birth(cs, ops, Canon(cs, m[j].key)))
  }

  lemma BirthStep(cs: bool, init: seq<Op>, op: Op, f: seq<byte>)
    ensures var b := Birth(cs, init, f);
            Birth(cs, init + [op], f) ==
            if About(cs, op, f) && op.OpAdd? && b < 0 then |init|
            else if About(cs, op, f) && op.OpDelete? then -1
            else b
  {
    assert (init + [op])[..|init|] == init;
  }

  /** An operation that leaves the keys as they are, and their births with them. */
  lemma OrderedSame(cs: bool, m: seq<Item>, m': seq<Item>, init: seq<Op>, op: Op)
    requires Ordered(cs, m, init) && |m'| == |m| && forall i :: 0 <= i < |m| ==> m'[i].key == m[i].key
    requires op.OpDelete? ==> forall i :: 0 <= i < |m| ==> !About(cs, op, Canon(cs, m[i].key))
    ensures Ordered(cs, m', init + [op])
  {
    hide Birth, Canon;
    forall i | 0 <= i < |m|
      ensures Birth(cs, init + [op], Canon(cs, m[i].key)) == Birth(cs, init, Canon(cs, m[i].key))
    {
      BirthStep(cs, init, op, Canon(cs, m[i].key));
    }
  }

  lemma OrderedAppend(cs: bool, m: seq<Item>, init: seq<Op>, op: Op, item: Item)
    requires Ordered(cs, m, init) && op.OpAdd? && op.key != [] && item.key == op.key
    requires Birth(cs, init, Canon(cs, op.key)) < 0
    ensures Ordered(cs, m + [item], init + [op])
  {
    hide Birth, Canon;
    OrderedSame(cs, m, m, init, op);
    BirthStep(cs, init, op, Canon(cs, op.key));
    var r := m + [item];
    forall i | 0 <= i < |m|
      ensures Birth(cs, init + [op], Canon(cs, m[i].key)) < |init|
    {
      BirthStep(cs, init, op, Canon(cs, m[i].key));
    }
  }

  lemma OrderedRemove(cs: bool, m: seq<Item>, init: seq<Op>, op: Op, k: nat)
    requires Ordered(cs, m, init) && Distinct(cs, m) && k < |m|
    requires op.OpDelete? && About(cs, op, Canon(cs, m[k].key))
    ensures Ordered(cs, RemoveAt(m, k), init + [op])
  {
    hide Birth, Canon;
    var r := RemoveAt(m, k);
    forall i | 0 <= i < |r|
      ensures Birth(cs, init + [op], Canon(cs, r[i].key)) == Birth(cs, init, Canon(cs, r[i].key))
    {
      assert r[i] == m[if i < k then i else i + 1];
      BirthStep(cs, init, op, Canon(cs, r[i].key));
    }
    OrderedWithout(cs, m, init, k);
  }

  lemma OrderedWithout(cs: bool, m: seq<Item>, ops: seq<Op>, k: nat)
    requires Ordered(cs, m, ops) && k < |m|
    ensures Ordered(cs, RemoveAt(m, k), ops)
  {
    hide Birth, Canon;
    var r := RemoveAt(m, k);
    forall i, j | 0 <= i < j < |r|
      ensures Birth(cs, ops, Canon(cs, r[i].key)) < Birth(cs, ops, Canon(cs, r[j].key))
    {
      assert r[i] == m[if i < k then i else i + 1] && r[j] == m[if j < k then j else j + 1];
    }
  }

  lemma OrderedStep(c: Config, m: seq<Item>, init: seq<Op>, op: Op)
    requires Quiet(c) && m == Run(c, [], init) && Ordered(c.caseSensitive, m, init)
    ensures Ordered(c.caseSensitive, Apply(c, m, op), init + [op])
  {
    hide Birth, Canon, Ordered, Run, Distinct;
    DistinctRun(c, [], init);
    if op.OpAdd? {
      OrderedAdd(c, m, init, op);
    } else if op.OpDelete? {
      OrderedDelete(c.caseSensitive, m, init, op);
    } else {
      OrderedSame(c.caseSensitive, m, Apply(c, m, op), init, op);
    }
  }

  lemma OrderedAdd(c: Config, m: seq<Item>, init: seq<Op>, op: Op)
    requires Quiet(c) && m == Run(c, [], init) && Ordered(c.caseSensitive, m, init) && op.OpAdd?
    ensures Ordered(c.caseSensitive, Apply(c, m, op), init + [op])
  {
    hide Birth, Canon, Ordered, Run, LastSet, Evict, Find;
    var cs := c.caseSensitive;
    assert Evict(c, m, op.random) == m by { QuietEvict(c, m, op.random); }
    if op.key != [] && Find(cs, m, op.key) < 0 {
      LookupIsLastSet(c, init, op.key);
      OrderedAppend(cs, m, init, op, Item(op.key, op.value, op.now, 0));
    } else {
      OrderedSame(cs, m, Apply(c, m, op), init, op);
    }
  }

  lemma QuietEvict(c: Config, m: seq<Item>, random: nat)
    requires Quiet(c)
    ensures Evict(c, m, random) == m
  {
  }

  lemma OrderedDelete(cs: bool, m: seq<Item>, init: seq<Op>, op: Op)
    requires Distinct(cs, m) && Ordered(cs, m, init) && op.OpDelete?
    ensures Ordered(cs, Delete(cs, m, op.key), init + [op])
  {
    hide Birth, Canon, Ordered;
    var i := Find(cs, m, op.key);
    if op.key != [] && i >= 0 {
      OrderedRemove(cs, m, init, op, i);
    } else {
      OrderedSame(cs, m, m, init, op);
    }
  }

  /** After any operations the live entries stand in the order of their surviving first insertion. */
  lemma {:induction false} OrderIsBirth(c: Config, ops: seq<Op>)
    requires Quiet(c)
    ensures Ordered(c.caseSensitive, Run(c, [], ops), ops)
  {
    if ops != [] {
      hide Birth, Canon, Apply;
      var init, op := ops[..|ops| - 1], ops[|ops| - 1];
      assert ops == init + [op];
      RunSnoc(c, [], init, op);
      OrderIsBirth(c, init);
      OrderedStep(c, Run(c, [], init), init, op);
    }
  }
}
