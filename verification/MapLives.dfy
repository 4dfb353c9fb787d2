/** Where the entries of a table that evicts and expires come from, and which of them go, told from the operations alone. */
module MapLives {
  import opened Bytes
  import opened OrderedMap
  import opened MapHistory

  /** A value set at `since` may still be looked up at `now`; without a time to live, always. */
  predicate InTime(c: Config, since: int, now: int) {
    c.ttl <= 0 || now <= since + c.ttl
  }

  /** The index of the add that last set the value under a canonical key, not deleted since, or -1. */
  function LastAdd(cs: bool, ops: seq<Op>, f: seq<byte>): (a: int)
    ensures -1 <= a < |ops|
    ensures a >= 0 ==> ops[a].OpAdd? && About(cs, ops[a], f)
  {
    if ops == [] then -1
    else
      var op := ops[|ops| - 1];
      if About(cs, op, f) && op.OpAdd? then |ops| - 1
      else if About(cs, op, f) && op.OpDelete? then -1
      else LastAdd(cs, ops[..|ops| - 1], f)
  }

  /** No lookup under the key since that add came too late. */
  ghost predicate OnTime(c: Config, ops: seq<Op>, a: nat, f: seq<byte>)
    requires a < |ops| && ops[a].OpAdd?
  {
    forall k :: a < k < |ops| && ops[k].OpGet? && About(c.caseSensitive, ops[k], f) ==> InTime(c, ops[a].now, ops[k].now)
  }

  /** How many lookups under a canonical key there were behind operation `b`. */
  function Uses(cs: bool, ops: seq<Op>, b: nat, f: seq<byte>): (n: nat)
    requires b < |ops|
    ensures n < |ops|
  {
    if |ops| == b + 1 then 0
    else
      var op := ops[|ops| - 1];
      Uses(cs, ops[..|ops| - 1], b, f) + if About(cs, op, f) && (op.OpGet? || op.OpGetPtr?) then 1 else 0
  }

  lemma LastAddSnoc(cs: bool, ops: seq<Op>, op: Op, f: seq<byte>)
    ensures LastAdd(cs, ops + [op], f) ==
            if About(cs, op, f) && op.OpAdd? then |ops|
            else if About(cs, op, f) && op.OpDelete? then -1
            else LastAdd(cs, ops, f)
  {
    assert (ops + [op])[..|ops|] == ops;
  }

  lemma UsesSnoc(cs: bool, ops: seq<Op>, op: Op, b: nat, f: seq<byte>)
    requires b < |ops|
    ensures Uses(cs, ops + [op], b, f) ==
            Uses(cs, ops, b, f) + if About(cs, op, f) && (op.OpGet? || op.OpGetPtr?) then 1 else 0
  {
    assert (ops + [op])[..|ops|] == ops;
  }

  lemma OnTimeSnoc(c: Config, ops: seq<Op>, op: Op, a: nat, f: seq<byte>)
    requires a < |ops| && ops[a].OpAdd?
    ensures (ops + [op])[a] == ops[a]
    ensures OnTime(c, ops + [op], a, f) <==>
            OnTime(c, ops, a, f) && (op.OpGet? && About(c.caseSensitive, op, f) ==> InTime(c, ops[a].now, op.now))
  {
    hide About, InTime;
    var all := ops + [op];
    assert all[|ops|] == op && forall k :: 0 <= k < |ops| ==> all[k] == ops[k];
  }

  // ----- the lives of entries -----

  /** Each entry goes back to an add at its birth; births increase. */
  ghost predicate Born(c: Config, m: seq<Item>, ops: seq<Op>, births: seq<nat>) {
    && |births| == |m|
    && (forall i :: 0 <= i < |m| ==> births[i] < |ops| && BornAt(c, m[i], ops, births[i]))
    && (forall i, j :: 0 <= i < j < |m| ==> births[i] < births[j])
  }

  /** Spelt as at its birth and not deleted since, with a hit for each lookup since; value and time are those of the last
      add, and no lookup since then came too late. */
  ghost predicate BornAt(c: Config, item: Item, ops: seq<Op>, b: nat)
    requires b < |ops|
  {
    var cs, f := c.caseSensitive, Canon(c.caseSensitive, item.key);
    && ops[b].OpAdd? && ops[b].key == item.key != []
    && NotDeleted(cs, ops, b, f)
    && item.hits == Uses(cs, ops, b, f) % HITS_MODULUS
    && var a := LastAdd(cs, ops, f);
       b <= a && item.value == ops[a].value && item.created == ops[a].now && OnTime(c, ops, a, f)
  }

  ghost predicate NotDeleted(cs: bool, ops: seq<Op>, b: nat, f: seq<byte>) {
    forall k :: b < k < |ops| && ops[k].OpDelete? ==> !About(cs, ops[k], f)
  }

  lemma NotDeletedSnoc(cs: bool, ops: seq<Op>, op: Op, b: nat, f: seq<byte>)
    requires NotDeleted(cs, ops, b, f) && (op.OpDelete? ==> !About(cs, op, f))
    ensures NotDeleted(cs, ops + [op], b, f)
  {
    hide About;
    var all := ops + [op];
    assert forall k :: 0 <= k < |ops| ==> all[k] == ops[k];
  }

  /** What an operation makes of an entry that outlives it. */
  function Aged(cs: bool, item: Item, op: Op): Item {
    if !About(cs, op, Canon(cs, item.key)) then item
    else match op
      case OpAdd(_, value, now, _) => item.(value := value, created := now)
      case OpDelete(_) => item
      case _ => item.(hits := (item.hits + 1) % HITS_MODULUS)
  }

  /** The operation neither deletes the entry nor finds it expired. */
  predicate Outlives(c: Config, item: Item, op: Op) {
    About(c.caseSensitive, op, Canon(c.caseSensitive, item.key)) ==>
      !op.OpDelete? && (op.OpGet? ==> InTime(c, item.created, op.now))
  }

  lemma NextHit(n: nat)
    ensures (n % HITS_MODULUS + 1) % HITS_MODULUS == (n + 1) % HITS_MODULUS
  {
  }

  lemma BornLater(c: Config, item: Item, ops: seq<Op>, b: nat, op: Op)
    requires b < |ops| && BornAt(c, item, ops, b) && Outlives(c, item, op)
    ensures BornAt(c, Aged(c.caseSensitive, item, op), ops + [op], b)
  {
    hide About, Canon, InTime, Uses, LastAdd, OnTime, NotDeleted;
    var cs, f := c.caseSensitive, Canon(c.caseSensitive, item.key);
    assert (ops + [op])[b] == ops[b] && (ops + [op])[|ops|] == op;
    NotDeletedSnoc(cs, ops, op, b, f);
    UsesSnoc(cs, ops, op, b, f);
    NextHit(Uses(cs, ops, b, f));
    LastAddSnoc(cs, ops, op, f);
    if About(cs, op, f) && op.OpAdd? {
      JustSet(c, ops, op, f);
    } else {
      OnTimeSnoc(c, ops, op, LastAdd(cs, ops, f), f);
    }
  }

  lemma JustSet(c: Config, ops: seq<Op>, op: Op, f: seq<byte>)
    requires op.OpAdd?
    ensures (ops + [op])[|ops|] == op && OnTime(c, ops + [op], |ops|, f) && NotDeleted(c.caseSensitive, ops + [op], |ops|, f)
    ensures Uses(c.caseSensitive, ops + [op], |ops|, f) == 0
  {
  }

  lemma BornSame(c: Config, m: seq<Item>, ops: seq<Op>, births: seq<nat>, op: Op, m': seq<Item>)
    requires Born(c, m, ops, births) && |m'| == |m|
    requires forall i :: 0 <= i < |m| ==> Outlives(c, m[i], op) && m'[i] == Aged(c.caseSensitive, m[i], op)
    ensures Born(c, m', ops + [op], births)
  {
    hide BornAt, Outlives, Aged;
    forall i | 0 <= i < |m|
      ensures births[i] < |ops + [op]| && BornAt(c, m'[i], ops + [op], births[i])
    {
      BornLater(c, m[i], ops, births[i], op);
    }
  }

  /** An operation that concerns none of the entries. */
  lemma BornApart(c: Config, m: seq<Item>, ops: seq<Op>, births: seq<nat>, op: Op)
    requires Born(c, m, ops, births)
    requires forall i :: 0 <= i < |m| ==> !About(c.caseSensitive, op, Canon(c.caseSensitive, m[i].key))
    ensures Born(c, m, ops + [op], births)
  {
    hide Born, About, Canon;
    BornSame(c, m, ops, births, op, m);
  }

  lemma BornWithout(c: Config, m: seq<Item>, ops: seq<Op>, births: seq<nat>, v: nat)
    requires Born(c, m, ops, births) && v < |m|
    ensures |births| == |m| && Born(c, RemoveAt(m, v), ops, RemoveAt(births, v))
  {
    hide BornAt;
    var r, b := RemoveAt(m, v), RemoveAt(births, v);
    assert forall i :: 0 <= i < |r| ==> r[i] == m[if i < v then i else i + 1] && b[i] == births[if i < v then i else i + 1];
  }

  lemma BornNew(c: Config, m: seq<Item>, ops: seq<Op>, births: seq<nat>, op: Op)
    requires Born(c, m, ops, births) && op.OpAdd? && op.key != []
    requires forall i :: 0 <= i < |m| ==> !About(c.caseSensitive, op, Canon(c.caseSensitive, m[i].key))
    ensures Born(c, m + [Item(op.key, op.value, op.now, 0)], ops + [op], births + [|ops|])
  {
    BornApart(c, m, ops, births, op);
    var f := Canon(c.caseSensitive, op.key);
    LastAddSnoc(c.caseSensitive, ops, op, f);
    JustSet(c, ops, op, f);
    hide Canon, Uses, LastAdd, OnTime, NotDeleted;
    var item := Item(op.key, op.value, op.now, 0);
    assert BornAt(c, item, ops + [op], |ops|);
    hide BornAt, About;
    var m', births' := m + [item], births + [|ops|];
    assert forall i :: 0 <= i < |m| ==> m'[i] == m[i] && births'[i] == births[i] && births[i] < |ops|;
  }

  lemma BornEvict(c: Config, m: seq<Item>, ops: seq<Op>, births: seq<nat>, random: nat) returns (kept: seq<nat>)
    requires Born(c, m, ops, births)
    ensures Born(c, Evict(c, m, random), ops, kept)
  {
    hide Born, Victim, RemoveAt;
    var v := Victim(c, m, random);
    kept := births;
    if v >= 0 {
      BornWithout(c, m, ops, births, v);
      kept := RemoveAt(births, v);
    }
  }

  lemma BornPut(c: Config, m: seq<Item>, ops: seq<Op>, births: seq<nat>, op: Op) returns (after: seq<nat>)
    requires Born(c, m, ops, births) && Distinct(c.caseSensitive, m) && op.OpAdd? && op.key != []
    ensures Born(c, Put(c.caseSensitive, m, op.key, op.value, op.now), ops + [op], after)
  {
    hide Born, Canon;
    var i := Find(c.caseSensitive, m, op.key);
    hide Find;
    if i < 0 {
      BornNew(c, m, ops, births, op);
      after := births + [|ops|];
    } else {
      BornSame(c, m, ops, births, op, Put(c.caseSensitive, m, op.key, op.value, op.now));
      after := births;
    }
  }

  lemma BornAdd(c: Config, m: seq<Item>, ops: seq<Op>, births: seq<nat>, op: Op) returns (after: seq<nat>)
    requires Born(c, m, ops, births) && Distinct(c.caseSensitive, m) && op.OpAdd?
    ensures Born(c, Apply(c, m, op), ops + [op], after)
  {
    hide Born, Put, Distinct;
    if op.key == [] {
      after := births;
      BornApart(c, m, ops, births, op);
    } else {
      var kept := BornEvict(c, m, ops, births, op.random);
      if Victim(c, m, op.random) >= 0 {
        DistinctRemove(c.caseSensitive, m, Victim(c, m, op.random));
      }
      hide Victim;
      after := BornPut(c, Evict(c, m, op.random), ops, kept, op);
    }
  }

  /** The entry an operation is about leaves, by deletion or expiry. */
  lemma BornLeaves(c: Config, m: seq<Item>, ops: seq<Op>, births: seq<nat>, op: Op, i: nat)
    requires Born(c, m, ops, births) && Distinct(c.caseSensitive, m) && i < |m|
    requires About(c.caseSensitive, op, Canon(c.caseSensitive, m[i].key))
    ensures |births| == |m| && Born(c, RemoveAt(m, i), ops + [op], RemoveAt(births, i))
  {
    hide Born, Canon;
    BornWithout(c, m, ops, births, i);
    var r := RemoveAt(m, i);
    assert forall k :: 0 <= k < |r| ==> r[k] == m[if k < i then k else k + 1];
    BornApart(c, r, ops, RemoveAt(births, i), op);
  }

  lemma BornHit(c: Config, m: seq<Item>, ops: seq<Op>, births: seq<nat>, op: Op, i: nat)
    requires Born(c, m, ops, births) && Distinct(c.caseSensitive, m) && i < |m| && (op.OpGet? || op.OpGetPtr?)
    requires About(c.caseSensitive, op, Canon(c.caseSensitive, m[i].key))
    requires op.OpGet? ==> !Expired(c, m[i], op.now)
    ensures Born(c, Hit(m, i), ops + [op], births)
  {
    hide Born, Canon;
    BornSame(c, m, ops, births, op, Hit(m, i));
  }

  lemma BornOther(c: Config, m: seq<Item>, ops: seq<Op>, births: seq<nat>, op: Op) returns (after: seq<nat>)
    requires Born(c, m, ops, births) && Distinct(c.caseSensitive, m) && !op.OpAdd?
    ensures Born(c, Apply(c, m, op), ops + [op], after)
  {
    hide Born, Canon, Distinct, RemoveAt, Hit;
    after := births;
    var i := if op.key == [] then -1 else Find(c.caseSensitive, m, op.key);
    hide Find;
    if i < 0 {
      BornApart(c, m, ops, births, op);
    } else if op.OpDelete? || (op.OpGet? && Expired(c, m[i], op.now)) {
      BornLeaves(c, m, ops, births, op, i);
      after := RemoveAt(births, i);
    } else {
      BornHit(c, m, ops, births, op, i);
    }
  }

  /** Whatever a table evicts and expires, its entries stand in the order of the adds that made them, spelt as there, with
      the value last set, a hit for each lookup since, none deleted since or found expired. */
  lemma {:induction false} OrderSurvives(c: Config, ops: seq<Op>) returns (births: seq<nat>)
    ensures Born(c, Run(c, [], ops), ops, births)
  {
    births := [];
    if ops != [] {
      var init, op := ops[..|ops| - 1], ops[|ops| - 1];
      assert ops == init + [op];
      var before := OrderSurvives(c, init);
      RunSnoc(c, [], init, op);
      DistinctRun(c, [], init);
      hide Born, Run, Apply, Distinct;
      if op.OpAdd? {
        births := BornAdd(c, Run(c, [], init), init, before, op);
      } else {
        births := BornOther(c, Run(c, [], init), init, before, op);
      }
    }
  }

  // ----- which entry an add evicts -----

  /** An add sets its own key; of all others only the key of the entry that is gone, if any, is lost. */
  ghost predicate Replaces(cs: bool, before: seq<Item>, gone: Option<nat>, op: Op, after: seq<Item>)
    requires op.OpAdd? && (gone.Some? ==> gone.value < |before|)
  {
    forall key: seq<byte> ::
      ValueOf(cs, after, key) ==
      if Canon(cs, op.key) == Canon(cs, key) then Found(op.value)
      else if gone.Some? && Canon(cs, before[gone.value].key) == Canon(cs, key) then Missing
      else ValueOf(cs, before, key)
  }

  /** The lookups an entry has had since its birth, counted in 64 bits. */
  ghost function Lookups(c: Config, ops: seq<Op>, births: seq<nat>, i: nat): nat
    requires i < |births| && births[i] < |ops|
  {
    Uses(c.caseSensitive, ops, births[i], Canon(c.caseSensitive, ops[births[i]].key)) % 0x1_0000_0000_0000_0000
  }

  lemma HitsAreLookups(c: Config, m: seq<Item>, ops: seq<Op>, births: seq<nat>, i: nat)
    requires Born(c, m, ops, births) && i < |m|
    ensures births[i] < |ops| && m[i].hits == Lookups(c, ops, births, i)
  {
    hide Uses, Canon, OnTime, NotDeleted, LastAdd;
    assert BornAt(c, m[i], ops, births[i]);
  }

  lemma AddReplaces(c: Config, m: seq<Item>, op: Op)
    requires Distinct(c.caseSensitive, m) && op.OpAdd? && op.key != []
    ensures var v := Victim(c, m, op.random);
            Replaces(c.caseSensitive, m, if v < 0 then None else Some(v), op, Apply(c, m, op))
  {
    hide Victim, Canon, ValueOf, Add;
    forall key: seq<byte>
      ensures var cs, v := c.caseSensitive, Victim(c, m, op.random);
              ValueOf(cs, Apply(c, m, op), key) ==
              if Canon(cs, op.key) == Canon(cs, key) then Found(op.value)
              else if v >= 0 && Canon(cs, m[v].key) == Canon(cs, key) then Missing
              else ValueOf(cs, m, key)
    {
      AddAsMap(c, m, op.key, op.value, op.now, op.random, key);
    }
  }

  /** Entry `v` is the one to go: in mode 1 the one born first; in mode 2 the one looked up least since its birth, the first
      of those; in mode 3 the drawn one, counted from the one born first. */
  ghost predicate ToGo(c: Config, ops: seq<Op>, births: seq<nat>, random: nat, v: nat)
    requires v < |births| && forall i :: 0 <= i < |births| ==> births[i] < |ops|
  {
    && (c.evictMode == 1 ==> forall i :: 0 <= i < |births| && i != v ==> births[v] < births[i])
    && (c.evictMode == 2 ==>
          forall i :: 0 <= i < |births| && i != v ==>
            var least, other := Lookups(c, ops, births, v), Lookups(c, ops, births, i);
            least < other || (least == other && births[v] < births[i]))
    && (c.evictMode == 3 ==> v == random % |births|)
  }

  lemma VictimGoes(c: Config, m: seq<Item>, ops: seq<Op>, births: seq<nat>, random: nat)
    requires Born(c, m, ops, births)
    ensures var v := Victim(c, m, random);
            && (v >= 0 <==> Evicts(c) && 0 < c.maxEntries <= |m|)
            && (v >= 0 ==> ToGo(c, ops, births, random, v))
  {
    hide Lookups, BornAt, LeastUsed;
    forall i | 0 <= i < |m|
      ensures m[i].hits == Lookups(c, ops, births, i)
    {
      HitsAreLookups(c, m, ops, births, i);
    }
  }

  /** Whether and which entry an add makes go: one does in a full table with an eviction mode, and no other. */
  lemma EvictedByHistory(c: Config, ops: seq<Op>, op: Op, births: seq<nat>) returns (gone: Option<nat>)
    requires Born(c, Run(c, [], ops), ops, births) && op.OpAdd? && op.key != []
    ensures var m := Run(c, [], ops);
            && (gone.Some? <==> Evicts(c) && 0 < c.maxEntries <= |m|)
            && (gone.Some? ==> gone.value < |m| && ToGo(c, ops, births, op.random, gone.value))
            && Replaces(c.caseSensitive, m, gone, op, Run(c, [], ops + [op]))
  {
    var m := Run(c, [], ops);
    RunSnoc(c, [], ops, op);
    DistinctRun(c, [], ops);
    hide Run, Distinct, Apply, Victim, Replaces, ToGo, BornAt;
    AddReplaces(c, m, op);
    VictimGoes(c, m, ops, births, op.random);
    var v := Victim(c, m, op.random);
    gone := if v < 0 then None else Some(v);
  }

  // ----- expiry -----

  /** Whatever a table evicts, what it holds or gives is the value last set, not deleted since, and no lookup since then
      came too late, this one included. */
  lemma HeldInTime(c: Config, ops: seq<Op>, key: seq<byte>, now: int)
    requires key != []
    ensures var cs, f := c.caseSensitive, Canon(c.caseSensitive, key);
            var m, a := Run(c, [], ops), LastAdd(cs, ops, f);
            && (ValueOf(cs, m, key).Found? ==> a >= 0 && OnTime(c, ops, a, f) && ValueOf(cs, m, key) == Found(ops[a].value))
            && Got(c, m, key, now) == if a >= 0 && InTime(c, ops[a].now, now) then ValueOf(cs, m, key) else Missing
  {
    var births := OrderSurvives(c, ops);
    var m := Run(c, [], ops);
    var i := Find(c.caseSensitive, m, key);
    if i >= 0 {
      assert BornAt(c, m[i], ops, births[i]);
    }
  }

  /** Set, not deleted since, and no lookup since came too late. */
  ghost predicate Alive(c: Config, ops: seq<Op>, f: seq<byte>) {
    var a := LastAdd(c.caseSensitive, ops, f);
    a >= 0 && OnTime(c, ops, a, f)
  }

  lemma AliveSnoc(c: Config, ops: seq<Op>, op: Op, f: seq<byte>)
    ensures Alive(c, ops + [op], f) <==>
            var own, a := About(c.caseSensitive, op, f), LastAdd(c.caseSensitive, ops, f);
            || (own && op.OpAdd?)
            || (Alive(c, ops, f) && !(own && op.OpDelete?) && (own && op.OpGet? ==> InTime(c, ops[a].now, op.now)))
  {
    LastAddSnoc(c.caseSensitive, ops, op, f);
    var a := LastAdd(c.caseSensitive, ops, f);
    if a >= 0 {
      OnTimeSnoc(c, ops, op, a, f);
    }
    if op.OpAdd? {
      JustSet(c, ops, op, f);
    }
    hide LastAdd, About, OnTime, InTime;
  }

  lemma AliveNone(c: Config, f: seq<byte>, key: seq<byte>)
    ensures !Alive(c, [], f) && ValueOf(c.caseSensitive, Run(c, [], []), key) == Missing
  {
  }

  /** In a table that does not evict, a key is held exactly if the value last set was not deleted since and no lookup since
      came too late. */
  lemma {:induction false} HeldExactly(c: Config, ops: seq<Op>, key: seq<byte>)
    requires (!Evicts(c) || c.maxEntries <= 0) && key != []
    ensures ValueOf(c.caseSensitive, Run(c, [], ops), key).Found? <==> Alive(c, ops, Canon(c.caseSensitive, key))
  {
    if ops == [] {
      AliveNone(c, Canon(c.caseSensitive, key), key);
    } else {
      hide *;
      var init, op := ops[..|ops| - 1], ops[|ops| - 1];
      assert ops == init + [op];
      HeldExactly(c, init, key);
      HeldStep(c, init, op, key);
    }
  }

  lemma {:induction false} HeldStep(c: Config, init: seq<Op>, op: Op, key: seq<byte>)
    requires (!Evicts(c) || c.maxEntries <= 0) && key != []
    requires ValueOf(c.caseSensitive, Run(c, [], init), key).Found? <==> Alive(c, init, Canon(c.caseSensitive, key))
    ensures ValueOf(c.caseSensitive, Run(c, [], init + [op]), key).Found? <==> Alive(c, init + [op], Canon(c.caseSensitive, key))
  {
    var cs, f := c.caseSensitive, Canon(c.caseSensitive, key);
    HeldInTime(c, init + [op], key, 0);
    HeldInTime(c, init, key, if op.OpGet? then op.now else 0);
    AliveSnoc(c, init, op, f);
    RunSnoc(c, [], init, op);
    DistinctRun(c, [], init);
    hide Canon, Run, LastAdd, OnTime, Apply, ValueOf, About, InTime, Distinct, Got;
    ApplyHolds(c, Run(c, [], init), op, key);
  }

  /** An entry is held on unless it is deleted or a lookup finds it expired. */
  lemma ApplyHolds(c: Config, m: seq<Item>, op: Op, key: seq<byte>)
    requires (!Evicts(c) || c.maxEntries <= 0) && Distinct(c.caseSensitive, m) && key != []
    ensures var cs := c.caseSensitive;
            var own := About(cs, op, Canon(cs, key));
            && (own && op.OpAdd? ==> ValueOf(cs, Apply(c, m, op), key).Found?)
            && (ValueOf(cs, m, key).Found? && !(own && op.OpDelete?) && (own && op.OpGet? ==> Got(c, m, key, op.now).Found?) ==>
                  ValueOf(cs, Apply(c, m, op), key).Found?)
  {
    hide Canon, Find, ValueOf, RemoveAt, Hit, Put;
    var cs := c.caseSensitive;
    if op.key != [] {
      var i := Find(cs, m, op.key);
      if op.OpAdd? {
        AddAsMap(c, m, op.key, op.value, op.now, op.random, key);
      } else if i >= 0 {
        HitKeeps(cs, m, i, key);
        FindRemoved(cs, m, i, key);
        SameFind(cs, m, op.key, key);
      }
    }
  }

  lemma SameFind(cs: bool, m: seq<Item>, k: seq<byte>, key: seq<byte>)
    requires Distinct(cs, m)
    ensures Canon(cs, k) == Canon(cs, key) ==> Find(cs, m, k) == Find(cs, m, key)
  {
    var i := Find(cs, m, k);
    if Canon(cs, k) == Canon(cs, key) && i >= 0 {
      FindIs(cs, m, key, i);
    }
  }

  /** A lookup in a table that does not evict gives the value last set exactly if it was not deleted since, and no lookup
      since came too late, this one included. */
  lemma ExpiresExactly(c: Config, ops: seq<Op>, key: seq<byte>, now: int)
    requires (!Evicts(c) || c.maxEntries <= 0) && key != []
    ensures var cs, f := c.caseSensitive, Canon(c.caseSensitive, key);
            var a := LastAdd(cs, ops, f);
            Got(c, Run(c, [], ops), key, now) ==
            if a >= 0 && OnTime(c, ops, a, f) && InTime(c, ops[a].now, now) then Found(ops[a].value) else Missing
  {
    HeldExactly(c, ops, key);
    HeldInTime(c, ops, key, now);
    hide Canon, Run, LastAdd, OnTime, ValueOf, InTime, Got;
  }
}
