/** The header table of an HTTP request, flb_http_common.c, over a case-insensitive hash table. */
module RequestHeaders {
  import opened Bytes
  import opened OrderedMap
  import opened MapHistory
  import HashTable

  /** FLB_HASH_TABLE_EVICT_NONE, no limit, no expiry, keys folded. */
  const HEADER_CONFIG := Config(false, EVICT_NONE, -1, 0)
  const HEADER_BUCKETS := 16

  lemma FoldTwice(k: seq<byte>)
    ensures Fold(Fold(k)) == Fold(k)
    ensures NUL !in k ==> NUL !in Fold(k)
  {
    assert forall i :: 0 <= i < |k| && NUL !in k ==> k[i] in k;
  }

  /** An empty value is stored as one NUL byte, so that it is copied and not referenced. */
  function Stored(value: seq<byte>): Value {
    Copied(if value == [] then [NUL] else value)
  }

  function HeaderLine(item: Item): seq<byte> {
    item.key + [58, SPACE] + (if item.value.Copied? then Text(item.value.bytes) else []) + [CR, LF]
  }

  /** The header lines in table order. */
  function HeaderLines(m: seq<Item>): seq<byte> {
    if m == [] then [] else HeaderLines(m[..|m| - 1]) + HeaderLine(m[|m| - 1])
  }

  /** No value is kept by reference. */
  ghost predicate AllCopied(history: seq<Op>) {
    forall i :: 0 <= i < |history| && history[i].OpAdd? ==> history[i].value.Copied?
  }

  /** The items a history of operations leaves. */
  ghost predicate Matches(m: seq<Item>, history: seq<Op>) {
    m == Run(HEADER_CONFIG, [], history) && AllCopied(history)
  }

  lemma MatchesNone()
    ensures Matches([], [])
  {
  }

  lemma MatchesSet(m: seq<Item>, history: seq<Op>, name: Key, value: Value, now: int)
    requires Matches(m, history) && value.Copied?
    ensures Matches(OrderedMap.Add(HEADER_CONFIG, m, name, value, now, 0), history + [OpAdd(name, value, now, 0)])
  {
    RunSnoc(HEADER_CONFIG, [], history, OpAdd(name, value, now, 0));
    hide Run, OrderedMap.Add;
  }

  lemma MatchesGet(m: seq<Item>, history: seq<Op>, name: Key, now: int)
    requires Matches(m, history) && Fold(name) == name
    ensures Matches(OrderedMap.Get(HEADER_CONFIG, m, name, now), history + [OpGet(name, now)])
    ensures Got(HEADER_CONFIG, m, name, now) == if name == [] then Missing else LastSet(false, history, name)
  {
    GetIsLastSet(HEADER_CONFIG, history, name, now);
    hide Run, OrderedMap.Get, Got, LastSet;
  }

  lemma MatchesUnset(m: seq<Item>, history: seq<Op>, name: Key)
    requires Matches(m, history)
    ensures Matches(Delete(false, m, name), history + [OpDelete(name)])
    ensures Find(false, m, name) >= 0 <==> LastSet(false, history, Fold(name)).Found?
  {
    RunSnoc(HEADER_CONFIG, [], history, OpDelete(name));
    LiveHeader(history, name);
    hide Run, Delete, Find, LastSet;
  }

  lemma LinesNone(m: seq<Item>)
    ensures HeaderLines(m[..0]) == []
  {
  }

  lemma LinesNext(m: seq<Item>, i: nat)
    requires i < |m|
    ensures HeaderLines(m[..i + 1]) == HeaderLines(m[..i]) + HeaderLine(m[i])
  {
    hide HeaderLine;
    assert m[..i + 1][..i] == m[..i];
  }

  /** A header line as text. */
  ghost predicate IsLineOf(line: seq<byte>, item: Item) {
    item.value.Copied? ==> line == item.key + Ascii(": ") + Text(item.value.bytes) + Ascii("\r\n")
  }

  lemma LineText(item: Item)
    ensures IsLineOf(HeaderLine(item), item)
  {
    assert Ascii(": ") == [58, 32] && Ascii("\r\n") == [13, 10];
  }

  /** The lines are the items' in their order, each "name: value" with a line end; an empty value leaves nothing behind
      the blank. */
  lemma {:induction false} LinesInOrder(m: seq<Item>) returns (lines: seq<seq<byte>>)
    ensures HeaderLines(m) == Concat(lines) && |lines| == |m| && forall i :: 0 <= i < |m| ==> IsLineOf(lines[i], m[i])
    ensures forall value: seq<byte> :: NUL !in value ==> Stored(value).Copied? && Text(Stored(value).bytes) == value
  {
    hide HeaderLine, IsLineOf;
    lines := [];
    if m != [] {
      var init, last := m[..|m| - 1], m[|m| - 1];
      var before := LinesInOrder(init);
      LineText(last);
      lines := before + [HeaderLine(last)];
      ConcatAppend(before, [HeaderLine(last)]);
      assert Concat([HeaderLine(last)]) == HeaderLine(last) + Concat([]);
    }
  }

  lemma LiveHeader(history: seq<Op>, name: seq<byte>)
    ensures Find(false, Run(HEADER_CONFIG, [], history), name) >= 0 <==> LastSet(false, history, Fold(name)).Found?
  {
    LookupIsLastSet(HEADER_CONFIG, history, name);
  }

  /** The items are the headers set and not unset since, each once, with the value last set. */
  ghost predicate Listed(m: seq<Item>, history: seq<Op>) {
    && Distinct(false, m)
    && (forall i :: 0 <= i < |m| ==> LastSet(false, history, Fold(m[i].key)) == Found(m[i].value))
    && (forall name: seq<byte> :: LastSet(false, history, Fold(name)).Found? ==> ListedAt(m, name))
  }

  ghost predicate ListedAt(m: seq<Item>, name: seq<byte>) {
    exists i :: 0 <= i < |m| && Fold(m[i].key) == Fold(name)
  }

  lemma AllListed(history: seq<Op>)
    ensures Listed(Run(HEADER_CONFIG, [], history), history)
  {
    var m := Run(HEADER_CONFIG, [], history);
    DistinctRun(HEADER_CONFIG, [], history);
    hide Run, LastSet, Fold;
    forall i | 0 <= i < |m|
      ensures LastSet(false, history, Fold(m[i].key)) == Found(m[i].value)
    {
      FindIs(false, m, m[i].key, i);
      LookupIsLastSet(HEADER_CONFIG, history, m[i].key);
    }
    forall name: seq<byte> | LastSet(false, history, Fold(name)).Found?
      ensures ListedAt(m, name)
    {
      LiveHeader(history, name);
      var i := Find(false, m, name);
      assert Fold(m[i].key) == Fold(name);
    }
  }

  lemma MatchesListed(m: seq<Item>, history: seq<Op>)
    requires Matches(m, history)
    ensures Ordered(false, m, history) && Listed(m, history)
  {
    OrderIsBirth(HEADER_CONFIG, history);
    AllListed(history);
    hide Run, Ordered, Listed;
  }

  class Request {
    const headers: HashTable.Table
    /** Every operation on the headers so far. */
    ghost var history: seq<Op>

    ghost predicate Valid()
      reads this, headers, headers.entries
    {
      && headers.Valid()
      && headers.Cfg() == HEADER_CONFIG
      && Matches(headers.View(), history)
    }

    constructor (hashOf: seq<byte> -> nat)
      ensures Valid() && history == [] && fresh(headers)
    {
      headers := new HashTable.Table(EVICT_NONE, HEADER_BUCKETS, -1, 0, hashOf);
      history := [];
      new;
      headers.SetCaseSensitivity(false);
      MatchesNone();
      assert headers.View() == [];
    }

    method SetHeader(name: Key, value: seq<byte>, now: int) returns (ret: int)
      requires Valid()
      modifies this`history, headers, headers.entries
      ensures Valid() && history == old(history) + [OpAdd(name, Stored(value), now, 0)]
      ensures ret == if name == [] then -1 else 0
      ensures forall e :: e in headers.entries ==> e in old(headers.entries) || fresh(e)
    {
      MatchesSet(headers.View(), history, name, Stored(value), now);
      hide Matches, Canon, OrderedMap.Add, HashTable.Table.Valid, HashTable.Table.View;
      var result := headers.Add(name, Stored(value), now, 0);
      history := history + [OpAdd(name, Stored(value), now, 0)];
      ret := if result == -1 then -1 else 0;
    }

    /** A lookup in any spelling of the name gives the value last set under it and not unset since. */
    method GetHeader(name: Key, now: int) returns (value: Lookup)
      requires Valid()
      modifies this`history, headers, headers.entries
      ensures Valid() && history == old(history) + [OpGet(Fold(name), now)]
      ensures value == if name == [] then Missing else LastSet(false, old(history), Fold(name))
      ensures forall e :: e in headers.entries ==> e in old(headers.entries)
    {
      FoldTwice(name);
      var lowercaseName: Key := Fold(name);
      MatchesGet(headers.View(), history, lowercaseName, now);
      hide Matches, LastSet, OrderedMap.Get, Got, Fold, HashTable.Table.Valid, HashTable.Table.View;
      var id;
      id, value := headers.Get(lowercaseName, now);
      history := history + [OpGet(lowercaseName, now)];
    }

    method UnsetHeader(name: Key) returns (ret: int)
      requires Valid()
      modifies this`history, headers, headers.entries
      ensures Valid() && history == old(history) + [OpDelete(name)]
      ensures ret == if name != [] && LastSet(false, old(history), Fold(name)).Found? then 0 else -1
      ensures forall e :: e in headers.entries ==> e in old(headers.entries)
    {
      MatchesUnset(headers.View(), history, name);
      hide Matches, LastSet, Delete, Find, Fold, HashTable.Table.Valid, HashTable.Table.View;
      ret := headers.Del(name);
      history := history + [OpDelete(name)];
    }

    /** The header lines of the request: live headers in the order of their surviving first insertion. */
    method ComposeHeaders() returns (output: seq<byte>)
      requires Valid()
      ensures output == HeaderLines(headers.View())
      ensures Ordered(false, headers.View(), history)
      ensures Listed(headers.View(), history)
    {
      MatchesListed(headers.View(), history);
      hide Matches, Ordered, Listed, HeaderLines, HashTable.Table.Valid, HashTable.Table.View;
      output := WriteLines();
    }

    method WriteLines() returns (output: seq<byte>)
      ensures output == HeaderLines(headers.View())
    {
      hide HeaderLines, HeaderLine;
      output := [];
      ghost var m := headers.View();
      LinesNone(m);
      for i := 0 to |headers.entries|
        invariant output == HeaderLines(m[..i])
      {
        var e := headers.entries[i];
        LinesNext(m, i);
        output := output + HeaderLine(Item(e.key, e.value, e.created, e.hits));
      }
      assert m[..|m|] == m;
    }
  }
}
