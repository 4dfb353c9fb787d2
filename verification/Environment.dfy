/** The variable store of flb_env.c, over a hash table, with the operating system's environment behind it. */
module Environment {
  import opened Bytes
  import opened OrderedMap
  import opened MapHistory
  import opened EnvTemplate
  import HashTable

  const ENV_CONFIG := Config(true, EVICT_NONE, -1, 0)
  const ENV_BUCKETS := 64

  /** "file://" */
  const FILE_PREFIX: seq<byte> := [102, 105, 108, 101, 58, 47, 47]

  /** What a stored value reads as; only empty strings are kept by reference. */
  function TextOf(v: Value): seq<byte> {
    if v.Copied? then Text(v.bytes) else []
  }

  /** The value a variable has after some operations: the one last set, or a non-empty one from the system. */
  function VarValue(history: seq<Op>, system: map<seq<byte>, seq<byte>>, key: seq<byte>): Option<seq<byte>> {
    var v := if key == [] then Missing else LastSet(true, history, key);
    if v.Found? then Some(TextOf(v.value))
    else if key in system && system[key] != [] then Some(system[key])
    else None
  }

  /** The value to store: the text itself, or the content of the file it names, less one line end. */
  function Resolve(files: map<seq<byte>, seq<byte>>, val: seq<byte>): Option<seq<byte>> {
    if !(|val| > 7 && FILE_PREFIX <= val) then Some(val)
    else if val[7..] !in files then None
    else
      var content := files[val[7..]];
      var n := |content|;
      var trimmed := if n > 0 && (content[n - 1] == LF || content[n - 1] == CR) then content[..n - 1] else content;
      if trimmed == [] then None else Some(trimmed)
  }

  function Stored(val: seq<byte>): Value {
    if |val| > 0 then Copied(val) else Reference(0)
  }

  lemma LastSetSnoc(history: seq<Op>, op: Op, key: seq<byte>)
    ensures LastSet(true, history + [op], key) ==
            if op.key != [] && op.key == key && op.OpAdd? then Found(op.value)
            else if op.key != [] && op.key == key && op.OpDelete? then Missing
            else LastSet(true, history, key)
  {
    assert (history + [op])[..|history|] == history;
  }

  /** The variables as a function. */
  function Variables(history: seq<Op>, system: map<seq<byte>, seq<byte>>): seq<byte> -> Option<seq<byte>> {
    (key: seq<byte>) => VarValue(history, system, key)
  }

  class Env {
    const table: HashTable.Table
    /** The operating system's environment and the readable files. */
    const system: map<seq<byte>, seq<byte>>
    const files: map<seq<byte>, seq<byte>>
    ghost var history: seq<Op>

    ghost predicate Valid()
      reads this, table, table.entries
    {
      && table.Valid()
      && table.Cfg() == ENV_CONFIG
      && table.View() == Run(ENV_CONFIG, [], history)
    }

    constructor (system: map<seq<byte>, seq<byte>>, files: map<seq<byte>, seq<byte>>, hashOf: seq<byte> -> nat)
      ensures Valid() && history == [] && fresh(table) && this.system == system && this.files == files
    {
      this.system, this.files, history := system, files, [];
      table := new HashTable.Table(EVICT_NONE, ENV_BUCKETS, -1, 0, hashOf);
    }

    /** A table lookup and what it does to the history. */
    method TableGet(key: Key, now: int) returns (value: Lookup)
      requires Valid()
      modifies this`history, table, table.entries
      ensures Valid() && history == old(history) + [OpGet(key, now)]
      ensures value == if key == [] then Missing else LastSet(true, old(history), key)
      ensures forall e :: e in table.entries ==> e in old(table.entries)
    {
      GetIsLastSet(ENV_CONFIG, history, key, now);
      hide Run, LastSet, OrderedMap.Get, Got, HashTable.Table.Valid, HashTable.Table.View;
      var id;
      id, value := table.Get(key, now);
      history := history + [OpGet(key, now)];
    }

    /** The value of a variable, or None. */
    method Get(key: Key, now: int) returns (value: Option<seq<byte>>)
      requires Valid()
      modifies this`history, table, table.entries
      ensures Valid() && history == old(history) + [OpGet(key, now)]
      ensures value == VarValue(old(history), system, key)
      ensures key != [] && LastSet(true, old(history), key).Found? ==> value == Some(TextOf(LastSet(true, old(history), key).value))
      ensures key == [] || LastSet(true, old(history), key) == Missing ==>
                value == if key in system && |system[key]| > 0 then Some(system[key]) else None
      ensures forall e :: e in table.entries ==> e in old(table.entries)
    {
      hide LastSet, HashTable.Table.Valid, Run;
      var v := TableGet(key, now);
      if v.Found? {
        return Some(TextOf(v.value));
      }
      if key !in system || |system[key]| == 0 {
        return None;
      }
      return Some(system[key]);
    }

    method TableDel(key: Key)
      requires Valid()
      modifies this`history, table, table.entries
      ensures Valid() && history == old(history) + [OpDelete(key)]
      ensures forall e :: e in table.entries ==> e in old(table.entries)
    {
      RunSnoc(ENV_CONFIG, [], history, OpDelete(key));
      hide Run, Delete, Find, HashTable.Table.Valid, HashTable.Table.View;
      var ret := table.Del(key);
      history := history + [OpDelete(key)];
    }

    method TableAdd(key: Key, value: Value, now: int) returns (id: int)
      requires Valid()
      modifies this`history, table, table.entries
      ensures Valid() && history == old(history) + [OpAdd(key, value, now, 0)]
      ensures id == -1 <==> key == []
      ensures forall e :: e in table.entries ==> e in old(table.entries) || fresh(e)
    {
      RunSnoc(ENV_CONFIG, [], history, OpAdd(key, value, now, 0));
      hide Run, OrderedMap.Add, Canon, HashTable.Table.Valid, HashTable.Table.View;
      id := table.Add(key, value, now, 0);
      history := history + [OpAdd(key, value, now, 0)];
    }

    /** Sets a variable, replacing any value it had; no other variable changes. */
    method Set(key: Key, val: Key, now: int) returns (id: int)
      requires Valid()
      modifies this`history, table, table.entries
      ensures Valid()
      ensures id == -1 <==> key == [] || Resolve(files, val).None?
      ensures id != -1 ==> LastSet(true, history, key) == Found(Stored(Resolve(files, val).value))
      ensures forall k: seq<byte> :: id == -1 || k != key ==> LastSet(true, history, k) == LastSet(true, old(history), k)
      ensures forall e :: e in table.entries ==> e in old(table.entries) || fresh(e)
    {
      hide LastSet, Run, HashTable.Table.Valid;
      var r := Resolve(files, val);
      if r.None? {
        return -1;
      }
      var found := TableGet(key, now);
      forall k: seq<byte>
        ensures LastSet(true, history, k) == LastSet(true, old(history), k)
      {
        LastSetSnoc(old(history), OpGet(key, now), k);
      }
      if found.Found? {
        ghost var h := history;
        assert forall i :: 0 <= i < |table.entries| ==> table.entries[i] in table.entries;
        TableDel(key);
        forall k: seq<byte> | k != key || key == []
          ensures LastSet(true, history, k) == LastSet(true, old(history), k)
        {
          LastSetSnoc(h, OpDelete(key), k);
        }
      }
      ghost var h := history;
      assert forall i :: 0 <= i < |table.entries| ==> table.entries[i] in table.entries;
      id := TableAdd(key, Stored(r.value), now);
      forall k: seq<byte>
        ensures LastSet(true, history, k) ==
                if key != [] && k == key then Found(Stored(r.value)) else LastSet(true, h, k)
      {
        LastSetSnoc(h, OpAdd(key, Stored(r.value), now, 0), k);
      }
    }

    /** Variables keep their values. */
    ghost predicate SameValues(before: seq<Op>)
      reads this
    {
      forall k: seq<byte> :: LastSet(true, history, k) == LastSet(true, before, k)
    }

    /** A lookup changes no value. */
    static lemma GetKeeps(h: seq<Op>, before: seq<Op>, system: map<seq<byte>, seq<byte>>, name: Key, now: int)
      requires forall k: seq<byte> :: LastSet(true, h, k) == LastSet(true, before, k)
      ensures VarValue(h, system, name) == VarValue(before, system, name)
      ensures forall k: seq<byte> :: LastSet(true, h + [OpGet(name, now)], k) == LastSet(true, before, k)
    {
      hide LastSet;
      forall k: seq<byte>
        ensures LastSet(true, h + [OpGet(name, now)], k) == LastSet(true, before, k)
      {
        LastSetSnoc(h, OpGet(name, now), k);
      }
    }

    /** Appends the text before a variable and the variable's value. */
    method AppendVar(buf: seq<byte>, text: seq<byte>, name: Key, now: int, ghost before: seq<Op>) returns (buf': seq<byte>)
      requires Valid() && SameValues(before)
      modifies this`history, table, table.entries
      ensures Valid() && SameValues(before)
      ensures buf' == buf + (text + ValueOr(VarValue(before, system, name)))
      ensures forall e :: e in table.entries ==> e in old(table.entries)
    {
      hide LastSet, Run, Env.Valid, VarValue;
      buf' := buf;
      if |text| > 0 {
        buf' := buf' + text;
      }
      GetKeeps(history, before, system, name, now);
      var envVar := Get(name, now);
      if envVar.Some? {
        buf' := buf' + envVar.value;
      }
    }

    /** Looks for the next variable from `i` on; `vEnd` is the last "}" looked at. */
    static method NextName(value: Key, i: nat) returns (found: bool, vStart: int, vEnd: int)
      requires i < |value|
      ensures -1 <= vEnd < |value|
      ensures found == NextVar(value, i).Some?
      ensures found ==> i + 2 <= vStart < vEnd && NextVar(value, i) == Some((vStart, vEnd))
      ensures !found ==> vEnd == if CopyFrom(value, i) < 0 then -1 else CopyFrom(value, i) - 1
    {
      hide FindVar, FindClose;
      found, vEnd := false, i - 1;
      vStart := FindVar(value, i);
      if vStart < 0 {
        return;
      }
      vEnd := FindClose(value, i);
      if vEnd < 0 {
        return;
      }
      vStart := vStart + 2;
      var vLen := vEnd - vStart;
      found := !(vLen <= 0 || vLen >= NAME_MAX);
    }

    static lemma AtEnd(value: seq<byte>, i: nat)
      requires i <= |value|
      ensures i == |value| ==> NextVar(value, i).None? && CopyFrom(value, i) == i
    {
    }

    /** The translation loop: the expanded text, and the last "}" it looked at. */
    method ExpandVars(value: Key, now: int) returns (buf: seq<byte>, i: nat, haveVar: bool, vEnd: int)
      requires Valid()
      modifies this`history, table, table.entries
      ensures Valid() && SameValues(old(history))
      ensures i <= |value| && -1 <= vEnd < |value| && (haveVar <==> i > 0)
      ensures Expand(Variables(old(history), system), value, 0) == Expanded(buf, haveVar, i)
      ensures haveVar ==> vEnd == if CopyFrom(value, i) < 0 then -1 else CopyFrom(value, i) - 1
      ensures !haveVar ==> buf == []
    {
      hide LastSet, Run, FindVar, FindClose, Expand, NextVar, CopyFrom, ValueOr, Env.Valid, VarValue;
      ghost var look := Variables(history, system);
      buf, i, haveVar, vEnd := [], 0, false, -1;
      while i < |value|
        invariant i <= |value| && Valid() && SameValues(old(history))
        invariant forall e :: e in table.entries ==> e in old(table.entries)
        invariant vEnd == i - 1 && (haveVar <==> i > 0) && (!haveVar ==> buf == [])
        invariant var x := Expand(look, value, i);
                  Expand(look, value, 0) == Expanded(buf + x.text, haveVar || x.any, x.from)
      {
        var found, vStart;
        found, vStart, vEnd := NextName(value, i);
        if !found {
          break;
        }
        ExpandSome(look, value, i, vStart, vEnd);
        Assoc(buf, value[i..vStart - 2] + ValueOr(look(value[vStart..vEnd])), Expand(look, value, vEnd + 1).text);
        haveVar := true;
        assert forall j :: 0 <= j < |table.entries| ==> table.entries[j] in table.entries;
        buf := AppendVar(buf, value[i..vStart - 2], value[vStart..vEnd], now, old(history));
        i := vEnd + 1;
      }
      AtEnd(value, i);
      ExpandNone(look, value, i);
      assert buf + [] == buf;
    }

    /** Expands the variables of a template. */
    method Translate(value: Key, now: int) returns (result: seq<byte>)
      requires Valid()
      modifies this`history, table, table.entries
      ensures Valid() && SameValues(old(history))
      ensures result == EnvTemplate.Translate(Variables(old(history), system), value)
    {
      hide LastSet, Run, FindVar, FindClose, Expand, Env.Valid, VarValue, EnvTemplate.Translate;
      var i, haveVar, vEnd;
      result, i, haveVar, vEnd := ExpandVars(value, now);
      CopyRest(Variables(old(history), system), value, result, haveVar, i, vEnd);
      if vEnd >= 0 && haveVar && |value| - (vEnd + 1) > 0 {
        result := result + value[vEnd + 1..];
      }
      if |result| == 0 && !haveVar {
        result := value;
      }
    }
  }

  /** The variables with one of them set. */
  function Updated(look: seq<byte> -> Option<seq<byte>>, key: seq<byte>, val: seq<byte>): seq<byte> -> Option<seq<byte>> {
    (k: seq<byte>) => if k == key then Some(val) else look(k)
  }

  lemma SetShows(before: seq<Op>, after: seq<Op>, system: map<seq<byte>, seq<byte>>, key: seq<byte>, val: Value, k: seq<byte>)
    requires key != [] && LastSet(true, after, key) == Found(val)
    requires k != key ==> LastSet(true, after, k) == LastSet(true, before, k)
    ensures Variables(after, system)(k) == Updated(Variables(before, system), key, TextOf(val))(k)
  {
    hide LastSet;
  }

  lemma SetMeans(before: seq<Op>, after: seq<Op>, system: map<seq<byte>, seq<byte>>, key: seq<byte>, val: Value, parts: seq<Part>)
    requires key != [] && LastSet(true, after, key) == Found(val)
    requires forall k: seq<byte> :: k != key ==> LastSet(true, after, k) == LastSet(true, before, k)
    ensures Meaning(Variables(after, system), parts) == Meaning(Updated(Variables(before, system), key, TextOf(val)), parts)
  {
    hide LastSet, Meaning;
    var look, look' := Variables(before, system), Variables(after, system);
    forall k: seq<byte>
      ensures look'(k) == Updated(look, key, TextOf(val))(k)
    {
      SetShows(before, after, system, key, val, k);
    }
    MeaningSame(look', Updated(look, key, TextOf(val)), parts);
  }

  /** A value that names no file: it does not start with "file://", or has nothing behind it. */
  predicate IsPlain(val: seq<byte>) {
    !(|val| > 7 && FILE_PREFIX <= val)
  }

  lemma PlainShown(files: map<seq<byte>, seq<byte>>, val: seq<byte>)
    requires IsPlain(val) && NUL !in val
    ensures Resolve(files, val) == Some(val) && TextOf(Stored(val)) == val
  {
  }

  /** After a variable is set, every template is expanded with its new value in its places; a plain value stands for itself,
      a file for its text. */
  method SetThenTranslate(env: Env, key: Key, val: Key, t: Template, now: int) returns (result: seq<byte>)
    requires env.Valid() && key != [] && Resolve(env.files, val).Some?
    requires IsTemplate(t) && NUL !in Render(t.parts) + t.tail
    modifies env, env.table, env.table.entries
    ensures var shown := TextOf(Stored(Resolve(env.files, val).value));
            result == Meaning(Updated(Variables(old(env.history), env.system), key, shown), t.parts) + t.tail
    ensures IsPlain(val) ==>
              result == Meaning(Updated(Variables(old(env.history), env.system), key, val), t.parts) + t.tail
  {
    if IsPlain(val) {
      PlainShown(env.files, val);
    }
    hide LastSet, Env.Valid, EnvTemplate.Translate, Meaning, Render, IsTemplate, Resolve, IsPlain;
    ghost var shown := Stored(Resolve(env.files, val).value);
    var id := env.Set(key, val, now);
    ghost var look, look' := Variables(old(env.history), env.system), Variables(env.history, env.system);
    SetMeans(old(env.history), env.history, env.system, key, shown, t.parts);
    TranslateTemplate(look', t);
    hide Updated, TextOf, Variables;
    assert forall j :: 0 <= j < |env.table.entries| ==> env.table.entries[j] in env.table.entries;
    result := env.Translate(Render(t.parts) + t.tail, now);
  }

  /** A template with the values of the operating system's environment in its places, empty where it has none. */
  function FromSystem(system: map<seq<byte>, seq<byte>>, parts: seq<Part>): seq<byte> {
    if parts == [] then []
    else
      var name := parts[0].name;
      parts[0].literal + (if name in system then system[name] else []) + FromSystem(system, parts[1..])
  }

  lemma {:induction false} UnsetMeans(history: seq<Op>, system: map<seq<byte>, seq<byte>>, parts: seq<Part>)
    requires forall i :: 0 <= i < |parts| ==> LastSet(true, history, parts[i].name) == Missing
    ensures Meaning(Variables(history, system), parts) == FromSystem(system, parts)
  {
    if parts != [] {
      hide LastSet;
      assert forall i :: 0 <= i < |parts[1..]| ==> parts[1..][i] == parts[i + 1];
      UnsetMeans(history, system, parts[1..]);
    }
  }

  /** Variables that are not set are the operating system's. */
  method TranslateUnset(env: Env, t: Template, now: int) returns (result: seq<byte>)
    requires env.Valid() && IsTemplate(t) && NUL !in Render(t.parts) + t.tail
    requires forall i :: 0 <= i < |t.parts| ==> LastSet(true, env.history, t.parts[i].name) == Missing
    modifies env, env.table, env.table.entries
    ensures result == FromSystem(env.system, t.parts) + t.tail
  {
    UnsetMeans(env.history, env.system, t.parts);
    TranslateTemplate(Variables(env.history, env.system), t);
    hide LastSet, Env.Valid, EnvTemplate.Translate, Meaning, Render, IsTemplate, Variables;
    result := env.Translate(Render(t.parts) + t.tail, now);
  }

  lemma Scheme()
    ensures Ascii("file://") == FILE_PREFIX
  {
  }

  /** A file's text stands for it, less one line feed or carriage return at its end; a file without text, or none, for
      nothing. */
  lemma FileValue(files: map<seq<byte>, seq<byte>>, path: seq<byte>, text: seq<byte>, last: seq<byte>)
    requires path != [] && (last == [10] || last == [13] || (last == [] && (text != [] ==> text[|text| - 1] !in [10, 13])))
    ensures Resolve(files[path := text + last], Ascii("file://") + path) == if text == [] then None else Some(text)
    ensures path !in files ==> Resolve(files, Ascii("file://") + path) == None
  {
    Scheme();
    hide Ascii;
    var val := Ascii("file://") + path;
    assert val[7..] == path && FILE_PREFIX <= val;
    var content := text + last;
    if last != [] {
      assert content[|content| - 1] == last[0] && content[..|content| - 1] == text;
    } else {
      assert content == text;
    }
  }
}
