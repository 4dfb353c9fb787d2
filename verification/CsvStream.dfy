/** Whole runs of the CSV reader: any stream, any windows, with or without a callback. */
module CsvStream {
  import opened Bytes
  import opened CsvSpec
  import opened CsvReader

  /** The record ends among the events: all that a reader without a callback reports. */
  function Records(events: seq<Event>): seq<Event> {
    if events == [] then []
    else (if events[0].Record? then [events[0]] else []) + Records(events[1..])
  }

  lemma {:induction false} RecordsAppend(a: seq<Event>, b: seq<Event>)
    ensures Records(a + b) == Records(a) + Records(b)
  {
    if a == [] {
      assert a + b == b;
    } else {
      assert (a + b)[0] == a[0] && (a + b)[1..] == a[1..] + b;
      RecordsAppend(a[1..], b);
      var head := if a[0].Record? then [a[0]] else [];
      assert head + (Records(a[1..]) + Records(b)) == head + Records(a[1..]) + Records(b);
    }
  }

  function Fields(values: seq<seq<byte>>): seq<Event> {
    seq(|values|, i requires 0 <= i < |values| => Field(values[i]))
  }

  lemma {:induction false} FieldsOnly(events: seq<Event>)
    requires forall e :: e in events ==> e.Field?
    ensures Fields(FieldValues(events)) == events && Records(events) == []
  {
    if events != [] {
      FieldsOnly(events[1..]);
      assert Fields(FieldValues(events)) == [events[0]] + Fields(FieldValues(events[1..]));
    }
  }

  /** A call extended the log by fields, and by a record end if it succeeded. */
  lemma CallEvents(before: seq<Event>, mid: seq<Event>, ended: seq<Event>)
    requires forall e :: e in mid ==> e.Field?
    requires ended == [] || (|ended| == 1 && ended[0].Record?)
    ensures FieldValues(before + mid + ended) == FieldValues(before) + FieldValues(mid)
    ensures Fields(FieldValues(mid)) == mid
    ensures Records(before + mid + ended) == Records(before) + ended
  {
    FieldsOnly(mid);
    FieldValuesAppend(before + mid, ended);
    FieldValuesAppend(before, mid);
    RecordsAppend(before + mid, ended);
    RecordsAppend(before, mid);
    if ended != [] {
      assert ended[1..] == [];
    }
  }

  lemma OutcomeAppend(r: Reader, a: seq<byte>, b: seq<byte>)
    ensures r.Outcome(a + b) == Then(r.Outcome(a), Run(r.Outcome(a).state, b))
  {
    RunAppend(r.spec, a, b);
    ThenAssoc(Out(r.spec, r.log), Run(r.spec, a), Run(Run(r.spec, a).state, b));
  }

  function WindowAt(stream: seq<byte>, pos: nat, size: nat): seq<byte>
    requires pos <= |stream|
  {
    if size < |stream| - pos then stream[pos..pos + size] else stream[pos..]
  }

  /** One call, and the events it adds to the trace. */
  method Call(r: Reader, window: seq<byte>, pos: nat)
    returns (rest: seq<byte>, fields: seq<seq<byte>>, ended: seq<Event>)
    requires r.Valid() && r.spec.pos == pos
    modifies r
    ensures r.Valid()
    ensures Suffix(window, rest)
    ensures r.spec.pos == pos + |window| - |rest|
    ensures r.Outcome(rest) == old(r.Outcome(window))
    ensures r.callback ==> r.log == old(r.log) + Fields(fields) + ended
    ensures !r.callback ==> fields == []
    ensures Records(r.log) == Records(old(r.log)) + ended
    ensures window != [] && rest == window ==> old(r.state.FoundCr?) && !r.state.FoundCr?
  {
    hide Run, Then, Reader.Scanning, Pending, Suffix, FieldValues, Records, Fields, Reader.Outcome;
    var seen := |r.delivered|;
    var ret, count;
    ret, rest, count := r.ParseRecord(window);
    ended := if ret == Success then [Record(count, pos + |window| - |rest|)] else [];
    ghost var mid := SplitLog(old(r.log), r.log, ended);
    CallEvents(old(r.log), mid, ended);
    fields := r.delivered[seen..];
  }

  /** The log of a call: what was there, fields, and perhaps a record end. */
  lemma SplitLog(before: seq<Event>, log: seq<Event>, ended: seq<Event>) returns (mid: seq<Event>)
    requires |before| + |ended| <= |log| && ended == log[|log| - |ended|..]
    requires OnlyFields(before, log[..|log| - |ended|])
    ensures log == before + mid + ended && forall e :: e in mid ==> e.Field?
  {
    mid := log[|before|..|log| - |ended|];
    assert log[..|log| - |ended|] == before + mid;
    forall e | e in mid
      ensures e.Field?
    {
      var i :| 0 <= i < |mid| && mid[i] == e;
      assert log[..|log| - |ended|][|before| + i] == e;
    }
  }

  /** One call on the next window of a stream. */
  method Present(r: Reader, stream: seq<byte>, pos: nat, size: nat)
    returns (pos': nat, fields: seq<seq<byte>>, ended: seq<Event>)
    requires r.Valid() && r.spec.pos == pos <= |stream|
    modifies r
    ensures r.Valid() && r.spec.pos == pos' && pos <= pos' <= |stream|
    ensures r.Outcome(stream[pos'..]) == old(r.Outcome(stream[pos..]))
    ensures r.callback ==> r.log == old(r.log) + Fields(fields) + ended
    ensures !r.callback ==> fields == []
    ensures Records(r.log) == Records(old(r.log)) + ended
    ensures 0 < size && pos == pos' < |stream| ==> old(r.state.FoundCr?) && !r.state.FoundCr?
  {
    hide Run, Then, Records, Reader.Valid, Reader.Outcome;
    var window := WindowAt(stream, pos, size);
    ghost var tail := stream[pos + |window|..];
    assert stream[pos..] == window + tail;
    OutcomeAppend(r, window, tail);
    var rest;
    rest, fields, ended := Call(r, window, pos);
    OutcomeAppend(r, rest, tail);
    pos' := pos + |window| - |rest|;
    assert stream[pos'..] == rest + tail;
  }

  /** A new reader before a stream. */
  method Begin(stream: seq<byte>, callback: bool) returns (r: Reader)
    ensures fresh(r) && r.Valid() && r.callback == callback && r.log == [] && Records(r.log) == []
    ensures r.spec.pos == 0 && !r.state.FoundCr? && r.Outcome(stream) == Run(START, stream)
  {
    r := new Reader(callback);
    hide Run;
    assert [] + Run(START, stream).events == Run(START, stream).events;
  }

  /**
    Presents a stream to a fresh reader, call by call, through windows of any sizes; bytes a call
    leaves unread are presented again.  Once the stream is used up, a reader with a callback has
    reported exactly the automaton's events over the whole stream, and one without a callback
    exactly its record ends.  Two calls per byte are always enough.
   */
  method ReadStream(stream: seq<byte>, windows: seq<nat>, callback: bool) returns (trace: seq<Event>, pos: nat)
    ensures pos <= |stream|
    ensures pos == |stream| && callback ==> trace == Run(START, stream).events
    ensures pos == |stream| && !callback ==> trace == Records(Run(START, stream).events)
    ensures |windows| >= 2 * |stream| && 0 !in windows ==> pos == |stream|
  {
    var r := Begin(stream, callback);
    trace, pos := [], 0;
    assert stream[0..] == stream;
    assert Tracks(r, stream, trace, pos);
    hide Run, Records, Tracks;
    for i := 0 to |windows|
      invariant fresh(r) && r.callback == callback && pos <= |stream| && Tracks(r, stream, trace, pos)
      invariant 0 !in windows && pos < |stream| ==> i + Left(r, stream, pos) <= 2 * |stream|
    {
      pos, trace := ReadOn(r, stream, pos, windows[i], trace);
    }
    AllRead(r, stream, trace, pos);
  }

  /** Where a reader stands in a stream, and the trace it has left. */
  ghost predicate Tracks(r: Reader, stream: seq<byte>, trace: seq<Event>, pos: nat)
    reads r
  {
    && r.Valid() && pos <= |stream| && r.spec.pos == pos
    && r.Outcome(stream[pos..]) == Run(START, stream)
    && trace == if r.callback then r.log else Records(r.log)
  }

  /** How many calls are enough. */
  ghost function Left(r: Reader, stream: seq<byte>, pos: nat): int
    reads r
  {
    2 * (|stream| - pos) + if r.state.FoundCr? then 1 else 0
  }

  method ReadOn(r: Reader, stream: seq<byte>, at: nat, size: nat, before: seq<Event>) returns (pos: nat, trace: seq<Event>)
    requires Tracks(r, stream, before, at)
    modifies r
    ensures at <= pos <= |stream| && Tracks(r, stream, trace, pos)
    ensures 0 < size && at < |stream| ==> Left(r, stream, pos) < old(Left(r, stream, at))
  {
    hide Run, Records, Fields, Reader.Valid, Reader.Outcome;
    var fields, ended;
    pos, fields, ended := Present(r, stream, at, size);
    NoFields(before, fields, ended);
    trace := before + Fields(fields) + ended;
  }

  lemma NoFields(trace: seq<Event>, fields: seq<seq<byte>>, ended: seq<Event>)
    ensures fields == [] ==> trace + Fields(fields) + ended == trace + ended
  {
  }

  lemma AllRead(r: Reader, stream: seq<byte>, trace: seq<Event>, pos: nat)
    requires Tracks(r, stream, trace, pos)
    ensures pos == |stream| && r.callback ==> trace == Run(START, stream).events
    ensures pos == |stream| && !r.callback ==> trace == Records(Run(START, stream).events)
  {
    if pos == |stream| {
      assert stream[pos..] == [];
      assert r.Outcome([]).events == r.log + [] == r.log;
    }
  }
}
