/** The resumable CSV reader of flb_csv.c. */
module CsvReader {
  import opened Bytes
  import opened CsvSpec

  datatype Result = Success | InvalidState | Eof

  /** The raw bytes of an open field, from its first byte on. */
  function Pending(p: Phase, v: seq<byte>): seq<byte> {
    match p
    case Simple => v
    case Quoted => [QUOTE] + Escape(v)
    case QuoteSeen => [QUOTE] + Escape(v) + [QUOTE]
    case _ => []
  }

  lemma PendingSnoc(s: State, c: byte)
    requires Stays(s, c)
    ensures Pending(Keep(s, c).phase, Keep(s, c).value) == Pending(s.phase, s.value) + [c]
  {
    EscapeSnoc(s.value, c);
  }

  lemma RunKeep(s: State, buf: seq<byte>, at: nat)
    requires at < |buf| && Stays(s, buf[at])
    ensures Run(s, buf[at..]) == Run(Keep(s, buf[at]), buf[at + 1..])
  {
    assert buf[at..][1..] == buf[at + 1..];
    assert Run(s, buf[at..]).events == [] + Run(Keep(s, buf[at]), buf[at + 1..]).events;
  }

  lemma RunOpen(s: State, data: seq<byte>)
    requires s.phase.Initial? && data != [] && !IsDelimiter(data[0]) && s.value == []
    ensures data[0] == QUOTE ==> Run(s, data) == Run(Step(s, QUOTE).state, data[1..])
    ensures data[0] != QUOTE ==> Run(s, data) == Run(s.(phase := Simple), data)
  {
    var t := if data[0] == QUOTE then s else s.(phase := Simple);
    assert Step(s, data[0]) == Step(t, data[0]);
    assert Run(s, data).events == [] + Run(Step(s, data[0]).state, data[1..]).events;
  }

  /** A finished field: what the callback is handed before un-escaping. */
  lemma FieldSlice(buf: seq<byte>, offset: nat, p: Phase, v: seq<byte>)
    requires offset <= |buf| && buf[..offset] == Pending(p, v)
    requires p.Simple? || p.QuoteSeen?
    ensures p.Simple? ==> buf[0..offset] == v
    ensures p.QuoteSeen? ==> offset >= 2 && buf[1..offset - 1] == Escape(v)
    ensures p.QuoteSeen? && QUOTE !in v ==> Escape(v) == v
  {
    assert buf[0..offset] == buf[..offset];
    if p.QuoteSeen? {
      assert buf[1..offset - 1] == buf[..offset][1..offset - 1];
      if QUOTE !in v {
        EscapePlain(v);
      }
    }
  }

  /** `b` extends `a` by delivered fields alone. */
  ghost predicate OnlyFields(a: seq<Event>, b: seq<Event>) {
    && |a| <= |b| && a == b[..|a|]
    && forall i :: |a| <= i < |b| ==> b[i].Field?
  }

  lemma OnlyFieldsTwice(a: seq<Event>, b: seq<Event>, c: seq<Event>)
    requires OnlyFields(a, b) && OnlyFields(b, c)
    ensures OnlyFields(a, c)
  {
    assert forall i :: 0 <= i < |b| ==> c[i] == b[i];
  }

  lemma OnlyFieldsSelf(a: seq<Event>)
    ensures OnlyFields(a, a)
  {
  }

  /** A record end adds at most a field, and the record. */
  lemma ClosesRecord(log: seq<Event>, s: State)
    ensures var r := CloseRecord(s); var all := log + r.events;
            && |all| > 0 && all[|all| - 1] == r.events[|r.events| - 1]
            && OnlyFields(log, all[..|all| - 1])
  {
    var r := CloseRecord(s);
    var all := log + r.events;
    assert all[..|all| - 1] == log + r.events[..|r.events| - 1];
  }

  class Reader {
    const callback: bool
    var buffered: seq<byte>
    var escapeBuffer: seq<byte>
    var offset: nat
    var start: nat
    var length: int
    var fieldCount: nat
    var state: Phase
    var fieldParsed: bool
    var hasDquote: bool
    /** The arguments of every call of the field callback so far. */
    var delivered: seq<seq<byte>>
    /** The automaton state this reader stands for, and the events so far. */
    ghost var spec: State
    ghost var log: seq<Event>

    /** Everything the automaton will have said once `data` is read from here. */
    ghost function Outcome(data: seq<byte>): Out
      reads this
    {
      Then(Out(spec, log), Run(spec, data))
    }

    ghost predicate Agrees()
      reads this
    {
      && spec.phase == state
      && spec.fieldParsed == fieldParsed
      && spec.fieldCount == fieldCount
      && WellFormed(spec)
    }

    /** What a scan of `buf` relies on: in callback mode the scanned bytes are the open field. */
    ghost predicate Scanning(buf: seq<byte>)
      reads this
    {
      && offset <= |buf|
      && (callback ==>
            && buf[..offset] == Pending(spec.phase, spec.value)
            && start == (if spec.phase.Simple? then 0 else 1)
            && hasDquote == (QUOTE in spec.value && !spec.phase.Simple?))
    }

    ghost predicate Delivered()
      reads this
    {
      delivered == if callback then FieldValues(log) else []
    }

    ghost predicate Valid()
      reads this
    {
      && Agrees()
      && Delivered()
      && (!MidField(state) ==> offset == 0 && buffered == [] && !hasDquote)
      && (MidField(state) && callback ==> Scanning(buffered) && offset == |buffered|)
      && (MidField(state) && !callback ==> offset == 0)
    }

    constructor (callback: bool)
      ensures Valid() && spec == START && log == [] && this.callback == callback
    {
      this.callback := callback;
      buffered, escapeBuffer, delivered := [], [], [];
      offset, start, length, fieldCount := 0, 0, 0, 0;
      state, fieldParsed, hasDquote := Initial, false, false;
      spec, log := START, [];
    }

    method ResetState()
      modifies this
      ensures start == 0 && length == 0 && !hasDquote && !fieldParsed && state == Initial
      ensures escapeBuffer == [] && buffered == [] && offset == 0
      ensures fieldCount == old(fieldCount) && delivered == old(delivered)
      ensures spec == old(spec) && log == old(log)
    {
      start := 0;
      length := 0;
      hasDquote := false;
      fieldParsed := false;
      state := Initial;
      escapeBuffer := [];
      buffered := [];
      offset := 0;
    }

    /** Delivers the field that `buf[start..start + length]` spells. */
    method InvokeFieldCallback(buf: seq<byte>, ghost v: seq<byte>)
      requires callback
      requires 0 <= start <= start + length <= |buf|
      requires buf[start..start + length] == if hasDquote then Escape(v) else v
      modifies this`escapeBuffer, this`delivered
      ensures delivered == old(delivered) + [v]
    {
      if !hasDquote {
        delivered := delivered + [buf[start..start + length]];
        return;
      }
      escapeBuffer := [];
      var bufpos := start;
      var bufend := bufpos + length;
      ghost var k := 0;
      while bufpos < bufend
        invariant k <= |v| && start <= bufpos <= bufend
        invariant escapeBuffer == v[..k]
        invariant buf[bufpos..bufend] == Escape(v[k..])
        invariant delivered == old(delivered)
      {
        assert v[k..] != [];
        ghost var tail := Escape(v[k..][1..]);
        assert v[k..][1..] == v[k + 1..];
        if buf[bufpos] == QUOTE {
          assert buf[bufpos] == buf[bufpos..bufend][0];
          assert buf[bufpos..bufend] == [QUOTE, QUOTE] + tail;
          assert buf[bufpos + 1] == buf[bufpos..bufend][1];
          assert buf[bufpos + 2..bufend] == buf[bufpos..bufend][2..] == tail;
          bufpos := bufpos + 1;
        } else {
          assert buf[bufpos] == buf[bufpos..bufend][0];
          assert buf[bufpos + 1..bufend] == buf[bufpos..bufend][1..] == tail;
        }
        escapeBuffer := escapeBuffer + [buf[bufpos]];
        bufpos := bufpos + 1;
        k := k + 1;
      }
      assert v[k..] == [] && v[..k] == v;
      delivered := delivered + [escapeBuffer];
    }

    /** One scanned byte that stays in the open field. */
    ghost method Absorb(buf: seq<byte>, at: nat)
      requires at < |buf| && Stays(spec, buf[at])
      modifies this`spec
      ensures spec == Keep(old(spec), buf[at])
      ensures Run(old(spec), buf[at..]) == Run(spec, buf[at + 1..])
      ensures buf[..at] == Pending(old(spec.phase), old(spec.value)) ==>
                buf[..at + 1] == Pending(spec.phase, spec.value)
    {
      PendingSnoc(spec, buf[at]);
      RunKeep(spec, buf, at);
      assert buf[..at + 1] == buf[..at] + [buf[at]];
      spec := Keep(spec, buf[at]);
    }

    method ParseSimple(buf: seq<byte>) returns (ret: Result)
      requires state.Simple? && Agrees() && Scanning(buf)
      modifies this`offset, this`length, this`spec
      ensures Agrees() && Scanning(buf) && old(offset) <= offset
      ensures Run(old(spec), buf[old(offset)..]) == Run(spec, buf[offset..])
      ensures spec.pos == old(spec.pos) + offset - old(offset)
      ensures ret == Eof || ret == Success
      ensures ret == Eof ==> offset == |buf|
      ensures ret == Success ==> offset < |buf| && IsDelimiter(buf[offset]) && length == offset - start
    {
      hide Run, Pending;
      while true
        invariant Agrees() && Scanning(buf) && old(offset) <= offset
        invariant Run(old(spec), buf[old(offset)..]) == Run(spec, buf[offset..])
        invariant spec.pos == old(spec.pos) + offset - old(offset)
        decreases |buf| - offset
      {
        if offset >= |buf| {
          return Eof;
        }
        var c := buf[offset];
        if IsDelimiter(c) {
          break;
        }
        Absorb(buf, offset);
        offset := offset + 1;
      }
      length := offset - start;
      ret := Success;
    }

    method ParseQuoted(buf: seq<byte>) returns (ret: Result)
      requires (state.Quoted? || state.QuoteSeen?) && Agrees() && Scanning(buf)
      modifies this`offset, this`length, this`spec, this`state, this`hasDquote
      ensures Scanning(buf) && old(offset) <= offset && WellFormed(spec)
      ensures spec.fieldParsed == fieldParsed && spec.fieldCount == fieldCount
      ensures Run(old(spec), buf[old(offset)..]) == Run(spec, buf[offset..])
      ensures spec.pos == old(spec.pos) + offset - old(offset)
      ensures ret == Eof || ret == Success
      ensures ret == Eof ==> offset == |buf| && spec.phase == state && (state.Quoted? || state.QuoteSeen?)
      ensures ret == Success ==>
                && offset < |buf| && spec.phase.QuoteSeen? && buf[offset] != QUOTE
                && length == offset - start - 1
    {
      hide Run, Pending;
      while true
        invariant (state.Quoted? || state.QuoteSeen?) && Agrees() && Scanning(buf) && old(offset) <= offset
        invariant Run(old(spec), buf[old(offset)..]) == Run(spec, buf[offset..])
        invariant spec.pos == old(spec.pos) + offset - old(offset)
        decreases |buf| - offset
      {
        if offset >= |buf| {
          return Eof;
        }
        var c := buf[offset];
        if state.QuoteSeen? {
          state := Quoted;
          if c == QUOTE {
            hasDquote := true;
          } else {
            break;
          }
        } else if c == QUOTE {
          state := QuoteSeen;
        }
        Absorb(buf, offset);
        offset := offset + 1;
      }
      length := offset - start - 1;
      ret := Success;
    }

    /** Opens the field that starts at `data[0]`, or takes up the open one where it was left. */
    method OpenOrResume(data: seq<byte>) returns (buf: seq<byte>, isBuffered: bool)
      requires Valid() && data != [] && !state.FoundCr?
      requires state.Initial? ==> !IsDelimiter(data[0])
      modifies this`offset, this`start, this`state, this`buffered, this`spec
      ensures Agrees() && MidField(state) && Scanning(buf)
      ensures isBuffered == (callback && MidField(old(state)))
      ensures isBuffered ==> buf == buffered
      ensures !isBuffered ==> buf == data && (callback ==> buffered == [])
      ensures old(offset) <= offset && |buf| == old(offset) + |data| && buf[old(offset)..] == data
      ensures Run(old(spec), data) == Run(spec, buf[offset..])
      ensures spec.pos == old(spec.pos) + offset - old(offset)
      ensures old(state.Initial?) && offset == 0 ==> state.Simple? && !IsDelimiter(data[0])
    {
      hide Run;
      buf := data;
      isBuffered := false;
      if state.Initial? {
        RunOpen(spec, data);
        spec := if data[0] == QUOTE then Step(spec, QUOTE).state else spec.(phase := Simple);
        if data[offset] == QUOTE {
          offset := offset + 1;
          state := Quoted;
        } else {
          state := Simple;
        }
        start := offset;
        assert buf[0..] == data;
        assert Escape([]) == [];
      } else if callback {
        buffered := buffered + data;
        buf := buffered;
        isBuffered := true;
      }
    }

    /** Scans `buf` for the end of the open field. */
    method ScanField(buf: seq<byte>) returns (ret: Result)
      requires Agrees() && MidField(state) && Scanning(buf)
      modifies this`offset, this`length, this`spec, this`state, this`hasDquote
      ensures ret == Eof || ret == Success
      ensures Scanning(buf) && old(offset) <= offset && WellFormed(spec)
      ensures spec.fieldParsed == fieldParsed && spec.fieldCount == fieldCount
      ensures Run(old(spec), buf[old(offset)..]) == Run(spec, buf[offset..])
      ensures spec.pos == old(spec.pos) + offset - old(offset)
      ensures old(state.Simple?) && old(offset) < |buf| && !IsDelimiter(buf[old(offset)]) ==> old(offset) < offset
      ensures ret == Eof ==> offset == |buf| && MidField(state) && spec.phase == state
      ensures ret == Success ==>
                && offset < |buf| && (spec.phase.Simple? || spec.phase.QuoteSeen?) && !Stays(spec, buf[offset])
                && length == offset - start - (if spec.phase.Simple? then 0 else 1)
    {
      hide Run, Pending;
      match state {
        case Simple =>
          ret := ParseSimple(buf);
        case Quoted | QuoteSeen =>
          ret := ParseQuoted(buf);
        case _ =>
          ret := InvalidState;
      }
    }

    /** Scans the open field, or the one that starts at `data[0]`; saves it if it does not end in `data`. */
    method ParseCsvField(data: seq<byte>) returns (ret: Result, buf: seq<byte>)
      requires Valid() && data != [] && !state.FoundCr?
      requires state.Initial? ==> !IsDelimiter(data[0])
      modifies this`offset, this`start, this`state, this`buffered, this`spec, this`length, this`hasDquote
      ensures ret == Eof || ret == Success
      ensures spec.fieldParsed == fieldParsed && spec.fieldCount == fieldCount
      ensures Scanning(buf) && |buf| == old(offset) + |data|
      ensures old(offset) <= offset && buf[offset..] == data[offset - old(offset)..]
      ensures Run(old(spec), data) == Run(spec, buf[offset..])
      ensures spec.pos == old(spec.pos) + offset - old(offset)
      ensures ret == Eof ==>
                && offset == |buf| && MidField(state) && spec.phase == state && WellFormed(spec)
                && (callback ==> buf == buffered)
      ensures ret == Success ==>
                && (old(state.Initial?) ==> offset > old(offset))
                && offset < |buf| && (spec.phase.Simple? || spec.phase.QuoteSeen?) && !Stays(spec, buf[offset])
                && length == offset - start - (if spec.phase.Simple? then 0 else 1)
    {
      hide Run, Pending, FieldValues;
      var isBuffered;
      buf, isBuffered := OpenOrResume(data);
      ret := ScanField(buf);
      if ret == Eof && !isBuffered {
        buffered := buffered + data;
      }
    }

    /** The automaton moves: `o` is said between `data` and `rest`. */
    ghost method Move(o: Out, data: seq<byte>, rest: seq<byte>)
      requires Run(spec, data) == Then(o, Run(o.state, rest))
      modifies this`spec, this`log
      ensures spec == o.state && log == old(log) + o.events
      ensures FieldValues(log) == FieldValues(old(log)) + FieldValues(o.events)
      ensures Outcome(rest) == old(Outcome(data))
    {
      ThenAssoc(Out(spec, log), o, Run(o.state, rest));
      FieldValuesAppend(log, o.events);
      spec, log := o.state, log + o.events;
    }

    /** One turn of the record loop inside a field. */
    method ReadField(data: seq<byte>) returns (ret: Result, rest: seq<byte>)
      requires Valid() && data != [] && !state.FoundCr?
      requires state.Initial? ==> !IsDelimiter(data[0])
      modifies this
      ensures Valid() && (ret == Eof || ret == Success)
      ensures Suffix(data, rest)
      ensures spec.pos == old(spec.pos) + |data| - |rest|
      ensures Outcome(rest) == old(Outcome(data))
      ensures OnlyFields(old(log), log)
      ensures ret == Eof ==> rest == []
      ensures ret == Success ==> state.Initial? && (old(state.Initial?) ==> |rest| < |data|)
    {
      hide Run, Pending, FieldValues, Step, Between, CloseRecord;
      var initialOffset := offset;
      var buf;
      ret, buf := ParseCsvField(data);
      var advanced := offset - initialOffset;
      rest := data[advanced..];
      if ret != Success {
        if !callback {
          offset := 0;
        }
        return;
      }
      EndField(buf, rest);
    }

    /** Delivers a field that ends before `rest[0]` and makes ready for the next one. */
    method EndField(buf: seq<byte>, ghost rest: seq<byte>)
      requires spec.fieldParsed == fieldParsed && spec.fieldCount == fieldCount && Delivered() && Scanning(buf)
      requires (spec.phase.Simple? || spec.phase.QuoteSeen?) && rest != [] && !Stays(spec, rest[0])
      requires length == offset - start - (if spec.phase.Simple? then 0 else 1)
      modifies this
      ensures Valid() && state.Initial? && spec.pos == old(spec.pos)
      ensures Outcome(rest) == old(Outcome(rest))
      ensures OnlyFields(old(log), log)
    {
      hide Run, FieldValues, Step, Between, CloseRecord, Stays, Escape;
      if callback {
        FieldSlice(buf, offset, spec.phase, spec.value);
        InvokeFieldCallback(buf, spec.value);
      }
      RunCloseField(spec, rest);
      EventValues(spec, rest[0]);
      Move(CloseField(spec), rest, rest);
      ResetState();
      fieldParsed := true;
      fieldCount := fieldCount + 1;
    }

    /** The first CR after a record: what it ends is decided by the next byte. */
    method SkipCr(data: seq<byte>) returns (rest: seq<byte>)
      requires Valid() && state.Initial? && data != [] && data[0] == CR
      modifies this`spec, this`log, this`state
      ensures Valid() && state.FoundCr?
      ensures rest == data[1..] && spec.pos == old(spec.pos) + 1
      ensures Outcome(rest) == old(Outcome(data)) && log == old(log)
    {
      hide Run, FieldValues;
      RunBetween(spec, data);
      EventValues(spec, CR);
      Move(Between(spec, CR), data, data[1..]);
      state := FoundCr;
      rest := data[1..];
    }

    /** A separator, which closes an empty field unless it follows a parsed one. */
    method SkipComma(data: seq<byte>) returns (rest: seq<byte>)
      requires Valid() && state.Initial? && data != [] && data[0] == COMMA
      modifies this`spec, this`log, this`fieldCount, this`delivered, this`fieldParsed
      ensures Valid()
      ensures rest == data[1..] && spec.pos == old(spec.pos) + 1
      ensures Outcome(rest) == old(Outcome(data))
      ensures OnlyFields(old(log), log)
    {
      hide Run, FieldValues;
      RunBetween(spec, data);
      EventValues(spec, COMMA);
      Move(Between(spec, COMMA), data, data[1..]);
      rest := data[1..];
      if !fieldParsed {
        DeliverEmpty();
      }
      fieldParsed := false;
    }

    /** Delivers an empty field. */
    method DeliverEmpty()
      modifies this`fieldCount, this`delivered
      ensures fieldCount == old(fieldCount) + 1
      ensures delivered == if callback then old(delivered) + [[]] else old(delivered)
    {
      fieldCount := fieldCount + 1;
      if callback {
        delivered := delivered + [[]];
      }
    }

    /** The end of a record, seen at `data[0]`. */
    method FinishRecord(data: seq<byte>) returns (rest: seq<byte>, count: nat)
      requires Valid() && data != []
      requires EndsRecord(spec, data[0])
      modifies this`spec, this`log, this`state, this`fieldCount, this`delivered, this`fieldParsed
      ensures Valid() && state.Initial?
      ensures rest == if data[0] == LF then data[1..] else data
      ensures spec.pos == old(spec.pos) + |data| - |rest|
      ensures Outcome(rest) == old(Outcome(data))
      ensures |log| > 0 && log[|log| - 1] == Record(count, spec.pos)
      ensures OnlyFields(old(log), log[..|log| - 1])
    {
      hide Run, FieldValues, OnlyFields;
      RunCloseRecord(spec, data);
      ClosesRecord(log, AtRecordEnd(spec, data[0]));
      EventValues(AtRecordEnd(spec, data[0]), data[0]);
      Move(CloseRecord(AtRecordEnd(spec, data[0])), data, if data[0] == LF then data[1..] else data);
      state := Initial;
      rest := if data[0] == LF then data[1..] else data;
      if !fieldParsed {
        DeliverEmpty();
      }
      fieldParsed := false;
      count := fieldCount;
      fieldCount := 0;
    }

    /**
      Reads up to the end of the current record or of `buf`.  Either way the events so far, together
      with those of the automaton over what is left, are what they would have been; a successful call
      stops at the first record end.
     */
    method ParseRecord(buf: seq<byte>) returns (ret: Result, rest: seq<byte>, count: nat)
      requires Valid()
      modifies this
      ensures Valid()
      ensures ret == Eof || ret == Success
      ensures Suffix(buf, rest)
      ensures spec.pos == old(spec.pos) + |buf| - |rest|
      ensures Outcome(rest) == old(Outcome(buf))
      ensures ret == Eof ==> rest == [] && OnlyFields(old(log), log)
      ensures ret == Success ==>
                && state.Initial? && (rest == buf ==> old(state.FoundCr?) && buf != [])
                && |log| > 0 && log[|log| - 1] == Record(count, spec.pos) && OnlyFields(old(log), log[..|log| - 1])
    {
      hide Run, Pending, FieldValues, Then, Step, Between, CloseRecord, CloseField, WellFormed, Reader.Scanning, Reader.Delivered,
           Reader.Outcome, Suffix, Front, OnlyFields;
      rest, count := buf, 0;
      SuffixSelf(buf);
      OnlyFieldsSelf(log);
      while true
        invariant Valid()
        invariant Suffix(buf, rest)
        invariant spec.pos == old(spec.pos) + |buf| - |rest|
        invariant Outcome(rest) == old(Outcome(buf))
        invariant OnlyFields(old(log), log)
        invariant rest == buf ==> state.FoundCr? ==> old(state.FoundCr?)
        decreases |rest|, MidField(state)
      {
        if |rest| == 0 {
          return Eof, rest, count;
        }
        ghost var before, events := rest, log;
        SuffixTail(buf, rest);
        var c := rest[0];
        if state.Initial? && c == CR {
          rest := SkipCr(rest);
          continue;
        } else if state.Initial? && c == COMMA {
          rest := SkipComma(rest);
          OnlyFieldsTwice(old(log), events, log);
          continue;
        } else if (state.Initial? && c == LF) || state.FoundCr? {
          break;
        }
        ret, rest := ReadField(rest);
        FrontTwice([], buf, before, rest);
        OnlyFieldsTwice(old(log), events, log);
        if ret != Success {
          return;
        }
      }
      ghost var events := log;
      SuffixTail(buf, rest);
      rest, count := FinishRecord(rest);
      OnlyFieldsTwice(old(log), events, log[..|log| - 1]);
      ret := Success;
    }
  }
}
