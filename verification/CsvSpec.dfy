/**
  What the CSV reader computes, one byte at a time and without any buffer:
  fields are accumulated already un-escaped, and every byte moves one small
  automaton.  `Run` folds the automaton over a byte string.
 */
module CsvSpec {
  import opened Bytes

  datatype Phase = Initial | FoundCr | Simple | Quoted | QuoteSeen

  /** `value` is the un-escaped text of the open field; `pos` counts consumed bytes. */
  datatype State = State(phase: Phase, value: seq<byte>, fieldParsed: bool, fieldCount: nat, pos: nat)

  /** A delivered field, or the end of a record of `fields` fields at stream position `end`. */
  datatype Event = Field(value: seq<byte>) | Record(fields: nat, end: nat)

  datatype Out = Out(state: State, events: seq<Event>)

  const START := State(Initial, [], false, 0, 0)

  predicate IsDelimiter(c: byte) {
    c == COMMA || c == LF || c == CR
  }

  predicate MidField(p: Phase) {
    p.Simple? || p.Quoted? || p.QuoteSeen?
  }

  predicate WellFormed(s: State) {
    MidField(s.phase) || s.value == []
  }

  function Then(a: Out, b: Out): Out {
    Out(b.state, a.events + b.events)
  }

  /** End of record: a record that ends right after a separator has a last empty field. */
  function CloseRecord(s: State): Out {
    var t := State(Initial, [], false, 0, s.pos);
    if s.fieldParsed then Out(t, [Record(s.fieldCount, s.pos)])
    else Out(t, [Field([]), Record(s.fieldCount + 1, s.pos)])
  }

  function CloseField(s: State): Out {
    Out(State(Initial, [], true, s.fieldCount + 1, s.pos), [Field(s.value)])
  }

  /** Consumes `c` outside any field. */
  function Between(s: State, c: byte): Out
    requires s.phase.Initial?
  {
    var t := s.(pos := s.pos + 1);
    if c == CR then Out(t.(phase := FoundCr), [])
    else if c == LF then CloseRecord(t)
    else if c == COMMA then
      if s.fieldParsed then Out(t.(fieldParsed := false), [])
      else Out(t.(fieldCount := s.fieldCount + 1), [Field([])])
    else if c == QUOTE then Out(t.(phase := Quoted, value := []), [])
    else Out(t.(phase := Simple, value := [c]), [])
  }

  /** Bytes that stay in the open field. */
  predicate Stays(s: State, c: byte) {
    || (s.phase.Simple? && !IsDelimiter(c))
    || s.phase.Quoted?
    || (s.phase.QuoteSeen? && c == QUOTE)
  }

  function Keep(s: State, c: byte): State
    requires Stays(s, c)
  {
    var t := s.(pos := s.pos + 1);
    if s.phase.Quoted? && c == QUOTE then t.(phase := QuoteSeen)
    else if s.phase.QuoteSeen? then t.(phase := Quoted, value := s.value + [QUOTE])
    else t.(value := s.value + [c])
  }

  function Step(s: State, c: byte): Out {
    match s.phase
    case Initial => Between(s, c)
    case FoundCr =>
      if c == LF then CloseRecord(s.(pos := s.pos + 1))
      else Then(CloseRecord(s), Between(CloseRecord(s).state, c))
    case _ =>
      if Stays(s, c) then Out(Keep(s, c), [])
      else Then(CloseField(s), Between(CloseField(s).state, c))
  }

  function Run(s: State, input: seq<byte>): Out
    decreases |input|
  {
    if input == [] then Out(s, [])
    else Then(Step(s, input[0]), Run(Step(s, input[0]).state, input[1..]))
  }

  /** The values delivered by a run, in order. */
  function FieldValues(events: seq<Event>): seq<seq<byte>> {
    if events == [] then []
    else (if events[0].Field? then [events[0].value] else []) + FieldValues(events[1..])
  }

  lemma {:induction false} FieldValuesAppend(a: seq<Event>, b: seq<Event>)
    ensures FieldValues(a + b) == FieldValues(a) + FieldValues(b)
  {
    if a == [] {
      assert a + b == b;
    } else {
      assert (a + b)[1..] == a[1..] + b;
      FieldValuesAppend(a[1..], b);
    }
  }

  lemma ThenAssoc(a: Out, b: Out, c: Out)
    ensures Then(Then(a, b), c) == Then(a, Then(b, c))
  {
  }

  /** A field ends before the byte that ends it is consumed. */
  lemma RunCloseField(s: State, input: seq<byte>)
    requires MidField(s.phase) && input != [] && !Stays(s, input[0])
    ensures Run(s, input) == Then(CloseField(s), Run(CloseField(s).state, input))
  {
    var r := CloseField(s);
    ThenAssoc(r, Between(r.state, input[0]), Run(Step(s, input[0]).state, input[1..]));
  }

  lemma RunBetween(s: State, input: seq<byte>)
    requires s.phase.Initial? && input != []
    ensures Run(s, input) == Then(Between(s, input[0]), Run(Between(s, input[0]).state, input[1..]))
  {
  }

  predicate EndsRecord(s: State, c: byte) {
    (s.phase.Initial? && c == LF) || s.phase.FoundCr?
  }

  /** The state a record end closes: a lone CR ends the record without consuming the byte after it. */
  function AtRecordEnd(s: State, c: byte): State {
    if c == LF then s.(pos := s.pos + 1) else s
  }

  lemma RunCloseRecord(s: State, input: seq<byte>)
    requires input != [] && EndsRecord(s, input[0])
    ensures var r := CloseRecord(AtRecordEnd(s, input[0]));
            Run(s, input) == Then(r, Run(r.state, if input[0] == LF then input[1..] else input))
  {
    var r := CloseRecord(AtRecordEnd(s, input[0]));
    if input[0] != LF {
      ThenAssoc(r, Between(r.state, input[0]), Run(Step(s, input[0]).state, input[1..]));
    }
  }

  lemma EventValues(s: State, c: byte)
    ensures FieldValues([]) == []
    ensures FieldValues(CloseField(s).events) == [s.value]
    ensures FieldValues(CloseRecord(s).events) == if s.fieldParsed then [] else [[]]
    ensures s.phase.Initial? && c == COMMA ==>
              FieldValues(Between(s, c).events) == if s.fieldParsed then [] else [[]]
  {
    assert FieldValues([Field(s.value)]) == [s.value] + FieldValues([]);
    assert FieldValues([Field([])]) == [[]] + FieldValues([]);
    assert forall n: nat :: [Record(n, s.pos)][1..] == [];
    assert forall n: nat :: [Field([]), Record(n, s.pos)][1..] == [Record(n, s.pos)];
  }

  /** Cutting the input does not matter to the automaton. */
  lemma {:induction false} RunAppend(s: State, a: seq<byte>, b: seq<byte>)
    decreases |a|
    ensures Run(s, a + b) == Then(Run(s, a), Run(Run(s, a).state, b))
  {
    hide Step;
    if a == [] {
      assert a + b == b;
    } else {
      assert (a + b)[1..] == a[1..] + b;
      RunAppend(Step(s, a[0]).state, a[1..], b);
    }
  }

  /** Doubles every double quote, as RFC 4180 section 2 asks inside a quoted field. */
  function Escape(v: seq<byte>): seq<byte> {
    if v == [] then []
    else (if v[0] == QUOTE then [QUOTE, QUOTE] else [v[0]]) + Escape(v[1..])
  }

  lemma {:induction false} EscapeAppend(a: seq<byte>, b: seq<byte>)
    ensures Escape(a + b) == Escape(a) + Escape(b)
  {
    if a == [] {
      assert a + b == b;
    } else {
      assert (a + b)[1..] == a[1..] + b;
      EscapeAppend(a[1..], b);
    }
  }

  lemma EscapeSnoc(v: seq<byte>, c: byte)
    ensures Escape(v + [c]) == Escape(v) + (if c == QUOTE then [QUOTE, QUOTE] else [c])
  {
    EscapeAppend(v, [c]);
    assert Escape([c]) == (if c == QUOTE then [QUOTE, QUOTE] else [c]) + Escape([]);
  }

  lemma {:induction false} EscapePlain(v: seq<byte>)
    requires QUOTE !in v
    ensures Escape(v) == v
  {
    if v != [] {
      EscapePlain(v[1..]);
    }
  }
}
