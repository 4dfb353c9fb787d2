/** A CSV printer after RFC 4180 section 2, and the proof that the reader undoes it. */
module CsvRoundTrip {
  import opened Bytes
  import opened CsvSpec
  import CsvStream

  datatype Eol = CrLf | Lf | Cr

  /** A field and whether the printer quotes it. Text may trail a closing quote, which RFC 4180 has no place for: the reader
      makes it a field of its own. */
  datatype Cell = Cell(value: seq<byte>, quoted: bool, trail: seq<byte>)

  datatype Row = Row(cells: seq<Cell>, eol: Eol)

  /** Text without quotes around it: no separator or line break in it and no quote in front. */
  predicate IsPlain(text: seq<byte>) {
    (forall b :: b in text ==> !IsDelimiter(b)) && (text == [] || text[0] != QUOTE)
  }

  predicate PrintableCell(c: Cell) {
    if c.quoted then IsPlain(c.trail) else IsPlain(c.value) && c.trail == []
  }

  predicate PrintableRow(r: Row) {
    r.cells != [] && forall c :: c in r.cells ==> PrintableCell(c)
  }

  /** A CR alone ends a row only when something else than an LF follows. */
  predicate Printable(rows: seq<Row>) {
    && (forall i :: 0 <= i < |rows| ==> PrintableRow(rows[i]))
    && (forall i :: 0 <= i < |rows| && rows[i].eol.Cr? ==> i + 1 < |rows| && PrintRow(rows[i + 1])[0] != LF)
  }

  function PrintCell(c: Cell): seq<byte> {
    if c.quoted then [QUOTE] + Escape(c.value) + [QUOTE] + c.trail else c.value
  }

  function PrintEol(e: Eol): seq<byte> {
    match e
    case CrLf => [CR, LF]
    case Lf => [LF]
    case Cr => [CR]
  }

  function PrintCells(cells: seq<Cell>): seq<byte>
    requires cells != []
  {
    if |cells| == 1 then PrintCell(cells[0])
    else PrintCell(cells[0]) + [COMMA] + PrintCells(cells[1..])
  }

  function PrintRow(r: Row): (text: seq<byte>)
    requires r.cells != []
    ensures text != []
  {
    PrintCells(r.cells) + PrintEol(r.eol)
  }

  function Print(rows: seq<Row>): seq<byte>
    requires Printable(rows)
  {
    if rows == [] then [] else PrintRow(rows[0]) + Print(rows[1..])
  }

  /** The fields of a cell. */
  function FieldsOf(c: Cell): seq<Event> {
    [Field(c.value)] + if c.trail == [] then [] else [Field(c.trail)]
  }

  function CellFields(cells: seq<Cell>): seq<Event> {
    if cells == [] then [] else FieldsOf(cells[0]) + CellFields(cells[1..])
  }

  /** The events that hand back the printed rows, the first of which starts at `pos`. */
  function Readback(rows: seq<Row>, pos: nat): seq<Event>
    requires Printable(rows)
  {
    if rows == [] then []
    else
      var end := pos + |PrintRow(rows[0])|;
      CellFields(rows[0].cells) + [Record(|CellFields(rows[0].cells)|, end)] + Readback(rows[1..], end)
  }

  lemma RunNothing(s: State)
    ensures Run(s, []) == Out(s, [])
  {
  }

  lemma {:induction false} RunPlain(s: State, text: seq<byte>)
    requires s.phase.Simple? && forall b :: b in text ==> !IsDelimiter(b)
    decreases |text|
    ensures Run(s, text) == Out(s.(value := s.value + text, pos := s.pos + |text|), [])
  {
    hide Run, Step;
    RunNothing(s);
    if text == [] {
      assert s.value + text == s.value;
    } else {
      var t := s.(value := s.value + [text[0]], pos := s.pos + 1);
      RunPlainByte(s, text[0]);
      assert text == [text[0]] + text[1..];
      RunAppend(s, [text[0]], text[1..]);
      RunPlain(t, text[1..]);
      assert s.value + [text[0]] + text[1..] == s.value + text;
    }
  }

  lemma RunPlainByte(s: State, b: byte)
    requires s.phase.Simple? && !IsDelimiter(b)
    ensures Run(s, [b]) == Out(s.(value := s.value + [b], pos := s.pos + 1), [])
  {
    assert [b][1..] == [];
  }

  lemma {:induction false} RunEscaped(s: State, text: seq<byte>)
    requires s.phase.Quoted?
    decreases |text|
    ensures Run(s, Escape(text)) == Out(s.(value := s.value + text, pos := s.pos + |Escape(text)|), [])
  {
    hide Run, Step;
    RunNothing(s);
    if text == [] {
      assert s.value + text == s.value;
    } else {
      var head := if text[0] == QUOTE then [QUOTE, QUOTE] else [text[0]];
      var t := s.(value := s.value + [text[0]], pos := s.pos + |head|);
      assert Run(s, head) == Out(t, []) by { RunHead(s, text[0]); }
      RunAppend(s, head, Escape(text[1..]));
      RunEscaped(t, text[1..]);
      assert s.value + [text[0]] + text[1..] == s.value + text;
    }
  }

  lemma RunHead(s: State, b: byte)
    requires s.phase.Quoted?
    ensures var head := if b == QUOTE then [QUOTE, QUOTE] else [b];
            Run(s, head) == Out(s.(value := s.value + [b], pos := s.pos + |head|), [])
  {
    if b == QUOTE {
      var t := Keep(s, QUOTE);
      assert [QUOTE, QUOTE][1..] == [QUOTE] && [QUOTE][1..] == [];
      assert Run(t, [QUOTE]) == Then(Step(t, QUOTE), Run(Keep(t, QUOTE), []));
    } else {
      assert [b][1..] == [];
    }
  }

  /** Between two fields, with `n` fields of the record read. */
  function Ready(n: nat, pos: nat): State {
    State(Initial, [], false, n, pos)
  }

  /** A printed cell leaves its last field pending: a plain empty cell has not even been opened. */
  function AfterCell(c: Cell, n: nat, pos: nat): State {
    var end := pos + |PrintCell(c)|;
    if c.quoted && c.trail == [] then State(QuoteSeen, c.value, false, n, end)
    else if c.quoted then State(Simple, c.trail, true, n + 1, end)
    else if c.value == [] then Ready(n, end)
    else State(Simple, c.value, false, n, end)
  }

  /** The fields delivered before the last. */
  function Early(c: Cell): seq<Event> {
    if c.trail == [] then [] else [Field(c.value)]
  }

  lemma RunQuoted(value: seq<byte>, n: nat, pos: nat)
    ensures var text := [QUOTE] + Escape(value) + [QUOTE];
            Run(Ready(n, pos), text) == Out(State(QuoteSeen, value, false, n, pos + |text|), [])
  {
    hide Run, Step, Escape;
    var s, q := Ready(n, pos), State(Quoted, [], false, n, pos + 1);
    RunHeadQuote(s, q);
    RunAppend(s, [QUOTE], Escape(value));
    RunEscaped(q, value);
    assert [] + value == value;
    RunAppend(s, [QUOTE] + Escape(value), [QUOTE]);
    RunTailQuote(State(Quoted, value, false, n, pos + 1 + |Escape(value)|));
  }

  lemma RunTailQuote(q: State)
    requires q.phase.Quoted?
    ensures Run(q, [QUOTE]) == Out(q.(phase := QuoteSeen, pos := q.pos + 1), [])
  {
    assert [QUOTE][1..] == [];
  }

  lemma RunFirst(s: State, text: seq<byte>)
    requires text != []
    ensures Run(s, text) == Then(Step(s, text[0]), Run(Step(s, text[0]).state, text[1..]))
  {
    hide Step;
  }

  lemma RunOne(s: State, c: byte)
    ensures Run(s, [c]) == Step(s, c)
  {
    hide Step;
    assert [c][1..] == [];
    assert Step(s, c).events + [] == Step(s, c).events;
  }

  /** The first byte of plain text opens a field, closing a quoted one before it. */
  lemma StepOpens(s: State, c: byte)
    requires !IsDelimiter(c) && c != QUOTE && (s.phase.Initial? || s.phase.QuoteSeen?)
    ensures s.phase.Initial? ==> Step(s, c) == Out(s.(phase := Simple, value := [c], pos := s.pos + 1), [])
    ensures s.phase.QuoteSeen? ==>
              Step(s, c) == Out(State(Simple, [c], true, s.fieldCount + 1, s.pos + 1), [Field(s.value)])
  {
  }

  lemma RunOpened(s: State, text: seq<byte>)
    requires text != [] && IsPlain(text) && (s.phase.Initial? || s.phase.QuoteSeen?)
    ensures var o := Step(s, text[0]); Run(s, text) == Out(o.state.(value := text, pos := s.pos + |text|), o.events)
  {
    hide Run, Step;
    assert text[0] in text;
    StepOpens(s, text[0]);
    RunFirst(s, text);
    RunPlain(Step(s, text[0]).state, text[1..]);
    assert [text[0]] + text[1..] == text;
  }

  /** Text that trails a closing quote ends the quoted field and opens another. */
  lemma RunTrail(value: seq<byte>, trail: seq<byte>, n: nat, pos: nat)
    requires trail != [] && IsPlain(trail)
    ensures Run(State(QuoteSeen, value, false, n, pos), trail) == Out(State(Simple, trail, true, n + 1, pos + |trail|), [Field(value)])
  {
    var s := State(QuoteSeen, value, false, n, pos);
    hide Run, Step;
    assert trail[0] in trail;
    StepOpens(s, trail[0]);
    RunOpened(s, trail);
  }

  lemma RunBare(value: seq<byte>, n: nat, pos: nat)
    requires value != [] && IsPlain(value)
    ensures Run(Ready(n, pos), value) == Out(State(Simple, value, false, n, pos + |value|), [])
  {
    hide Run, Step;
    assert value[0] in value;
    StepOpens(Ready(n, pos), value[0]);
    RunOpened(Ready(n, pos), value);
  }

  lemma RunCell(c: Cell, n: nat, pos: nat)
    requires PrintableCell(c)
    ensures Run(Ready(n, pos), PrintCell(c)) == Out(AfterCell(c, n, pos), Early(c))
  {
    hide Run, Step, Escape;
    var s := Ready(n, pos);
    RunNothing(s);
    if c.quoted {
      var text := [QUOTE] + Escape(c.value) + [QUOTE];
      RunQuoted(c.value, n, pos);
      if c.trail != [] {
        RunTrail(c.value, c.trail, n, pos + |text|);
        RunAppend(s, text, c.trail);
      } else {
        assert PrintCell(c) == text;
      }
    } else if c.value != [] {
      RunBare(c.value, n, pos);
    }
  }

  lemma RunHeadQuote(s: State, q: State)
    requires s.phase.Initial? && q == s.(phase := Quoted, value := [], pos := s.pos + 1)
    ensures Run(s, [QUOTE]) == Out(q, [])
  {
    assert [QUOTE][1..] == [];
  }

  lemma RunComma(c: Cell, n: nat, pos: nat)
    requires PrintableCell(c)
    ensures Run(Ready(n, pos), PrintCell(c) + [COMMA]) ==
            Out(Ready(n + |FieldsOf(c)|, pos + |PrintCell(c)| + 1), FieldsOf(c))
  {
    RunCell(c, n, pos);
    RunAppend(Ready(n, pos), PrintCell(c), [COMMA]);
    RunSeparator(AfterCell(c, n, pos));
    hide Run, Step, PrintCell;
  }

  /** Something is pending: a field, or an empty one after a separator. */
  predicate Pending(s: State) {
    s.phase.Simple? || s.phase.QuoteSeen? || (s.phase.Initial? && s.value == [] && !s.fieldParsed)
  }

  lemma RunSeparator(s: State)
    requires Pending(s)
    ensures Run(s, [COMMA]) == Out(Ready(s.fieldCount + 1, s.pos + 1), [Field(s.value)])
  {
    RunOne(s, COMMA);
    hide Run;
  }

  /** Where a line end leads from there. */
  lemma StepLineEnd(s: State)
    requires Pending(s)
    ensures Step(s, LF) == Out(Ready(0, s.pos + 1), [Field(s.value), Record(s.fieldCount + 1, s.pos + 1)])
    ensures if s.phase.Initial? then Step(s, CR) == Out(State(FoundCr, [], false, s.fieldCount, s.pos + 1), [])
            else Step(s, CR) == Out(State(FoundCr, [], true, s.fieldCount + 1, s.pos + 1), [Field(s.value)])
  {
  }

  lemma RunLf(s: State)
    requires Pending(s)
    ensures Run(s, [LF]) == Out(Ready(0, s.pos + 1), [Field(s.value), Record(s.fieldCount + 1, s.pos + 1)])
  {
    hide Run, Step;
    RunOne(s, LF);
    StepLineEnd(s);
  }

  /** A CR closes the pending field, and waits for the byte behind it to close the record. */
  lemma RunCr(s: State)
    requires Pending(s)
    ensures var w, end := Run(s, [CR]), s.pos + 1;
            && w.state.phase.FoundCr? && w.state.pos == end
            && Then(w, CloseRecord(w.state)) == Out(Ready(0, end), [Field(s.value), Record(s.fieldCount + 1, end)])
            && Then(w, CloseRecord(w.state.(pos := end + 1))) == Out(Ready(0, end + 1), [Field(s.value), Record(s.fieldCount + 1, end + 1)])
  {
    hide Run, Step;
    RunOne(s, CR);
    StepLineEnd(s);
  }

  lemma RunFoundCr(s: State)
    requires s.phase.FoundCr?
    ensures Run(s, [LF]) == CloseRecord(s.(pos := s.pos + 1))
  {
    hide Run, CloseRecord, CloseField, Between, Keep;
    RunOne(s, LF);
  }

  lemma RunCrLf(s: State)
    requires Pending(s)
    ensures Run(s, [CR, LF]) == Out(Ready(0, s.pos + 2), [Field(s.value), Record(s.fieldCount + 1, s.pos + 2)])
  {
    hide Run, Step, CloseRecord;
    RunCr(s);
    RunFoundCr(Run(s, [CR]).state);
    RunAppend(s, [CR], [LF]);
    assert [CR] + [LF] == [CR, LF];
  }

  lemma RunLoneCr(s: State, next: seq<byte>)
    requires Pending(s) && next != [] && next[0] != LF
    ensures Run(s, [CR] + next) ==
            Then(Out(Ready(0, s.pos + 1), [Field(s.value), Record(s.fieldCount + 1, s.pos + 1)]), Run(Ready(0, s.pos + 1), next))
  {
    hide Run, Step, Pending;
    RunCr(s);
    var w := Run(s, [CR]);
    RunAppend(s, [CR], next);
    RunCloseRecord(w.state, next);
    var r := CloseRecord(w.state);
    hide CloseRecord, Then;
    ThenAssoc(w, r, Run(Ready(0, s.pos + 1), next));
  }

  /** A line end, and what follows. */
  lemma RunLineEnd(s: State, e: Eol, next: seq<byte>)
    requires Pending(s) && (e.Cr? ==> next != [] && next[0] != LF)
    ensures var end := s.pos + |PrintEol(e)|;
            Run(s, PrintEol(e) + next) ==
            Then(Out(Ready(0, end), [Field(s.value), Record(s.fieldCount + 1, end)]), Run(Ready(0, end), next))
  {
    hide Run, Step, Pending;
    match e
    case Lf =>
      RunLf(s);
      RunAppend(s, [LF], next);
    case CrLf =>
      RunCrLf(s);
      RunAppend(s, [CR, LF], next);
    case Cr =>
      RunLoneCr(s, next);
  }

  /** The last cell of a row, its line end, and what follows. */
  lemma RunEol(c: Cell, e: Eol, n: nat, pos: nat, next: seq<byte>)
    requires PrintableCell(c) && (e.Cr? ==> next != [] && next[0] != LF)
    ensures var text := PrintCell(c) + PrintEol(e); var end := pos + |text|;
            Run(Ready(n, pos), text + next) ==
            Then(Out(Ready(0, end), FieldsOf(c) + [Record(n + |FieldsOf(c)|, end)]), Run(Ready(0, end), next))
  {
    hide Run, Step, PrintCell, PrintEol;
    var s, t := Ready(n, pos), AfterCell(c, n, pos);
    RunCell(c, n, pos);
    RunLineEnd(t, e, next);
    RunAppend(s, PrintCell(c), PrintEol(e) + next);
    assert PrintCell(c) + PrintEol(e) + next == PrintCell(c) + (PrintEol(e) + next);
    var end := pos + |PrintCell(c) + PrintEol(e)|;
    ThenAssoc(Out(t, Early(c)), Out(Ready(0, end), [Field(t.value), Record(t.fieldCount + 1, end)]), Run(Ready(0, end), next));
  }

  lemma {:induction false} RunCells(cells: seq<Cell>, e: Eol, n: nat, pos: nat, next: seq<byte>)
    requires cells != [] && (forall c :: c in cells ==> PrintableCell(c)) && (e.Cr? ==> next != [] && next[0] != LF)
    ensures var text := PrintCells(cells) + PrintEol(e); var end := pos + |text|;
            Run(Ready(n, pos), text + next) ==
            Then(Out(Ready(0, end), CellFields(cells) + [Record(n + |CellFields(cells)|, end)]), Run(Ready(0, end), next))
  {
    hide Run, Step, PrintCell, PrintEol, FieldsOf;
    if |cells| == 1 {
      RunEol(cells[0], e, n, pos, next);
      assert CellFields(cells) == FieldsOf(cells[0]) + CellFields([]);
    } else {
      var head := PrintCell(cells[0]) + [COMMA];
      var tail := PrintCells(cells[1..]) + PrintEol(e);
      assert PrintCells(cells) + PrintEol(e) + next == head + (tail + next);
      RunComma(cells[0], n, pos);
      RunAppend(Ready(n, pos), head, tail + next);
      RunCells(cells[1..], e, n + |FieldsOf(cells[0])|, pos + |head|, next);
      hide PrintCells, CellFields;
      CellsJoin(cells, n, pos + |head| + |tail|);
    }
  }

  lemma CellsJoin(cells: seq<Cell>, n: nat, end: nat)
    requires cells != []
    ensures var f := FieldsOf(cells[0]); var more := CellFields(cells[1..]);
            |CellFields(cells)| == |f| + |more|
            && f + (more + [Record(n, end)]) == CellFields(cells) + [Record(n, end)]
  {
    hide FieldsOf;
  }

  /** Reading a printed table gives back every field, row by row, with the row lengths and ends. */
  lemma {:induction false} ReadPrinted(rows: seq<Row>, pos: nat)
    requires Printable(rows)
    ensures Run(Ready(0, pos), Print(rows)) == Out(Ready(0, pos + |Print(rows)|), Readback(rows, pos))
  {
    hide Step, Run, PrintRow;
    if rows == [] {
      assert Print(rows) == [];
      RunNothing(Ready(0, pos));
    } else {
      var r, next := rows[0], Print(rows[1..]);
      assert PrintableRow(r);
      PrintedFirst(rows);
      RunCells(r.cells, r.eol, 0, pos, next);
      RowText(r);
      ReadPrinted(rows[1..], pos + |PrintRow(r)|);
    }
  }

  lemma RowText(r: Row)
    requires r.cells != []
    ensures PrintRow(r) == PrintCells(r.cells) + PrintEol(r.eol)
  {
  }

  lemma PrintedFirst(rows: seq<Row>)
    requires Printable(rows) && rows != []
    ensures Printable(rows[1..])
    ensures rows[0].eol.Cr? ==> Print(rows[1..]) != [] && Print(rows[1..])[0] != LF
  {
    hide PrintRow;
    var tail := rows[1..];
    assert forall i :: 0 <= i < |tail| ==> tail[i] == rows[i + 1];
  }

  /** The same of the reader itself, whatever windows the printed text is read through. */
  method ReadPrintedStream(rows: seq<Row>, windows: seq<nat>) returns (trace: seq<Event>)
    requires Printable(rows)
    requires 0 !in windows && |windows| >= 2 * |Print(rows)|
    ensures trace == Readback(rows, 0)
  {
    var pos;
    trace, pos := CsvStream.ReadStream(Print(rows), windows, true);
    ReadPrinted(rows, 0);
  }
}
