/** The decompression context: a buffer with a read position, refilled at the back and read by the gzip stages. */
module DecompressionWindow {
  import opened Bytes
  import opened GzipCodec
  import opened GzipStages
  import GzipHeader

  // ----- the window as a queue -----

  /** What the context holds and where in its buffer it stands. */
  datatype Machine<S> = Machine(conf: Conf<S>, offset: nat)

  /** The read position after a compaction: back at the front once past the middle. */
  function Adjusted(offset: nat, size: nat): nat {
    if offset >= size / 2 then 0 else offset
  }

  /** How many of some bytes are accepted: as many as fit behind the unread ones. */
  function Accepts<S>(m: Machine<S>, size: nat, data: seq<byte>): (n: nat)
    ensures n <= |data|
  {
    var space := size - Adjusted(m.offset, size) - |m.conf.window|;
    if space < 0 then 0 else Min(|data|, space)
  }

  function Appended<S>(m: Machine<S>, size: nat, data: seq<byte>): Machine<S> {
    Machine(m.conf.(window := m.conf.window + data[..Accepts(m, size, data)]), Adjusted(m.offset, size))
  }

  /** A footer that empties the window sends the read position to the front. */
  predicate Rewinds<S>(f: Conf<S>, g: Conf<S>) {
    g.stage == ExpectHeader && g.window == [] && f.window != []
  }

  /** After a decompression call that leaves `g`. */
  function Moved<S>(m: Machine<S>, g: Conf<S>): Machine<S>
    requires |g.window| <= |m.conf.window|
  {
    Machine(g, if Rewinds(m.conf, g) then 0 else m.offset + |m.conf.window| - |g.window|)
  }

  class Context<S(!new)> {
    const codec: Codec<S>
    const buffer: array<byte>
    var offset: nat
    var length: nat
    var stage: Stage
    var header: seq<byte>
    var stream: S

    ghost predicate Valid()
      reads this
    {
      && Sane(codec)
      && offset + length <= buffer.Length
    }

    /** The bytes not yet read. */
    function Window(): (w: seq<byte>)
      requires offset + length <= buffer.Length
      reads this`offset, this`length, buffer
      ensures |w| == length
    {
      buffer[offset..offset + length]
    }

    ghost function Standing(): Conf<S>
      requires Valid()
      reads this, buffer
    {
      Conf(stage, header, stream, Window())
    }

    ghost function Whole(): Machine<S>
      requires Valid()
      reads this, buffer
    {
      Machine(Standing(), offset)
    }

    constructor (codec: Codec<S>, size: nat)
      requires Sane(codec)
      ensures Valid() && fresh(buffer) && buffer.Length == size && this.codec == codec
      ensures Whole() == Machine(Conf(ExpectHeader, [], codec.init, []), 0)
    {
      this.codec := codec;
      buffer := new byte[size];
      offset, length, stage, header, stream := 0, 0, ExpectHeader, [], codec.init;
    }

    /** Moves the unread bytes to the front once the read position is past the middle. */
    method AdjustBuffer()
      requires Valid()
      modifies this`offset, buffer
      ensures Valid() && Standing() == old(Standing())
      ensures offset == Adjusted(old(offset), buffer.Length) == if 2 * old(offset) >= buffer.Length - 1 then 0 else old(offset)
    {
      hide Sane;
      if offset >= buffer.Length / 2 {
        for i := 0 to length
          modifies buffer
          invariant buffer[..i] == old(buffer[offset..offset + i])
          invariant forall k :: offset + i <= k < buffer.Length ==> buffer[k] == old(buffer[k])
        {
          buffer[i] := buffer[offset + i];
          assert buffer[..i + 1] == buffer[..i] + [buffer[i]];
        }
        offset := 0;
      }
    }

    /** How much can be appended; at least half the buffer is always unread bytes or free. */
    method GetAvailableSpace() returns (space: nat)
      requires Valid()
      modifies this`offset, buffer
      ensures Valid() && Standing() == old(Standing())
      ensures space == buffer.Length - offset - length && 2 * (space + length) >= buffer.Length
      ensures offset == Adjusted(old(offset), buffer.Length)
    {
      hide Sane, Context.Window;
      AdjustBuffer();
      space := buffer.Length - offset - length;
    }

    /** Where to append: right behind the unread bytes. */
    method GetAppendBuffer() returns (at: nat)
      requires Valid()
      modifies this`offset, buffer
      ensures Valid() && Standing() == old(Standing())
      ensures at == offset + length && offset == Adjusted(old(offset), buffer.Length)
    {
      hide Sane;
      AdjustBuffer();
      at := offset + length;
    }

    /** Reads into the append buffer, as much as fits. */
    method Fill(data: seq<byte>) returns (n: nat)
      requires Valid()
      modifies this`offset, this`length, buffer
      ensures Valid() && n == Accepts(old(Whole()), buffer.Length, data)
      ensures Whole() == Appended(old(Whole()), buffer.Length, data)
      ensures n < |data| ==> 2 * |Window()| >= buffer.Length
    {
      hide Sane, Context.Window;
      var space := GetAvailableSpace();
      n := if |data| > space then space else |data|;
      Copy(data[..n]);
    }

    method Copy(data: seq<byte>)
      requires Valid() && offset + length + |data| <= buffer.Length
      requires offset == 0 || offset < buffer.Length / 2
      modifies this`offset, this`length, buffer
      ensures Valid() && offset == old(offset)
      ensures Standing() == old(Standing()).(window := old(Window()) + data)
    {
      hide Sane, Context.Window;
      var at := GetAppendBuffer();
      WindowSplit(length);
      Write(at, data);
      length := length + |data|;
      WindowSplit(length - |data|);
      assert buffer[..at][offset..] + [] == buffer[..at][offset..];
    }

    method Write(at: nat, data: seq<byte>)
      requires at + |data| <= buffer.Length
      modifies buffer
      ensures buffer[..at] == old(buffer[..at]) && buffer[at..at + |data|] == data
    {
      for i := 0 to |data|
        invariant buffer[..at] == old(buffer[..at]) && buffer[at..at + i] == data[..i]
      {
        buffer[at + i] := data[i];
        assert buffer[at..at + i + 1] == buffer[at..at + i] + [data[i]];
      }
    }

    lemma WindowSplit(n: nat)
      requires offset + length <= buffer.Length && n <= length
      ensures Window() == buffer[..offset + n][offset..] + buffer[offset + n..offset + length]
    {
    }

    /** Drops bytes from the front of the window. */
    method Advance(n: nat)
      requires Valid() && n <= length
      modifies this`offset, this`length
      ensures Valid() && Standing() == old(Standing()).(window := old(Window())[n..])
      ensures offset + length == old(offset + length)
    {
      hide Sane, Dropped;
      offset, length := offset + n, length - n;
    }

    method SkipField(n: nat, bit: byte)
      requires Valid() && n <= length && bit != 0 && Has(Standing(), bit)
      modifies this`offset, this`length, this`header
      ensures Valid() && Standing() == Skip(old(Standing()), n, bit) && length <= old(length)
      ensures offset + length == old(offset + length)
    {
      SkipIs(Standing(), n, bit);
      hide Sane, Dropped, Has, Skip, Context.Window;
      Advance(n);
      header := header[3 := header[3] - bit];
    }

    static lemma SkipIs(f: Conf<S>, n: nat, bit: byte)
      requires n <= |f.window| && bit != 0 && Has(f, bit)
      ensures |f.header| == 10 && f.header[3] >= bit
      ensures Skip(f, n, bit) == Conf(f.stage, f.header[3 := f.header[3] - bit], f.s, f.window[n..])
    {
      hide Dropped;
    }

    method ProcessGzipHeader() returns (status: int)
      requires Valid()
      modifies this`offset, this`length, this`header, this`stage
      ensures Valid() && Turn(Standing(), status, []) == ProcessHeader(old(Standing()))
      ensures offset + length == old(offset + length)
      ensures length <= old(length) && (stage == ExpectHeader ==> length == old(length))
    {
      hide Sane, Dropped, Context.Window;
      if length < 10 {
        return INSUFFICIENT_DATA;
      }
      header := Window()[..10];
      Advance(10);
      if header[0] != 0x1F || header[1] != 0x8B || header[2] != 8 || header[3] >= 32 {
        stage := Broken;
        return FAILURE;
      }
      stage := ExpectOptional;
      status := SUCCESS;
    }

    function HeaderFlags(): byte
      reads this
    {
      if |header| == 10 then header[3] else 0
    }

    method SkipExtraField() returns (done: bool)
      requires Valid()
      modifies this`offset, this`length, this`header
      ensures Valid() && SkipExtra(old(Standing())) == if done then Done(Standing()) else Waits(Standing())
      ensures offset + length == old(offset + length)
      ensures length <= old(length)
    {
      hide Sane, Dropped, Context.Window, Skip;
      if !GzipHeader.Has(HeaderFlags(), 4) {
        return true;
      }
      if length <= 2 {
        return false;
      }
      var xlen := (2 + GzipHeader.ReadLe16(Window(), 0)) % 65536;
      if length < xlen {
        return false;
      }
      SkipField(xlen, 4);
      done := true;
    }

    /** A name or a comment, unless there is nothing left to read. */
    method SkipTextField(bit: byte, extra: nat) returns (done: bool)
      requires Valid() && bit != 0 && extra <= 1
      modifies this`offset, this`length, this`header
      ensures Valid() && SkipText(Done(old(Standing())), bit, extra) == if done then Done(Standing()) else Waits(Standing())
      ensures offset + length == old(offset + length)
      ensures length <= old(length)
    {
      hide Sane, Dropped, Context.Window, Text, Skip;
      if HeaderFlags() != 0 && length == 0 {
        return false;
      }
      if !GzipHeader.Has(HeaderFlags(), bit) {
        return true;
      }
      var xlen := |Text(Window())| % 65536;
      if xlen == 0 || xlen == length {
        return false;
      }
      SkipField((xlen + extra) % 65536, bit);
      done := true;
    }

    method SkipOptionalFields() returns (done: bool)
      requires Valid()
      modifies this`offset, this`length, this`header
      ensures Valid() && SkipFields(old(Standing())) == if done then Done(Standing()) else Waits(Standing())
      ensures offset + length == old(offset + length)
      ensures length <= old(length)
    {
      hide Skip, SkipExtra, SkipText, SkipFields, Dropped, Sane, Context.Window;
      FieldsStop(Standing());
      done := SkipExtraField();
      if done {
        done := SkipTextField(8, 1);
      }
      if done {
        done := SkipTextField(16, 0);
        done := done && (HeaderFlags() == 0 || length != 0);
      }
    }

    method ProcessOptionalHeaders() returns (status: int)
      requires Valid() && stage == ExpectOptional
      modifies this`offset, this`length, this`header, this`stage, this`stream
      ensures Valid() && Turn(Standing(), status, []) == ProcessOptional(codec, old(Standing()))
      ensures offset + length == old(offset + length)
      ensures length <= old(length) && stage != ExpectHeader
    {
      hide SkipFields, Dropped, CheckCrc, Sane, Context.Window;
      var done := SkipOptionalFields();
      if !done {
        return INSUFFICIENT_DATA;
      }
      status := CheckHeaderCrc();
    }

    method CheckHeaderCrc() returns (status: int)
      requires Valid() && stage == ExpectOptional
      modifies this`offset, this`length, this`header, this`stage, this`stream
      ensures Valid() && Turn(Standing(), status, []) == CheckCrc(codec, old(Standing()))
      ensures offset + length == old(offset + length)
      ensures length <= old(length) && stage != ExpectHeader
    {
      hide Sane, Dropped;
      if GzipHeader.Has(HeaderFlags(), 2) {
        if length <= 2 {
          return INSUFFICIENT_DATA;
        }
        if GzipHeader.ReadLe16(Window(), 0) != codec.crc32(header) % 65536 {
          stage := Broken;
          return CORRUPTED_HEADER;
        }
        SkipField(2, 2);
      }
      stream := codec.init;
      stage := ExpectBody;
      status := SUCCESS;
    }

    method ProcessBodyChunk(room: nat) returns (status: int, out: seq<byte>)
      requires Valid() && stage == ExpectBody
      modifies this`offset, this`length, this`stage, this`stream
      ensures Valid() && Turn(Standing(), status, out) == ProcessBody(codec, old(Standing()), room) && |out| <= room
      ensures offset + length == old(offset + length)
      ensures length <= old(length) && stage != ExpectHeader
    {
      hide Dropped, Context.Window;
      if room == 0 {
        return SUCCESS, [];
      }
      var r := codec.inflate(stream, Window(), room);
      if r.status == Failed {
        stage := Broken;
        return FAILURE, [];
      }
      Advance(r.taken);
      stream := r.state;
      if r.status == StreamEnd {
        stage := ExpectFooter;
      }
      return SUCCESS, r.out;
    }

    /** Skips the eight footer bytes; an empty window starts again at the front of the buffer. */
    method ProcessGzipFooter() returns (status: int)
      requires Valid() && stage == ExpectFooter
      modifies this`offset, this`length, this`stage
      ensures Valid() && Turn(Standing(), status, []) == ProcessFooter(old(Standing()))
      ensures if old(length) >= 8 && length == 0 then offset == 0 else offset + length == old(offset + length)
      ensures length <= old(length) && (stage == ExpectHeader <==> old(length) >= 8)
    {
      if length < 8 {
        return INSUFFICIENT_DATA;
      }
      length := length - 8;
      if length > 0 {
        offset := offset + 8;
      } else {
        offset := 0;
      }
      stage := ExpectHeader;
      status := SUCCESS;
    }

    /** One decompression call. */
    method Decompress(room: nat) returns (status: int, out: seq<byte>)
      requires Valid()
      modifies this`offset, this`length, this`header, this`stage, this`stream
      ensures Valid() && Turn(Standing(), status, out) == Dispatch(codec, old(Standing()), room) && |out| <= room
      ensures |Window()| <= old(|Window()|) && Whole() == Moved(old(Whole()), Standing())
    {
      hide ProcessHeader, ProcessOptional, ProcessBody, ProcessFooter, Dropped, Context.Window;
      status, out := SUCCESS, [];
      if stage == ExpectHeader {
        status := ProcessGzipHeader();
      }
      if status == SUCCESS && stage == ExpectOptional {
        status := ProcessOptionalHeaders();
      }
      if status == SUCCESS && stage == ExpectBody {
        status, out := ProcessBodyChunk(room);
      }
      if status == SUCCESS && stage == ExpectFooter {
        status := ProcessGzipFooter();
      }
    }
  }

  // ----- runs -----

  datatype Op = Append(data: seq<byte>) | AskSpace | Call(room: nat)

  /** A run so far: the bytes accepted, the bytes read off the front, the data given. */
  datatype Flow<S> = Flow(m: Machine<S>, accepted: seq<byte>, read: seq<byte>, given: seq<byte>)

  /** One operation on the queue. */
  function Next<S>(c: Codec<S>, size: nat, q: Flow<S>, op: Op): Flow<S> {
    match op
    case Append(data) => q.(m := Appended(q.m, size, data), accepted := q.accepted + data[..Accepts(q.m, size, data)])
    case AskSpace => q.(m := q.m.(offset := Adjusted(q.m.offset, size)))
    case Call(room) =>
      var t := Dispatch(c, q.m.conf, room);
      Flow(Moved(q.m, t.conf), q.accepted, q.read + q.m.conf.window[..|q.m.conf.window| - |t.conf.window|], q.given + t.out)
  }

  function Queue<S>(c: Codec<S>, size: nat, m: Machine<S>, ops: seq<Op>): Flow<S> {
    if ops == [] then Flow(m, [], [], [])
    else Next(c, size, Queue(c, size, m, ops[..|ops| - 1]), ops[|ops| - 1])
  }

  /** In any run, on any bytes and with any inflater, what was read, followed by the window, is the first window followed
      by what was accepted: no byte is lost, repeated or moved. */
  lemma {:induction false} QueueFifo<S>(c: Codec<S>, size: nat, m: Machine<S>, ops: seq<Op>)
    ensures var q := Queue(c, size, m, ops); m.conf.window + q.accepted == q.read + q.m.conf.window
  {
    if ops != [] {
      QueueFifo(c, size, m, ops[..|ops| - 1]);
      hide Next;
      NextFifo(c, size, m.conf.window, Queue(c, size, m, ops[..|ops| - 1]), ops[|ops| - 1]);
    }
  }

  lemma NextFifo<S>(c: Codec<S>, size: nat, first: seq<byte>, q: Flow<S>, op: Op)
    requires first + q.accepted == q.read + q.m.conf.window
    ensures var t := Next(c, size, q, op); first + t.accepted == t.read + t.m.conf.window
  {
    hide Dispatch, Accepts, Rewinds, Dropped, Adjusted;
    match op {
      case Append(data) => QueueAppends(first, q.accepted, q.read, q.m.conf.window, data[..Accepts(q.m, size, data)]);
      case AskSpace =>
      case Call(room) => QueueDrops(first, q.accepted, q.read, q.m.conf.window, Dispatch(c, q.m.conf, room).conf.window);
    }
  }

  lemma QueueAppends(first: seq<byte>, accepted: seq<byte>, read: seq<byte>, window: seq<byte>, more: seq<byte>)
    requires first + accepted == read + window
    ensures first + (accepted + more) == read + (window + more)
  {
    assert first + (accepted + more) == (first + accepted) + more;
  }

  lemma QueueDrops(first: seq<byte>, accepted: seq<byte>, read: seq<byte>, window: seq<byte>, after: seq<byte>)
    requires first + accepted == read + window && Dropped(window, after)
    ensures |after| <= |window| && first + accepted == read + window[..|window| - |after|] + after
  {
    assert window == window[..|window| - |after|] + after;
  }

  lemma QueueNext<S>(c: Codec<S>, size: nat, m: Machine<S>, ops: seq<Op>, i: nat)
    requires i < |ops|
    ensures Queue(c, size, m, ops[..i + 1]) == Next(c, size, Queue(c, size, m, ops[..i]), ops[i])
    ensures Queue(c, size, m, ops[..0]) == Flow(m, [], [], [])
  {
    hide Next;
    assert ops[..i + 1][..i] == ops[..i];
  }

  /** Any run of the context is the run of the queue, inside the buffer all the time. */
  method Execute<S(!new)>(ctx: Context<S>, ops: seq<Op>) returns (accepted: seq<byte>, given: seq<byte>)
    requires ctx.Valid()
    modifies ctx, ctx.buffer
    ensures ctx.Valid()
    ensures var q := Queue(ctx.codec, ctx.buffer.Length, old(ctx.Whole()), ops);
            ctx.Whole() == q.m && accepted == q.accepted && given == q.given
            && old(ctx.Window()) + accepted == q.read + ctx.Window()
  {
    accepted, given := [], [];
    ghost var first := ctx.Whole();
    assert ops[..0] == [];
    for i := 0 to |ops|
      invariant ctx.Valid()
      invariant var q := Queue(ctx.codec, ctx.buffer.Length, first, ops[..i]);
                ctx.Whole() == q.m && accepted == q.accepted && given == q.given
    {
      QueueNext(ctx.codec, ctx.buffer.Length, first, ops, i);
      hide Next;
      var more, out := Perform(ctx, ops[i], Queue(ctx.codec, ctx.buffer.Length, first, ops[..i]));
      accepted, given := accepted + more, given + out;
    }
    assert ops[..|ops|] == ops;
    QueueFifo(ctx.codec, ctx.buffer.Length, first, ops);
  }

  method Perform<S(!new)>(ctx: Context<S>, op: Op, ghost q: Flow<S>) returns (more: seq<byte>, out: seq<byte>)
    requires ctx.Valid() && q.m == ctx.Whole()
    modifies ctx, ctx.buffer
    ensures ctx.Valid()
    ensures var t := Next(ctx.codec, ctx.buffer.Length, q, op);
            t.m == ctx.Whole() && t.accepted == q.accepted + more && t.given == q.given + out
  {
    hide Sane, Dispatch, Dropped, Adjusted, Accepts, Rewinds, Context.Window;
    more, out := [], [];
    match op {
      case Append(data) =>
        var n := ctx.Fill(data);
        more := data[..n];
      case AskSpace =>
        var space := ctx.GetAvailableSpace();
      case Call(room) =>
        var status;
        status, out := ctx.Decompress(room);
    }
  }
}
