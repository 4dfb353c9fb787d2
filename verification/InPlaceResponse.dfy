/**
  The receive buffer of flb_http_client.c and the loop that fills it.  The buffer starts with the
  response head; behind it stand the decoded payload and then the bytes still to be decoded.
 */
module InPlaceResponse {
  import opened Bytes
  import opened Chunked
  import opened InPlaceDecoder

  /** The `payload` pointer: not set, into the current buffer behind the head, or into a freed one. */
  datatype Pointer = Null | Into | Stale

  /** Buffer growth step, FLB_HTTP_DATA_CHUNK. */
  const GROWTH := 32768

  // ----- the client, told from the bytes received -----

  /** What decides how a client goes on: where the head ends, the limit, the body bytes received, how many of the decoded
      ones were taken, the size of the buffer, and the payload. */
  datatype Client = Client(headersEnd: nat, max: nat, received: seq<byte>, taken: nat, size: nat, payload: Pointer, payloadSize: int)

  /** How many bytes the buffer holds. */
  function Held(c: Client): int {
    c.headersEnd + |Drain(c.received).out| + |Drain(c.received).rest| - c.taken
  }

  datatype Got = Got(client: Client, ret: Status, rest: seq<byte>)

  /** Bytes arrive: the first of them open the payload, and its size follows every chunk that is decoded. */
  function Receives(c: Client, bytes: seq<byte>): Client {
    var e := Drain(Drain(c.received).rest + bytes);
    var held := Held(c) + |bytes|;
    var opens := c.payload.Null? && c.headersEnd < held;
    var d := c.(received := c.received + bytes, payload := if opens then Into else c.payload);
    d.(payloadSize := if e.out != [] || e.status == Ok then Held(d) - c.headersEnd
                      else if opens then held - c.headersEnd
                      else c.payloadSize)
  }

  predicate IsFull(c: Client) {
    0 < c.max <= c.size && c.size - Held(c) <= 2
  }

  predicate IsEmptied(c: Client) {
    c.payload.Into? && c.payloadSize == 0
  }

  /** The buffer grows when there is no room for a read; a block that moves leaves the pointer to an empty payload behind. */
  function Grown(c: Client, moves: bool): Client {
    if c.size - Held(c) > 2 then c
    else c.(size := if c.max == 0 then c.size + GROWTH else Min(c.size + GROWTH, c.max),
            payload := if moves && IsEmptied(c) then Stale else c.payload)
  }

  /** How much of the wire a read takes. */
  function Amount(c: Client, wire: seq<byte>, size: nat): (n: nat)
    ensures n <= |wire|
  {
    var n := Min(Min(size, c.size - Held(c) - 1), |wire|);
    if n < 0 then 0 else n
  }

  /** One turn of the read loop. */
  function TurnOf(c: Client, wire: seq<byte>, size: nat, moves: bool): Got {
    if IsFull(c) then Got(c, Error, wire)
    else
      var g := Grown(c, moves);
      var n := Amount(g, wire, size);
      Got(Receives(g, wire[..n]), Drain(Drain(c.received).rest + wire[..n]).status, wire[n..])
  }

  /** The read loop: it goes on as long as more is needed, and returns More only when the reads run out. */
  function LoopOf(c: Client, wire: seq<byte>, sizes: seq<nat>, moves: bool): Got
    decreases |sizes|
  {
    if sizes == [] then Got(c, More, wire)
    else
      var t := TurnOf(c, wire, sizes[0], moves);
      if t.ret == More then LoopOf(t.client, t.rest, sizes[1..], moves) else t
  }

  lemma LoopStep(c: Client, wire: seq<byte>, sizes: seq<nat>, i: nat, moves: bool)
    requires i < |sizes|
    ensures var t := TurnOf(c, wire, sizes[i], moves);
            LoopOf(c, wire, sizes[i..], moves) == if t.ret == More then LoopOf(t.client, t.rest, sizes[i + 1..], moves) else t
  {
    hide TurnOf;
    assert sizes[i..][1..] == sizes[i + 1..];
  }

  /** The loop, after `i` reads that asked for more: the client and the rest of the wire decide how it goes on, and every
      read that delivers something has made the wire shorter. */
  ghost predicate Looping(c: Client, wire: seq<byte>, sizes: seq<nat>, moves: bool, i: nat, now: Client, rest: seq<byte>) {
    && i <= |sizes|
    && LoopOf(c, wire, sizes, moves) == LoopOf(now, rest, sizes[i..], moves)
    && (0 !in sizes && i > 0 && wire != [] ==> |rest| < |wire|)
  }

  lemma LoopingFirst(c: Client, wire: seq<byte>, sizes: seq<nat>, moves: bool)
    ensures Looping(c, wire, sizes, moves, 0, c, wire)
  {
    assert sizes[0..] == sizes;
  }

  lemma LoopingNext(c: Client, wire: seq<byte>, sizes: seq<nat>, moves: bool, i: nat, now: Client, rest: seq<byte>, t: Got)
    requires Looping(c, wire, sizes, moves, i, now, rest) && i < |sizes| && t == TurnOf(now, rest, sizes[i], moves)
    requires |rest| <= |wire| && |t.rest| <= |rest|
    requires 0 < sizes[i] && rest != [] && t.ret != Error ==> |t.rest| < |rest|
    ensures t.ret == More ==> Looping(c, wire, sizes, moves, i + 1, t.client, t.rest)
    ensures t.ret != More ==> LoopOf(c, wire, sizes, moves) == t
    ensures t.ret != Error && 0 !in sizes && wire != [] ==> |t.rest| < |wire|
  {
    hide TurnOf, LoopOf;
    LoopStep(now, rest, sizes, i, moves);
    if 0 !in sizes {
      assert sizes[i] in sizes;
    }
  }

  lemma LoopingLast(c: Client, wire: seq<byte>, sizes: seq<nat>, moves: bool, now: Client, rest: seq<byte>)
    requires Looping(c, wire, sizes, moves, |sizes|, now, rest)
    ensures LoopOf(c, wire, sizes, moves) == Got(now, More, rest)
    ensures 0 !in sizes && sizes != [] && wire != [] ==> |rest| < |wire|
  {
  }

  /** The turns of a loop that runs its course: how many reads it makes. */
  function Turns(c: Client, wire: seq<byte>, sizes: seq<nat>, moves: bool): (n: nat)
    ensures n <= |sizes|
    decreases |sizes|
  {
    if sizes == [] then 0
    else
      var t := TurnOf(c, wire, sizes[0], moves);
      if t.ret == More then 1 + Turns(t.client, t.rest, sizes[1..], moves) else 0
  }

  /** The client and the wire when a loop stops: `n` turns that asked for more are behind. */
  lemma {:induction false} LoopExact(c: Client, wire: seq<byte>, sizes: seq<nat>, moves: bool)
    ensures var n := Turns(c, wire, sizes, moves); var m := LoopOf(c, wire, sizes[..n], moves);
            && m.ret == More
            && (LoopOf(c, wire, sizes, moves).ret == More <==> n == |sizes|)
            && (n < |sizes| ==> LoopOf(c, wire, sizes, moves) == TurnOf(m.client, m.rest, sizes[n], moves))
            && (n == |sizes| ==> LoopOf(c, wire, sizes, moves) == m)
    decreases |sizes|
  {
    hide TurnOf;
    if sizes != [] {
      var t := TurnOf(c, wire, sizes[0], moves);
      if t.ret == More {
        var n := Turns(t.client, t.rest, sizes[1..], moves);
        LoopExact(t.client, t.rest, sizes[1..], moves);
        assert sizes[..n + 1][1..] == sizes[1..][..n] && sizes[..n + 1][0] == sizes[0];
      } else {
        assert sizes[..0] == [];
      }
    }
  }

  /** A turn that leaves the payload pointer behind: the payload is empty, the buffer has to grow and may, the block moves. */
  predicate Loses(c: Client, moves: bool) {
    moves && IsEmptied(c) && c.size - Held(c) <= 2 && !IsFull(c)
  }

  /** One of the turns of a loop does. */
  predicate LosesIn(c: Client, wire: seq<byte>, sizes: seq<nat>, moves: bool)
    decreases |sizes|
  {
    && sizes != []
    && (Loses(c, moves)
        || var t := TurnOf(c, wire, sizes[0], moves);
           t.ret == More && LosesIn(t.client, t.rest, sizes[1..], moves))
  }

  /** What a turn comes to: an error exactly if it starts full or meets malformed bytes, and the exact loss of the pointer. */
  lemma TurnExact(c: Client, wire: seq<byte>, size: nat, moves: bool)
    ensures var t := TurnOf(c, wire, size, moves); var raw := Drain(c.received).rest + wire[..|wire| - |t.rest|];
            && |t.rest| <= |wire|
            && (t.ret == Error <==> IsFull(c) || Drain(raw).status == Error)
            && (t.client.payload.Stale? <==> c.payload.Stale? || Loses(c, moves))
  {
    hide Drain;
    if !IsFull(c) {
      var n := Amount(Grown(c, moves), wire, size);
      assert wire[..|wire| - |wire[n..]|] == wire[..n];
    }
  }

  /** A loop loses the pointer exactly if one of its turns does. */
  lemma {:induction false} LoopLoses(c: Client, wire: seq<byte>, sizes: seq<nat>, moves: bool)
    ensures LoopOf(c, wire, sizes, moves).client.payload.Stale? <==> c.payload.Stale? || LosesIn(c, wire, sizes, moves)
    decreases |sizes|
  {
    if sizes != [] {
      hide TurnOf, Loses;
      TurnExact(c, wire, sizes[0], moves);
      var t := TurnOf(c, wire, sizes[0], moves);
      LoopLoses(t.client, t.rest, sizes[1..], moves);
    }
  }

  /** One call: the caller gives up payload bytes, then the loop runs. */
  function CallOf(c: Client, consumed: nat, wire: seq<byte>, sizes: seq<nat>, moves: bool): Got {
    if consumed > c.payloadSize then Got(c, Error, wire)
    else LoopOf(c.(taken := c.taken + consumed, payloadSize := c.payloadSize - consumed), wire, sizes, moves)
  }

  lemma Parts(taken: seq<byte>, from: nat, pre: seq<byte>, out: seq<byte>, rest: seq<byte>)
    requires from <= |pre|
    ensures var all, end := pre + out + rest, |pre| + |out|;
            taken + all[from..end] == taken + pre[from..] + out && all[end..] == rest
  {
    assert (pre + out + rest)[from..|pre| + |out|] == pre[from..] + out;
  }

  class Response {
    const headersEnd: nat
    const dataSizeMax: nat
    var data: seq<byte>
    var dataSize: nat
    var processedEnd: nat
    var payload: Pointer
    var payloadSize: nat
    /** The body bytes read so far, and those the caller has taken out of the payload. */
    ghost var received: seq<byte>
    ghost var taken: seq<byte>

    ghost predicate Bounds()
      reads this
    {
      15 <= headersEnd <= processedEnd <= |data| < dataSize
    }

    /** Between calls the buffer holds what the decoder makes of the bytes received, less what was taken. */
    ghost predicate Holds(p: Progress)
      reads this
    {
      && Bounds()
      && taken + data[headersEnd..processedEnd] == p.out
      && data[processedEnd..] == p.rest
    }

    ghost predicate Valid()
      reads this
    {
      && Holds(Drain(received))
      && (Drain(received).status == More || Drain(received).status == Available)
      && (payload.Null? ==> payloadSize == 0 && received == [])
    }

    ghost function State(): Client
      reads this
    {
      Client(headersEnd, dataSizeMax, received, |taken|, dataSize, payload, payloadSize)
    }

    /** The buffer is as full as the bytes received say. */
    lemma HeldIs()
      requires Holds(Drain(received))
      ensures Held(State()) == |data|
    {
      hide Drain;
      assert |taken + data[headersEnd..processedEnd]| == |taken| + processedEnd - headersEnd;
    }

    /** A chunk was just reported: all of the buffer behind the head is decoded payload. */
    ghost predicate AtChunk()
      reads this
    {
      payload.Into? && processedEnd == |data| && payloadSize == |data| - headersEnd
    }

    constructor (head: seq<byte>, size: nat, max: nat)
      requires 15 <= |head| < size
      ensures Valid() && received == [] && taken == [] && payload.Null?
      ensures headersEnd == |head| && data == head && dataSizeMax == max && dataSize == size
    {
      headersEnd, dataSizeMax, data, dataSize := |head|, max, head, size;
      processedEnd, payload, payloadSize, received, taken := |head|, Null, 0, [], [];
      new;
      assert Drain([]) == Progress([], [], More);
    }

    /**
      Looks at the chunk at `processedEnd`.  A complete one loses its header and the CRLF behind its
      data, the rest of the buffer shifting down, and its data joins the payload.
     */
    method DecodeChunk(ghost pre: seq<byte>, ghost tail: seq<byte>) returns (scan: ChunkScan)
      requires headersEnd <= processedEnd == |pre| && data == pre + tail
      modifies this`data, this`processedEnd, this`payloadSize
      ensures scan == ScanChunk(tail)
      ensures !scan.Complete? ==> data == pre + tail && processedEnd == |pre| && payloadSize == old(payloadSize)
      ensures scan.Complete? ==>
                && data == pre + tail[scan.header..scan.header + scan.size] + tail[scan.header + scan.size + 2..]
                && processedEnd == |pre| + scan.size && payloadSize == |data| - headersEnd
    {
      hide ScanChunk;
      assert data[processedEnd..] == tail;
      scan := ScanChunk(data[processedEnd..]);
      if scan.Complete? {
        data := data[..processedEnd] + data[processedEnd + scan.header..];
        processedEnd := processedEnd + scan.size;
        data := data[..processedEnd] + data[processedEnd + 2..];
        payloadSize := |data| - headersEnd;
      }
    }

    /** Decodes in place every chunk that is complete. */
    method ProcessChunkedData() returns (ret: Status)
      requires headersEnd <= processedEnd <= |data|
      modifies this`data, this`processedEnd, this`payloadSize
      ensures var d := Drain(old(data[processedEnd..]));
              && ret == d.status
              && data == old(data[..processedEnd]) + d.out + d.rest
              && processedEnd == old(processedEnd) + |d.out|
      ensures ret == Ok || ret == Available ==> payloadSize == |data| - headersEnd
      ensures ret != Ok ==> payloadSize == old(payloadSize) || payloadSize == |data| - headersEnd > 0
      ensures payloadSize == if processedEnd == old(processedEnd) && ret != Ok then old(payloadSize) else |data| - headersEnd
    {
      hide Drain, ScanChunk, Resumes;
      ghost var base, raw := data[..processedEnd], data[processedEnd..];
      ghost var done, tail;
      ret, done, tail := DecodeChunks(base, raw);
    }

    method DecodeChunks(ghost base: seq<byte>, ghost raw: seq<byte>) returns (ret: Status, ghost done: seq<byte>, ghost tail: seq<byte>)
      requires headersEnd <= processedEnd == |base| && data == base + raw
      modifies this`data, this`processedEnd, this`payloadSize
      ensures data == base + done + tail && processedEnd == |base| + |done| && Drain(raw) == Progress(done, tail, ret)
      ensures ret == Ok || ret == Available ==> payloadSize == |data| - headersEnd
      ensures ret != Ok ==> payloadSize == old(payloadSize) || payloadSize == |data| - headersEnd > 0
      ensures payloadSize == if done == [] && ret != Ok then old(payloadSize) else |data| - headersEnd
    {
      hide Drain, ScanChunk, Resumes;
      done, tail := [], raw;
      assert base + done == base;
      ResumesFirst(raw);
      while true
        invariant data == base + done + tail && headersEnd <= processedEnd == |base| + |done|
        invariant Resumes(raw, done, tail)
        invariant payloadSize == if |done| == 0 then old(payloadSize) else |data| - headersEnd
        decreases |tail|
      {
        var scan := DecodeChunk(base + done, tail);
        if !scan.Complete? {
          ResumesLast(raw, done, tail);
          ret := StatusOf(scan);
          return;
        }
        ResumesNext(raw, done, tail);
        ghost var chunk := tail[scan.header..scan.header + scan.size];
        Assoc(base, done, chunk);
        done, tail := done + chunk, tail[scan.header + scan.size + 2..];
        if scan.size == 0 {
          ret := Ok;
          return;
        }
        if |data| - processedEnd == 0 {
          assert tail == [];
          ret := Available;
          return;
        }
      }
    }

    /** Nothing left in the payload the pointer was set to: the caller has taken all of it. */
    ghost predicate Emptied()
      reads this
    {
      payload.Into? && payloadSize == 0
    }

    /** The body phase of `process_data`: marks the payload and decodes. */
    method ProcessData() returns (ret: Status)
      requires headersEnd <= processedEnd <= |data|
      requires payload.Null? ==> payloadSize == 0
      modifies this`data, this`processedEnd, this`payloadSize, this`payload
      ensures var d := Drain(old(data[processedEnd..]));
              && ret == d.status
              && data == old(data[..processedEnd]) + d.out + d.rest
              && processedEnd == old(processedEnd) + |d.out|
      ensures ret == Ok || ret == Available ==> payloadSize == |data| - headersEnd
      ensures payload == if old(payload.Null? && headersEnd < |data|) then Into else old(payload)
      ensures ret != Ok && !old(Emptied()) ==> !Emptied()
      ensures payload.Null? && ret != Ok ==> payloadSize == 0
      ensures payloadSize == if processedEnd != old(processedEnd) || ret == Ok then |data| - headersEnd
                             else if old(payload.Null? && headersEnd < |data|) then old(|data|) - headersEnd
                             else old(payloadSize)
    {
      hide Drain;
      DrainShape(data[processedEnd..]);
      if payload.Null? && headersEnd < |data| {
        payload := Into;
        payloadSize := |data| - headersEnd;
      }
      ret := ProcessChunkedData();
    }

    /** `bytes` arrive from the network. */
    method Receive(bytes: seq<byte>) returns (ret: Status)
      requires Valid() && |data| + |bytes| < dataSize
      modifies this`data, this`processedEnd, this`payloadSize, this`payload, this`received
      ensures received == old(received) + bytes
      ensures Holds(Drain(received))
      ensures ret == Drain(received).status || (bytes == [] && ret == More && Drain(received).status == Available)
      ensures ret == More || ret == Available ==> Valid()
      ensures ret == Available ==> !payload.Null? && processedEnd == |data| && payloadSize == |data| - headersEnd > 0
      ensures ret == Ok ==> !payload.Null? && payloadSize == |data| - headersEnd
      ensures payload.Stale? == old(payload.Stale?)
      ensures ret != Ok && !old(Emptied()) ==> !Emptied()
      ensures State() == Receives(old(State()), bytes) && ret == Drain(Drain(old(received)).rest + bytes).status
      ensures ret == More && processedEnd == old(processedEnd) && !old(payload.Null?) ==> payloadSize == old(payloadSize)
    {
      hide Drain;
      HeldIs();
      ghost var d := Drain(received);
      DrainMore(received, bytes);
      received := received + bytes;
      data := data + bytes;
      assert data[processedEnd..] == d.rest + bytes;
      ghost var pre, e := data[..processedEnd], Drain(d.rest + bytes);
      assert pre[headersEnd..] == old(data[headersEnd..processedEnd]);
      ret := ProcessData();
      Parts(taken, headersEnd, pre, e.out, e.rest);
      HeldIs();
      assert e.out == [] <==> |e.out| == 0;
    }

    /** The caller hands back the number of payload bytes it has used up. */
    method Consume(n: nat) returns (ok: bool)
      requires Valid()
      requires 0 < n <= payloadSize ==> AtChunk()
      modifies this`data, this`processedEnd, this`payloadSize, this`taken
      ensures Valid()
      ensures ok == (n <= old(payloadSize))
      ensures taken == old(taken) + if ok && n > 0 then old(data[headersEnd..headersEnd + n]) else []
      ensures ok && n > 0 ==> AtChunk() && payloadSize == old(payloadSize) - n
      ensures !ok || n == 0 ==> data == old(data) && payloadSize == old(payloadSize)
      ensures State() == if ok then old(State()).(taken := old(|taken|) + n, payloadSize := old(payloadSize) - n) else old(State())
    {
      hide Drain;
      if n > 0 {
        if n > payloadSize {
          return false;
        }
        payloadSize := payloadSize - n;
        data := data[..headersEnd] + data[headersEnd + n..headersEnd + n + payloadSize];
        processedEnd := headersEnd + payloadSize;
        taken := taken + old(data[headersEnd..headersEnd + n]);
      }
      ok := true;
    }

    /**
      Makes room for GROWTH more bytes, up to the configured limit.  When the block moves, the payload
      pointer is carried over only if the payload is not empty.
     */
    method IncreaseBuffer(moves: bool) returns (ok: bool)
      modifies this`dataSize, this`payload
      ensures ok == (dataSizeMax == 0 || old(dataSize) < dataSizeMax)
      ensures dataSize == if !ok then old(dataSize)
                          else if dataSizeMax == 0 then old(dataSize) + 32768
                          else Min(old(dataSize) + 32768, dataSizeMax)
      ensures payload.Stale? <==> old(payload.Stale?) || (ok && moves && old(Emptied()))
      ensures payload.Null? <==> old(payload.Null?)
    {
      var newSize := dataSize + GROWTH;
      if dataSizeMax != 0 && newSize > dataSizeMax {
        newSize := dataSizeMax;
        if newSize <= dataSize {
          return false;
        }
      }
      if moves && payload.Into? && !(payloadSize > 0) {
        payload := Stale;
      }
      dataSize := newSize;
      ok := true;
    }

    /** The limit is reached and there is no room for another read. */
    ghost predicate Full()
      reads this
    {
      0 < dataSizeMax <= dataSize && dataSize - |data| <= 2
    }

    /** One turn of the read loop: makes room if need be, then reads at most `size` of the bytes on the wire. */
    method ReadMore(wire: seq<byte>, size: nat, moves: bool) returns (ret: Status, rest: seq<byte>)
      requires Valid()
      modifies this
      ensures Suffix(wire, rest)
      ensures received == old(received) + Front(wire, rest) && taken == old(taken)
      ensures Holds(Drain(received))
      ensures ret == More || ret == Available ==> Valid()
      ensures ret == Ok || ret == Available ==>
                !payload.Null? && payloadSize == |data| - headersEnd && Drain(received).status == ret
      ensures ret == Available ==> processedEnd == |data| && payloadSize > 0
      ensures ret == Error <==> Drain(received).status == Error || old(Full())
      ensures ret == Undefined <==> Drain(received).status == Undefined
      ensures old(Full()) ==> rest == wire && data == old(data) && Full()
      ensures Drain(received).status == Ok ==> ret == Ok
      ensures ret != Ok && !old(Emptied()) ==> !Emptied()
      ensures payload.Stale? <==>
                || old(payload.Stale?)
                || (moves && old(Emptied() && dataSize - |data| <= 2) && !(0 < dataSizeMax <= old(dataSize)))
      ensures 0 < size && wire != [] && ret != Error ==> |rest| < |wire|
      ensures !old(Full()) ==> |rest| == |wire| - Min(Min(size, dataSize - old(|data|) - 1), |wire|)
      ensures dataSize == if old(dataSize - |data|) > 2 || old(Full()) then old(dataSize)
                          else if dataSizeMax == 0 then old(dataSize) + GROWTH
                          else Min(old(dataSize) + GROWTH, dataSizeMax)
      ensures ret != Error && |rest| < |wire| ==> ret == Drain(received).status
      ensures Got(State(), ret, rest) == TurnOf(old(State()), wire, size, moves)
      ensures ret == More && processedEnd == old(processedEnd) && !old(payload.Null?) ==> payloadSize == old(payloadSize)
    {
      hide Drain, Suffix, Front, Receives, Amount, Response.Holds;
      HeldIs();
      var room := MakeRoom(moves);
      if !room {
        FrontNone(received, wire);
        return Error, wire;
      }
      AmountIs(wire, size);
      ret, rest := Read(wire, size);
    }

    /** Reads at most `size` of the bytes on the wire, as many as there is room for. */
    method Read(wire: seq<byte>, size: nat) returns (ret: Status, rest: seq<byte>)
      requires Valid() && dataSize - |data| >= 2
      modifies this`data, this`processedEnd, this`payloadSize, this`payload, this`received
      ensures Suffix(wire, rest)
      ensures received == old(received) + Front(wire, rest)
      ensures Holds(Drain(received))
      ensures ret == More || ret == Available ==> Valid()
      ensures ret == Ok || ret == Available ==>
                !payload.Null? && payloadSize == |data| - headersEnd && Drain(received).status == ret
      ensures ret == Available ==> processedEnd == |data| && payloadSize > 0
      ensures ret == Drain(received).status || (|rest| == |wire| && ret == More && Drain(received).status == Available)
      ensures ret != Ok && !old(Emptied()) ==> !Emptied()
      ensures payload.Stale? == old(payload.Stale?)
      ensures var n := Amount(old(State()), wire, size);
              && rest == wire[n..] && State() == Receives(old(State()), wire[..n])
              && ret == Drain(Drain(old(received)).rest + wire[..n]).status
      ensures ret == More && processedEnd == old(processedEnd) && !old(payload.Null?) ==> payloadSize == old(payloadSize)
    {
      hide Drain, Suffix, Front, Receives, Response.Holds;
      HeldIs();
      var n := Min(Min(size, dataSize - |data| - 1), |wire|);
      rest := wire[n..];
      FrontIs(wire, n);
      ret := Receive(wire[..n]);
    }

    lemma AmountIs(wire: seq<byte>, size: nat)
      requires Valid() && dataSize - |data| >= 2
      ensures Amount(State(), wire, size) == Min(Min(size, dataSize - |data| - 1), |wire|)
      ensures size > 0 && wire != [] ==> Amount(State(), wire, size) > 0
    {
      hide Drain, Response.Holds;
      HeldIs();
    }

    /** Grows the buffer if there is no room for a read. */
    method MakeRoom(moves: bool) returns (ok: bool)
      requires Valid()
      modifies this`dataSize, this`payload
      ensures ok == !old(Full()) && Valid()
      ensures !ok ==> State() == old(State())
      ensures ok ==> State() == Grown(old(State()), moves) && dataSize - |data| >= 2
    {
      hide Drain;
      HeldIs();
      ok := true;
      if dataSize - |data| - 1 <= 1 {
        ok := IncreaseBuffer(moves);
      }
    }

    /** Reads until a chunk or the whole body is there, or the network has nothing more to deliver. */
    method ReadLoop(wire: seq<byte>, sizes: seq<nat>, moves: bool) returns (ret: Status, rest: seq<byte>)
      requires Valid()
      modifies this
      ensures Suffix(wire, rest)
      ensures received == old(received) + Front(wire, rest) && taken == old(taken)
      ensures Holds(Drain(received))
      ensures ret == More || ret == Available ==> Valid()
      ensures ret == Ok || ret == Available ==>
                !payload.Null? && payloadSize == |data| - headersEnd && Drain(received).status == ret
      ensures ret == Available ==> processedEnd == |data| && payloadSize > 0
      ensures Drain(received).status == Error ==> ret == Error
      ensures ret == Undefined <==> Drain(received).status == Undefined
      ensures ret == Error ==> Drain(received).status == Error || Full()
      ensures old(Full()) && sizes != [] ==> ret == Error && rest == wire && data == old(data)
      ensures Drain(received).status == Ok ==> ret == Ok
      ensures ret != Ok && !old(Emptied()) ==> !Emptied()
      ensures !old(Emptied()) || !moves ==> payload.Stale? == old(payload.Stale?)
      ensures 0 !in sizes && sizes != [] && wire != [] && ret != Error ==> |rest| < |wire|
      ensures Got(State(), ret, rest) == LoopOf(old(State()), wire, sizes, moves)
    {
      hide Drain, Suffix, Front, LoopOf, TurnOf, Looping, Response.Holds, Response.Emptied, Response.Full, Response.State;
      rest, ret := wire, More;
      FrontNone(received, wire);
      LoopingFirst(State(), wire, sizes, moves);
      ghost var first, bytes, own, buf, emptied, full, stale := State(), received, taken, data, Emptied(), Full(), payload.Stale?;
      for i := 0 to |sizes|
        invariant ret == More && Valid()
        invariant full ==> i == 0 && rest == wire && data == buf && Full()
        invariant Suffix(wire, rest) && |rest| <= |wire|
        invariant received == bytes + Front(wire, rest) && taken == own
        invariant !emptied ==> !Emptied()
        invariant !emptied || !moves ==> payload.Stale? == stale
        invariant Looping(first, wire, sizes, moves, i, State(), rest)
      {
        ghost var before, here := rest, State();
        ret, rest := ReadMore(rest, sizes[i], moves);
        FrontTwice(bytes, wire, before, rest);
        LoopingNext(first, wire, sizes, moves, i, here, before, Got(State(), ret, rest));
        if ret != More {
          return;
        }
      }
      LoopingLast(first, wire, sizes, moves, State(), rest);
    }

    /**
      Gives up `consumed` payload bytes, then reads until a chunk or the whole body is there.  `sizes`
      are the amounts the network delivers, read by read; More is returned only when they run out.
     */
    method GetResponseData(consumed: nat, wire: seq<byte>, sizes: seq<nat>, moves: bool)
      returns (ret: Status, rest: seq<byte>)
      requires Valid()
      requires 0 < consumed <= payloadSize ==> AtChunk()
      modifies this
      ensures Suffix(wire, rest)
      ensures received == old(received) + Front(wire, rest)
      ensures taken == old(taken) + if 0 < consumed <= old(payloadSize) then old(data[headersEnd..headersEnd + consumed]) else []
      ensures Holds(Drain(received))
      ensures ret == More || ret == Available ==> Valid()
      ensures ret == Ok || ret == Available ==>
                !payload.Null? && payloadSize == |data| - headersEnd && Drain(received).status == ret
      ensures ret == Available ==> processedEnd == |data| && payloadSize > 0
      ensures consumed > old(payloadSize) ==> ret == Error && rest == wire && data == old(data)
      ensures Drain(received).status == Error ==> ret == Error
      ensures ret == Undefined <==> Drain(received).status == Undefined
      ensures ret == Error ==> consumed > old(payloadSize) || Drain(received).status == Error || Full()
      ensures old(Full()) && consumed == 0 && sizes != [] ==> ret == Error && rest == wire && data == old(data)
      ensures consumed <= old(payloadSize) && Drain(received).status == Ok ==> ret == Ok
      ensures !old(Emptied()) && (consumed < old(payloadSize) || consumed == 0) ==>
                payload.Stale? == old(payload.Stale?) && (ret != Ok ==> !Emptied())
      ensures !moves ==> payload.Stale? == old(payload.Stale?)
      ensures 0 !in sizes && sizes != [] && wire != [] && consumed <= old(payloadSize) && ret != Error ==>
                |rest| < |wire|
      ensures Got(State(), ret, rest) == CallOf(old(State()), consumed, wire, sizes, moves)
    {
      hide Drain, LoopOf, Response.Holds;
      var ok := Consume(consumed);
      if !ok {
        FrontNone(received, wire);
        return Error, wire;
      }
      ret, rest := ReadLoop(wire, sizes, moves);
    }
  }
}
