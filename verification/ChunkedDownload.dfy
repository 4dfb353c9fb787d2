/** Whole downloads of a chunked body through either client, cut into calls in any way. */
module ChunkedDownload {
  import opened Bytes
  import opened Chunked
  import opened InPlaceDecoder
  import opened InPlaceResponse
  import opened CNumbers
  import opened ChunkText
  import AppendDecoder

  /** What the in-place decoder makes of a part of a well-formed body. */
  lemma PartDecoded(chunks: seq<Chunk>, part: seq<byte>)
    requires IsBody(chunks) && part <= Encode(chunks)
    ensures Drain(part) == Known(chunks, |part|)
    ensures Drain(part).status != Error && Drain(part).status != Undefined
    ensures Drain(part).status == Ok <==> part == Encode(chunks)
    ensures part == Encode(chunks) ==> Drain(part) == Progress(Body(chunks), [], Ok)
  {
    assert part == Encode(chunks)[..|part|];
    DrainKnown(chunks, |part|);
    KnownAll(chunks, |part|);
  }

  /** A client in the middle of a download: `rest` is still on the wire. */
  ghost predicate Downloading(r: Response, chunks: seq<Chunk>, rest: seq<byte>, ret: Status)
    reads r
  {
    && r.Valid() && !r.payload.Stale?
    && r.received + rest == Encode(chunks) && rest != []
    && (ret == More || (ret == Available && r.AtChunk() && r.payloadSize > 0))
  }

  /** Nothing is lost: what was taken and what stands behind the head are what is known, decoded or not. */
  ghost predicate Conserved(r: Response, chunks: seq<Chunk>, rest: seq<byte>, payload: seq<byte>)
    reads r
  {
    && |rest| <= |Encode(chunks)| && r.headersEnd <= |r.data| && payload == r.data[r.headersEnd..]
    && var k := Known(chunks, |Encode(chunks)| - |rest|);
       r.taken + payload == k.out + k.rest
  }

  /** The network delivers something in every call. */
  predicate Lively(calls: seq<seq<nat>>) {
    forall i :: 0 <= i < |calls| ==> calls[i] != [] && 0 !in calls[i]
  }

  /** What the caller takes of a reported payload: at most `most` bytes, leaving at least `leave`. */
  datatype Take = Take(most: nat, leave: nat)

  function Taking(take: Take, payloadSize: nat): (n: nat)
    ensures n <= payloadSize && (n > 0 ==> n + take.leave <= payloadSize)
  {
    if payloadSize <= take.leave then 0 else Min(take.most, payloadSize - take.leave)
  }

  /** One call of the reader: the caller first takes what it will of a reported payload. */
  method Turn(r: Response, ghost chunks: seq<Chunk>, last: Status, wire: seq<byte>, take: Take, sizes: seq<nat>, moves: bool)
    returns (ret: Status, piece: seq<byte>, payload: seq<byte>, rest: seq<byte>)
    requires IsBody(chunks) && Downloading(r, chunks, wire, last)
    modifies r
    ensures r.taken == old(r.taken) + piece && Conserved(r, chunks, rest, payload)
    ensures Got(r.State(), ret, rest) == CallOf(old(r.State()), |piece|, wire, sizes, moves)
    ensures |piece| == Taken(old(r.State()), last, take)
    ensures |piece| == if last == Available then Taking(take, old(r.payloadSize)) else 0
    ensures ret == Ok <==> rest == []
    ensures ret == Ok ==> r.payloadSize == |payload| && r.taken + payload == Body(chunks)
    ensures ret == Available ==> r.taken + payload == Known(chunks, |Encode(chunks)| - |rest|).out
    ensures (ret == More || ret == Available) && !r.payload.Stale? ==> Downloading(r, chunks, rest, ret)
    ensures ret != Undefined && (ret == Error ==> r.Full())
    ensures last == More && old(r.Full()) && sizes != [] ==> ret == Error
    ensures r.payload.Stale? ==> moves && (old(r.Emptied()) || (|piece| > 0 && take.leave == 0))
    ensures ret != Ok && !old(r.Emptied()) && take.leave > 0 ==> !r.Emptied()
    ensures |rest| <= |wire| <= |Encode(chunks)| && (0 !in sizes && sizes != [] && ret != Error ==> |rest| < |wire|)
  {
    hide Drain, Encode, Known, Body, IsBody, Suffix, Front, CallOf;
    var n := 0;
    piece := [];
    if last == Available {
      n := Taking(take, r.payloadSize);
      piece := r.data[r.headersEnd..r.headersEnd + n];
    }
    ret, rest := r.GetResponseData(n, wire, sizes, moves);
    payload := r.data[r.headersEnd..];
    assert payload == r.data[r.headersEnd..r.processedEnd] + r.data[r.processedEnd..];
    WireLeft(chunks, old(r.received), wire, rest);
    Decoded(chunks, r.received, rest, r.taken, r.data[r.headersEnd..r.processedEnd], r.data[r.processedEnd..]);
  }

  /** What the decoder holds of a part of the body, next to what was taken. */
  lemma Decoded(chunks: seq<Chunk>, received: seq<byte>, rest: seq<byte>, taken: seq<byte>, out: seq<byte>, raw: seq<byte>)
    requires IsBody(chunks) && received + rest == Encode(chunks)
    requires taken + out == Drain(received).out && raw == Drain(received).rest
    ensures |rest| <= |Encode(chunks)|
    ensures var k := Known(chunks, |Encode(chunks)| - |rest|);
            && taken + (out + raw) == k.out + k.rest && Drain(received).status == k.status
            && k.status != Error && k.status != Undefined && (k.status == Ok <==> rest == [])
            && (k.status == Ok ==> taken + (out + raw) == Body(chunks))
            && (k.status == Available ==> taken + (out + raw) == k.out)
  {
    hide Drain, Encode, Known, Body, IsBody;
    assert received <= Encode(chunks) && |received| == |Encode(chunks)| - |rest|;
    assert received == Encode(chunks) <==> rest == [];
    PartDecoded(chunks, received);
    DrainShape(received);
    assert taken + (out + raw) == taken + out + raw;
    if raw == [] {
      assert taken + out + [] == taken + out;
    }
  }

  lemma WireLeft(chunks: seq<Chunk>, received: seq<byte>, wire: seq<byte>, rest: seq<byte>)
    requires received + wire == Encode(chunks) && Suffix(wire, rest)
    ensures var now := received + Front(wire, rest);
            && now + rest == Encode(chunks) && now <= Encode(chunks) && |now| == |Encode(chunks)| - |rest|
            && (now == Encode(chunks) <==> rest == [])
  {
    hide Encode;
    assert Front(wire, rest) + rest == wire;
    assert received + Front(wire, rest) + rest == received + wire;
  }

  /** A response whose header has been read. */
  method Begin(head: seq<byte>, size: nat, max: nat, ghost chunks: seq<Chunk>) returns (r: Response)
    requires IsBody(chunks) && 15 <= |head| < size
    ensures fresh(r) && r.taken == [] && Encode(chunks) != [] && Downloading(r, chunks, Encode(chunks), More) && !r.Emptied()
    ensures r.State() == Fresh(head, size, max) && Conserved(r, chunks, Encode(chunks), [])
  {
    PartDecoded(chunks, []);
    hide Drain, Encode, Known, Body, IsBody, Response.Valid;
    r := new Response(head, size, max);
    KnownNothing(chunks);
  }

  /** A limit that leaves room for the head, the whole encoded body and two bytes more, or no limit. */
  predicate Roomy(head: seq<byte>, max: nat, chunks: seq<Chunk>) {
    max == 0 || max >= |head| + |Encode(chunks)| + 2
  }

  /** From the first take on that may empty the payload, no block moves. */
  predicate Careful(takes: seq<Take>, moves: seq<bool>)
    requires |takes| == |moves|
  {
    forall i, j :: 0 <= i <= j < |moves| && moves[j] ==> takes[i].leave > 0
  }

  predicate MovesLater(moves: seq<bool>, i: nat) {
    exists j :: i <= j < |moves| && moves[j]
  }

  lemma CarefulStep(takes: seq<Take>, moves: seq<bool>, i: nat)
    requires |takes| == |moves| && i < |moves|
    ensures MovesLater(moves, i) <==> moves[i] || MovesLater(moves, i + 1)
    ensures Careful(takes, moves) && MovesLater(moves, i) ==> takes[i].leave > 0
  {
  }

  /** A run of calls: it stops when it is done, fails, or has lost the payload pointer. */
  function CallsOf(c: Client, last: Status, wire: seq<byte>, calls: seq<seq<nat>>, takes: seq<Take>, moves: seq<bool>): Got
    requires |takes| == |moves| == |calls|
    decreases |calls|
  {
    if calls == [] then Got(c, last, wire)
    else
      var t := CallOf(c, Taken(c, last, takes[0]), wire, calls[0], moves[0]);
      if Stops(t) then t else CallsOf(t.client, t.ret, t.rest, calls[1..], takes[1..], moves[1..])
  }

  /** Only a reported payload is taken from. */
  function Taken(c: Client, last: Status, take: Take): nat {
    if last == Available && c.payloadSize > 0 then Taking(take, c.payloadSize) else 0
  }

  predicate Stops(t: Got) {
    t.ret == Ok || t.ret == Error || t.client.payload.Stale?
  }

  lemma CallsStep(c: Client, last: Status, wire: seq<byte>, calls: seq<seq<nat>>, takes: seq<Take>, moves: seq<bool>, i: nat)
    requires |takes| == |moves| == |calls| && i <= |calls|
    ensures i == |calls| ==> CallsOf(c, last, wire, calls[i..], takes[i..], moves[i..]) == Got(c, last, wire)
    ensures i < |calls| ==>
              var t := CallOf(c, Taken(c, last, takes[i]), wire, calls[i], moves[i]);
              CallsOf(c, last, wire, calls[i..], takes[i..], moves[i..]) ==
              if Stops(t) then t else CallsOf(t.client, t.ret, t.rest, calls[i + 1..], takes[i + 1..], moves[i + 1..])
  {
    hide CallOf, Taken, Stops;
    if i < |calls| {
      assert calls[i..][1..] == calls[i + 1..] && takes[i..][1..] == takes[i + 1..] && moves[i..][1..] == moves[i + 1..];
    }
  }

  /** A client that has read the head. */
  function Fresh(head: seq<byte>, size: nat, max: nat): Client {
    Client(|head|, max, [], 0, size, Null, 0)
  }

  /**
    Downloads a body through the in-place client, its buffer limited to `max` bytes or, for 0, not at all.
    Each element of `calls` is one call of the reader with the sizes the network then delivers, before it the
    caller takes of a reported payload what `takes` says, and `moves` says whether the block moves if it has to
    grow in the call.  The run stops when it is done, fails, or has lost the payload pointer.
   */
  method DownloadInPlace(head: seq<byte>, size: nat, max: nat, chunks: seq<Chunk>, calls: seq<seq<nat>>, takes: seq<Take>,
                         moves: seq<bool>)
    returns (ret: Status, taken: seq<byte>, payload: seq<byte>, rest: seq<byte>, lost: bool)
    requires IsBody(chunks) && 15 <= |head| < size && |takes| == |moves| == |calls|
    ensures |rest| <= |Encode(chunks)| && var k := Known(chunks, |Encode(chunks)| - |rest|); taken + payload == k.out + k.rest
    ensures ret == Ok <==> rest == []
    ensures ret == Ok ==> taken + payload == Body(chunks)
    ensures ret == Available ==> taken + payload == Known(chunks, |Encode(chunks)| - |rest|).out
    ensures ret != Undefined && (ret == Error ==> 0 < max <= |head| + |payload| + 2)
    ensures Roomy(head, max, chunks) ==> ret != Error
    ensures Careful(takes, moves) ==> !lost
    ensures Lively(calls) && |calls| >= |Encode(chunks)| ==> ret == Ok || ret == Error || lost
    ensures var g := CallsOf(Fresh(head, size, max), More, Encode(chunks), calls, takes, moves);
            ret == g.ret && rest == g.rest && |taken| == g.client.taken && lost == g.client.payload.Stale?
  {
    hide Encode, Known, Body, IsBody, Downloading, Conserved, Careful, MovesLater, CallOf, CallsOf, Taking, Response.Emptied;
    ghost var full := |Encode(chunks)|;
    var r := Begin(head, size, max, chunks);
    rest, taken, payload, ret, lost := Encode(chunks), [], [], More, false;
    assert calls[0..] == calls && takes[0..] == takes && moves[0..] == moves;
    ghost var all := CallsOf(r.State(), ret, rest, calls, takes, moves);
    for i := 0 to |calls|
      invariant fresh(r) && Downloading(r, chunks, rest, ret) && rest != [] && (ret == More || ret == Available)
      invariant !lost && !r.payload.Stale?
      invariant r.taken == taken && Conserved(r, chunks, rest, payload)
      invariant ret == Available ==> |rest| <= full && taken + payload == Known(chunks, full - |rest|).out
      invariant Lively(calls) ==> |rest| + i <= full
      invariant Careful(takes, moves) && MovesLater(moves, i) ==> !r.Emptied()
      invariant all == CallsOf(r.State(), ret, rest, calls[i..], takes[i..], moves[i..])
    {
      CarefulStep(takes, moves, i);
      CallsStep(r.State(), ret, rest, calls, takes, moves, i);
      var piece;
      ret, piece, payload, rest := Turn(r, chunks, ret, rest, takes[i], calls[i], moves[i]);
      taken := taken + piece;
      lost := r.payload.Stale?;
      if ret == Ok || ret == Error || lost {
        Fits(r, chunks, rest, payload);
        return;
      }
    }
    CallsStep(r.State(), ret, rest, calls, takes, moves, |calls|);
    Fits(r, chunks, rest, payload);
  }

  /** What the buffer holds behind the head never exceeds what came off the wire. */
  lemma Fits(r: Response, chunks: seq<Chunk>, rest: seq<byte>, payload: seq<byte>)
    requires IsBody(chunks) && Conserved(r, chunks, rest, payload)
    ensures |rest| <= |Encode(chunks)| && r.taken + payload == Known(chunks, |Encode(chunks)| - |rest|).out + Known(chunks, |Encode(chunks)| - |rest|).rest
    ensures |r.data| == r.headersEnd + |payload| && |payload| + |rest| <= |Encode(chunks)|
  {
    hide Encode, Known, Drain;
    var part := Encode(chunks)[..|Encode(chunks)| - |rest|];
    DrainShape(part);
    DrainKnown(chunks, |part|);
  }

  lemma PartAndMore(part: seq<byte>, all: seq<byte>, more: seq<byte>, m: nat)
    requires part <= all && all[|part|..] == more && m <= |more|
    ensures part + more[..m] == all[..|part| + m]
  {
  }

  /** Reading on: the appending decoder, fed the bytes it kept and `m` more, knows what can be known. */
  lemma AbsorbStep(chunks: seq<Chunk>, n: nat, m: nat)
    requires IsBody(chunks) && n < |Encode(chunks)| && n + m <= |Encode(chunks)|
    ensures var k, k' := Known(chunks, n), Known(chunks, n + m);
            var a := AppendDecoder.Absorb(k.rest + Encode(chunks)[n..n + m]);
            k'.out == k.out + a.out && k'.rest == a.rest && a.ready == (k'.status == Ok) && a.fault == AppendDecoder.Fine
  {
    hide Encode, Known, Left, AppendDecoder.Absorb, IsBody;
    var k, left, more := Known(chunks, n), Left(chunks, n), Encode(chunks)[n..];
    LeftBytes(chunks, n);
    assert more[..m] == Encode(chunks)[n..n + m];
    PartAndMore(k.rest, Encode(left), more, m);
    if k.rest == [] && m == 0 {
      assert k.rest + more[..m] == [];
      AppendDecoder.AbsorbOne([]);
      KnownAll(chunks, n);
    } else {
      KnownResume(chunks, n, m);
      AppendDecoder.AbsorbKnown(left, |k.rest| + m);
    }
  }

  /** A session that has been fed the first `n` bytes of the body. */
  ghost predicate Ingesting(s: AppendDecoder.Session, chunks: seq<Chunk>, n: nat)
    requires n <= |Encode(chunks)|
    reads s
  {
    var k := Known(chunks, n);
    && s.incoming == k.rest && s.body == k.out
    && s.status == (if k.status == Ok then AppendDecoder.Ready else AppendDecoder.ReceivingData)
  }

  method IngestNext(s: AppendDecoder.Session, ghost chunks: seq<Chunk>, ghost n: nat, buffer: seq<byte>)
    requires IsBody(chunks) && n < |Encode(chunks)| && n + |buffer| <= |Encode(chunks)|
    requires buffer == Encode(chunks)[n..n + |buffer|]
    requires Ingesting(s, chunks, n)
    modifies s
    ensures Ingesting(s, chunks, n + |buffer|)
    ensures s.status == AppendDecoder.Ready <==> n + |buffer| == |Encode(chunks)|
  {
    hide Encode, Known, IsBody, AppendDecoder.Absorb;
    KnownAll(chunks, n);
    KnownAll(chunks, n + |buffer|);
    AbsorbStep(chunks, n, |buffer|);
    var result := s.Ingest(buffer);
  }

  /** Downloads a body through the appending client, in reads of any sizes. */
  method DownloadAppend(chunks: seq<Chunk>, sizes: seq<nat>) returns (done: bool, body: seq<byte>, rest: seq<byte>)
    requires IsBody(chunks)
    ensures done <==> rest == []
    ensures |rest| <= |Encode(chunks)| && body == Known(chunks, |Encode(chunks)| - |rest|).out
    ensures done ==> body == Body(chunks)
    ensures 0 !in sizes && |sizes| >= |Encode(chunks)| ==> done
  {
    KnownNothing(chunks);
    var wire := Encode(chunks);
    assert wire != [];
    hide Encode, Known, Body, IsBody, AppendDecoder.Absorb;
    var s := new AppendDecoder.Session();
    assert Ingesting(s, chunks, 0);
    hide Ingesting;
    var pos: nat := 0;
    done := false;
    for i := 0 to |sizes|
      invariant fresh(s) && pos < |wire| && Ingesting(s, chunks, pos)
      invariant 0 !in sizes ==> i <= pos
    {
      var m := Min(sizes[i], |wire| - pos);
      IngestNext(s, chunks, pos, wire[pos..pos + m]);
      pos := pos + m;
      if s.status == AppendDecoder.Ready {
        done := true;
        break;
      }
    }
    KnownAll(chunks, pos);
    IngestedBody(s, chunks, pos);
    body, rest := s.body, wire[pos..];
  }

  lemma IngestedBody(s: AppendDecoder.Session, chunks: seq<Chunk>, n: nat)
    requires n <= |Encode(chunks)| && Ingesting(s, chunks, n)
    ensures s.body == Known(chunks, n).out
  {
  }

  /** However each of them is fed, the two clients end up with the same body, unless the limit of the one is too small or
      its caller lets the payload pointer go. */
  method BothClients(head: seq<byte>, size: nat, max: nat, chunks: seq<Chunk>, calls: seq<seq<nat>>, takes: seq<Take>,
                     moves: seq<bool>, sizes: seq<nat>)
    returns (ret: Status, inPlace: seq<byte>, appended: seq<byte>)
    requires IsBody(chunks) && 15 <= |head| < size && |takes| == |moves| == |calls|
    requires Lively(calls) && |calls| >= |Encode(chunks)| && 0 !in sizes && |sizes| >= |Encode(chunks)|
    ensures appended == Body(chunks)
    ensures ret == Ok ==> inPlace == appended
    ensures ret != Ok ==> (ret == Error && !Roomy(head, max, chunks)) || !Careful(takes, moves)
  {
    var taken, payload, rest, lost;
    ret, taken, payload, rest, lost := DownloadInPlace(head, size, max, chunks, calls, takes, moves);
    inPlace := taken + payload;
    var done;
    done, appended, rest := DownloadAppend(chunks, sizes);
  }

  /** Data printed as a chunked body, in digits of any case and with any leading zeros: on all of it both decoders are done
      and have the data, on any part of it neither is done. */
  lemma PrintedDecoded(ps: seq<Piece>, part: seq<byte>)
    requires (forall i :: 0 <= i < |ps| ==> Printable(ps[i])) && part <= Wire(ps)
    ensures part == Wire(ps) ==>
              Drain(part) == Progress(Joined(ps), [], Ok) && AppendDecoder.Absorb(part) == AppendDecoder.Absorbed(Joined(ps), [], true, AppendDecoder.Fine)
    ensures part != Wire(ps) ==>
              var d, a := Drain(part), AppendDecoder.Absorb(part);
              && (d.status == More || d.status == Available) && d.out <= Joined(ps)
              && a == AppendDecoder.Absorbed(d.out, d.rest, false, AppendDecoder.Fine)
  {
    PrintedBody(ps);
    hide Wire, Chunks, Joined, Encode, Body, IsBody, Drain, AppendDecoder.Absorb, Known;
    PartDecoded(Chunks(ps), part);
    assert part == Encode(Chunks(ps))[..|part|];
    AppendDecoder.AbsorbKnown(Chunks(ps), |part|);
    KnownPrefix(Chunks(ps), |part|);
  }

  lemma {:induction false} KnownPrefix(chunks: seq<Chunk>, n: nat)
    requires n <= |Encode(chunks)|
    ensures Known(chunks, n).out <= Body(chunks)
    decreases |chunks|
  {
    if chunks != [] {
      var c := |EncodeChunk(chunks[0])|;
      if n > c {
        KnownPrefix(chunks[1..], n - c);
      }
    }
  }

  /** Data printed as a chunked body reaches both callers whole, however it is fed to the clients. */
  method DownloadPrinted(head: seq<byte>, size: nat, max: nat, ps: seq<Piece>, calls: seq<seq<nat>>, takes: seq<Take>,
                         moves: seq<bool>, sizes: seq<nat>)
    returns (ret: Status, inPlace: seq<byte>, appended: seq<byte>)
    requires (forall i :: 0 <= i < |ps| ==> Printable(ps[i])) && 15 <= |head| < size && |takes| == |moves| == |calls|
    requires Lively(calls) && |calls| >= |Wire(ps)| && 0 !in sizes && |sizes| >= |Wire(ps)|
    ensures appended == Joined(ps)
    ensures ret == Ok ==> inPlace == Joined(ps)
    ensures ret != Ok ==> (ret == Error && 0 < max < |head| + |Wire(ps)| + 2) || !Careful(takes, moves)
  {
    PrintedBody(ps);
    hide Wire, Joined, Encode, Body, IsBody, Lively, Careful;
    ret, inPlace, appended := BothClients(head, size, max, Chunks(ps), calls, takes, moves, sizes);
  }

  const ONE: Chunk := Chunk([49], [65])
  const TWO: Chunk := Chunk([50], [66, 67])

  lemma SmallBody()
    ensures IsBody([ONE, TWO])
    ensures Encode([ONE, TWO]) == [49, CR, LF, 65, CR, LF] + [50, CR, LF, 66, 67, CR, LF] + LAST_CHUNK
    ensures Known([ONE, TWO], 6) == Progress([65], [], Available)
    ensures Known([ONE, TWO], 11) == Progress([65], [50, CR, LF, 66, 67], More)
  {
    assert [65] + [] == [65];
    assert HexValue([49]) == 1 && HexValue([50]) == 2;
    assert EncodeChunk(ONE) == [49, CR, LF, 65, CR, LF] && EncodeChunk(TWO) == [50, CR, LF, 66, 67, CR, LF];
    assert Encode([ONE, TWO][1..]) == EncodeChunk(TWO) + LAST_CHUNK by {
      assert [ONE, TWO][1..] == [TWO] && [TWO][1..] == [];
    }
  }

  /** The receive buffer of a new client, FLB_HTTP_DATA_SIZE_MAX. */
  const FIRST_SIZE := 4096

  /** A small chunk is reported and all of it is taken. */
  method TakeAll(head: seq<byte>) returns (r: Response)
    requires |head| == FIRST_SIZE - 7
    ensures fresh(r) && r.Valid() && r.Emptied() && r.dataSizeMax == 0
    ensures r.dataSize == FIRST_SIZE && |r.data| == |head| && r.received == [49, CR, LF, 65, CR, LF]
    ensures r.taken == [65] && r.headersEnd == r.processedEnd == |head|
  {
    hide Drain, Encode, Known, IsBody;
    var wire: seq<byte> := [49, CR, LF, 65, CR, LF];
    SmallBody();
    r := new Response(head, FIRST_SIZE, 0);
    var ret, rest := r.ReadMore(wire, 6, true);
    assert r.received == Front(wire, rest) <= wire <= Encode([ONE, TWO]);
    PartDecoded([ONE, TWO], r.received);
    assert rest == [] && r.received == wire;
    var ok := r.Consume(1);
  }

  /** Most of the next chunk arrives and fills the buffer. */
  method FillUp(head: seq<byte>) returns (r: Response)
    requires |head| == FIRST_SIZE - 7
    ensures fresh(r) && r.Valid() && r.Emptied() && r.dataSizeMax == 0 && r.dataSize - |r.data| == 2
    ensures r.received == [49, CR, LF, 65, CR, LF] + [50, CR, LF, 66, 67]
  {
    hide Drain, Encode, Known, IsBody;
    r := TakeAll(head);
    var wire: seq<byte> := [50, CR, LF, 66, 67];
    SmallBody();
    var ret, rest := r.ReadMore(wire, 5, true);
    assert r.received == [49, CR, LF, 65, CR, LF] + Front(wire, rest) <= Encode([ONE, TWO]);
    PartDecoded([ONE, TWO], r.received);
    assert rest == [] && r.received == [49, CR, LF, 65, CR, LF] + wire;
    assert r.taken + r.data[r.headersEnd..r.processedEnd] == [65] && r.data[r.processedEnd..] == wire;
  }

  /**
    A caller that takes the whole payload of a reported chunk can lose the payload pointer: when the
    buffer of a client without a limit then has to grow in the middle of the next chunk and the block moves,
    the pointer is left behind, and the download ends well with the pointer stale.
   */
  method TakingAllLosesPayload(head: seq<byte>) returns (r: Response, ret: Status)
    requires |head| == FIRST_SIZE - 7
    ensures ret == Ok && r.payload.Stale? && r.received == Encode([ONE, TWO])
  {
    hide Drain, Encode, Known, IsBody, Body;
    r := FillUp(head);
    SmallBody();
    ghost var before := r.received;
    var last := [CR, LF] + LAST_CHUNK;
    assert before + last == Encode([ONE, TWO]);
    var rest;
    ret, rest := r.ReadMore(last, 7, true);
    WireLeft([ONE, TWO], before, last, rest);
    PartDecoded([ONE, TWO], r.received);
  }
}
