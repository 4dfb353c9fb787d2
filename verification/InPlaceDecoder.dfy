/** The response reader of flb_http_client.c for a chunked body: it decodes inside its receive buffer. */
module InPlaceDecoder {
  import opened Bytes
  import opened CNumbers
  import opened Chunked

  /** `strstr(s, "\r\n")` on a NUL-terminated buffer: the first CRLF before any NUL, or -1. */
  function FindCrLf(s: seq<byte>): (k: int)
    ensures -1 <= k < |s|
    ensures k >= 0 ==> k + 2 <= |s| && s[k] == CR && s[k + 1] == LF
    ensures k >= 0 ==> forall i :: 0 <= i < k ==> s[i] != NUL && !(s[i] == CR && s[i + 1] == LF)
  {
    if |s| < 2 || s[0] == NUL then -1
    else if s[0] == CR && s[1] == LF then 0
    else
      var k := FindCrLf(s[1..]);
      if k < 0 then -1 else k + 1
  }

  /** Room for the size text in the decoder's temporary buffer. */
  const SIZE_TEXT_MAX := 31

  datatype ChunkScan = Incomplete | Malformed | Overflows | Complete(header: nat, size: nat)

  /** The chunk at the front of `raw`: its header length, CRLF included, and its data size. A size to which the two
      bytes of the CRLF cannot be added in a `long` overflows. */
  function ScanChunk(raw: seq<byte>): (r: ChunkScan)
    ensures r.Complete? ==> r.header >= 3 && r.header + r.size + 2 <= |raw|
  {
    var k := FindCrLf(raw);
    if k < 0 then Incomplete
    else if k > SIZE_TEXT_MAX || k == 0 then Malformed
    else
      var n := Strtol(raw[..k]);
      if n.range || n.value < 0 then Malformed
      else if n.value > LONG_MAX - 2 then Overflows
      else if |raw| - (k + 2) < n.value + 2 then Incomplete
      else if raw[k + 2 + n.value] != CR || raw[k + 2 + n.value + 1] != LF then Malformed
      else if n.value == 0 && (raw[3] != CR || raw[4] != LF) then Malformed
      else Complete(k + 2, n.value)
  }

  /** All the chunks at the front of `raw`, one after the other. */
  function Drain(raw: seq<byte>): (p: Progress)
    decreases |raw|
  {
    match ScanChunk(raw)
    case Incomplete => Progress([], raw, More)
    case Malformed => Progress([], raw, Error)
    case Overflows => Progress([], raw, Undefined)
    case Complete(h, n) =>
      var data, tail := raw[h..h + n], raw[h + n + 2..];
      if n == 0 then Progress(data, tail, Ok)
      else if tail == [] then Progress(data, [], Available)
      else
        var p := Drain(tail);
        Progress(data + p.out, p.rest, p.status)
  }

  lemma {:induction false} DrainShape(raw: seq<byte>)
    ensures Drain([]) == Progress([], [], More)
    ensures Drain(raw).status == Available ==> Drain(raw).rest == [] && Drain(raw).out != []
    ensures |Drain(raw).out| + |Drain(raw).rest| <= |raw|
    decreases |raw|
  {
    hide ScanChunk;
    var scan := ScanChunk(raw);
    assert ScanChunk([]).Incomplete? by { ScanNothing(); }
    if scan.Complete? && scan.size > 0 && raw[scan.header + scan.size + 2..] != [] {
      DrainShape(raw[scan.header + scan.size + 2..]);
    }
  }

  lemma ScanNothing()
    ensures ScanChunk([]) == Incomplete
  {
  }

  // ----- Drain does not care how its input was cut -----

  lemma {:induction false} FindCrLfAppend(a: seq<byte>, b: seq<byte>)
    requires FindCrLf(a) >= 0
    ensures FindCrLf(a + b) == FindCrLf(a)
  {
    if !(a[0] == CR && a[1] == LF) {
      assert (a + b)[1..] == a[1..] + b;
      FindCrLfAppend(a[1..], b);
    }
  }

  lemma ScanChunkAppend(a: seq<byte>, b: seq<byte>)
    requires !ScanChunk(a).Incomplete?
    ensures ScanChunk(a + b) == ScanChunk(a)
  {
    hide Strtol;
    FindCrLfAppend(a, b);
    var k := FindCrLf(a);
    assert (a + b)[..k] == a[..k];
  }

  lemma DrainOne(raw: seq<byte>)
    ensures ScanChunk(raw).Incomplete? ==> Drain(raw) == Progress([], raw, More)
    ensures ScanChunk(raw).Malformed? ==> Drain(raw) == Progress([], raw, Error)
    ensures ScanChunk(raw).Overflows? ==> Drain(raw) == Progress([], raw, Undefined)
    ensures match ScanChunk(raw)
            case Complete(h, n) =>
              var data, tail := raw[h..h + n], raw[h + n + 2..];
              if n == 0 then Drain(raw) == Progress(data, tail, Ok)
              else if tail == [] then Drain(raw) == Progress(data, [], Available)
              else Drain(raw) == Progress(data + Drain(tail).out, Drain(tail).rest, Drain(tail).status)
            case _ => true
  {
  }

  /** `done` has been decoded from the front of `raw` and `tail` is left. */
  ghost predicate Resumes(raw: seq<byte>, done: seq<byte>, tail: seq<byte>) {
    Drain(raw) == Progress(done + Drain(tail).out, Drain(tail).rest, Drain(tail).status)
  }

  lemma ResumesFirst(raw: seq<byte>)
    ensures Resumes(raw, [], raw)
  {
    assert [] + Drain(raw).out == Drain(raw).out;
  }

  /** What is returned at a chunk that is not complete. */
  function StatusOf(scan: ChunkScan): Status
    requires !scan.Complete?
  {
    match scan
    case Incomplete => More
    case Malformed => Error
    case Overflows => Undefined
  }

  lemma ResumesLast(raw: seq<byte>, done: seq<byte>, tail: seq<byte>)
    requires Resumes(raw, done, tail) && !ScanChunk(tail).Complete?
    ensures Drain(raw) == Progress(done, tail, StatusOf(ScanChunk(tail)))
  {
    hide Drain, ScanChunk;
    DrainOne(tail);
    assert done + [] == done;
  }

  /** The next chunk moves over. */
  lemma ResumesNext(raw: seq<byte>, done: seq<byte>, tail: seq<byte>)
    requires Resumes(raw, done, tail) && ScanChunk(tail).Complete?
    ensures var h, n := ScanChunk(tail).header, ScanChunk(tail).size;
            var done', tail' := done + tail[h..h + n], tail[h + n + 2..];
            if n == 0 then Drain(raw) == Progress(done', tail', Ok)
            else if tail' == [] then Drain(raw) == Progress(done', [], Available)
            else Resumes(raw, done', tail')
  {
    hide Drain, ScanChunk;
    DrainOne(tail);
    var h, n := ScanChunk(tail).header, ScanChunk(tail).size;
    var more := Drain(tail[h + n + 2..]).out;
    assert done + (tail[h..h + n] + more) == done + tail[h..h + n] + more;
  }

  /** Decoding in two goes is decoding in one, for any bytes at all. */
  lemma {:induction false} DrainAppend(a: seq<byte>, b: seq<byte>)
    requires Drain(a).status == More || Drain(a).status == Available
    requires Drain(a).rest + b != []
    ensures var d := Drain(a); var e := Drain(d.rest + b);
            Drain(a + b) == Progress(d.out + e.out, e.rest, e.status)
    decreases |a|
  {
    hide ScanChunk, Drain;
    var scan := ScanChunk(a);
    DrainOne(a);
    if scan.Complete? {
      ScanChunkAppend(a, b);
      DrainOne(a + b);
      var h, n := scan.header, scan.size;
      var tail := a[h + n + 2..];
      assert (a + b)[h..h + n] == a[h..h + n];
      assert (a + b)[h + n + 2..] == tail + b;
      if tail == [] {
        assert tail + b == [] + b == b;
      } else {
        DrainAppend(tail, b);
        assert tail + b != [];
        assert Drain(a) == Progress(a[h..h + n] + Drain(tail).out, Drain(tail).rest, Drain(tail).status);
        Assoc(a[h..h + n], Drain(tail).out, Drain(Drain(tail).rest + b).out);
      }
    }
  }

  /** What more bytes add to what was decoded, also when there is nothing to decode. */
  lemma DrainMore(a: seq<byte>, b: seq<byte>)
    requires Drain(a).status == More || Drain(a).status == Available
    ensures var d := Drain(a); var e := Drain(d.rest + b); var x := Drain(a + b);
            && x.out == d.out + e.out && x.rest == e.rest
            && (x.status == e.status || (b == [] && e.status == More && x.status == Available))
            && (e.status == Available ==> e.rest == [] && e.out != []) && |e.out| + |e.rest| <= |d.rest + b|
  {
    hide Drain;
    DrainShape(a);
    DrainShape(Drain(a).rest + b);
    if Drain(a).rest + b != [] {
      DrainAppend(a, b);
    } else {
      assert Drain(a).rest == [] && b == [] && a + b == a;
      assert Drain(a).out + [] == Drain(a).out;
    }
  }

  // ----- Drain on a well-formed body -----

  lemma {:induction false} FindCrLfAfter(digits: seq<byte>, s: seq<byte>)
    requires forall c :: c in digits ==> IsHex(c)
    requires s <= CRLF || CRLF <= s
    ensures FindCrLf(digits + s) == if CRLF <= s then |digits| else -1
  {
    if digits == [] {
      assert digits + s == s;
      if |s| == 1 {
        assert s == CRLF[..1];
      }
    } else {
      assert (digits + s)[1..] == digits[1..] + s;
      assert digits[0] in digits;
      FindCrLfAfter(digits[1..], s);
    }
  }

  lemma ScanWhole(c: Chunk, tail: seq<byte>)
    requires IsChunk(c)
    ensures ScanChunk(EncodeChunk(c) + tail) == Complete(|c.size| + 2, |c.data|)
  {
    var e := EncodeChunk(c);
    ScanHeader(c, c.data + CRLF);
    assert e == c.size + CRLF + (c.data + CRLF);
    assert e[|c.size| + 2 + |c.data|] == CR && e[|c.size| + 2 + |c.data| + 1] == LF;
    ScanChunkAppend(e, tail);
  }

  lemma ScanHeader(c: Chunk, more: seq<byte>)
    requires IsChunk(c)
    ensures var s := c.size + CRLF + more;
            FindCrLf(s) == |c.size| && Strtol(s[..|c.size|]) == Number(|c.data|, |c.size|, false)
  {
    var s := c.size + CRLF + more;
    FindCrLfAfter(c.size, CRLF);
    FindCrLfAppend(c.size + CRLF, more);
    assert s[..|c.size|] == c.size;
    PlainDigits(c.size, c.size);
  }

  lemma ScanPart(c: Chunk, n: nat)
    requires IsChunk(c) && n < |EncodeChunk(c)|
    ensures ScanChunk(EncodeChunk(c)[..n]) == Incomplete
  {
    var part := EncodeChunk(c)[..n];
    if n <= |c.size| {
      assert part == c.size[..n] + [];
      FindCrLfAfter(c.size[..n], []);
    } else if n == |c.size| + 1 {
      assert part == c.size + [CR];
      assert [CR] == CRLF[..1];
      FindCrLfAfter(c.size, [CR]);
    } else {
      var more := (c.data + CRLF)[..n - |c.size| - 2];
      assert part == c.size + CRLF + more;
      ScanHeader(c, more);
    }
  }

  lemma ScanLast(n: nat)
    requires n <= |LAST_CHUNK|
    ensures ScanChunk(LAST_CHUNK[..n]) == if n < |LAST_CHUNK| then Incomplete else Complete(3, 0)
  {
    if n < 3 {
      LastCut(n);
    } else {
      LastHeader(n);
      hide FindCrLf, Strtol;
      var raw := LAST_CHUNK[..n];
      assert FindCrLf(raw) == 1 && raw[..1] == [ZERO];
      if n == |LAST_CHUNK| {
        assert raw[3] == CR && raw[4] == LF;
      }
    }
  }

  lemma LastCut(n: nat)
    requires n < 3
    ensures FindCrLf(LAST_CHUNK[..n]) < 0
  {
    if n < 2 {
      assert LAST_CHUNK[..n] + [] == LAST_CHUNK[..n];
      FindCrLfAfter(LAST_CHUNK[..n], []);
    } else {
      assert LAST_CHUNK[..n] == [ZERO] + [CR] && [CR] == CRLF[..1];
      FindCrLfAfter([ZERO], [CR]);
    }
  }

  lemma LastHeader(n: nat)
    requires 3 <= n <= |LAST_CHUNK|
    ensures FindCrLf(LAST_CHUNK[..n]) == 1 && Strtol([ZERO]) == Number(0, 1, false)
  {
    FindCrLfAfter([ZERO], CRLF);
    FindCrLfAppend([ZERO] + CRLF, LAST_CHUNK[3..n]);
    assert LAST_CHUNK[..n] == [ZERO] + CRLF + LAST_CHUNK[3..n];
    assert HexValue([ZERO]) == 0;
    PlainDigits([ZERO], [ZERO]);
  }

  lemma CutChunk(c: Chunk, tail: seq<byte>)
    requires IsChunk(c)
    ensures var raw, h := EncodeChunk(c) + tail, |c.size| + 2;
            h + |c.data| + 2 <= |raw| && raw[h..h + |c.data|] == c.data && raw[h + |c.data| + 2..] == tail
  {
  }

  /** The first chunk is whole, and the rest is decoded as known. */
  lemma DrainWhole(chunks: seq<Chunk>, n: nat)
    requires IsBody(chunks) && chunks != [] && |EncodeChunk(chunks[0])| <= n <= |Encode(chunks)|
    requires var m := n - |EncodeChunk(chunks[0])|;
             m > 0 ==> m <= |Encode(chunks[1..])| && Drain(Encode(chunks[1..])[..m]) == Known(chunks[1..], m)
    ensures Drain(Encode(chunks)[..n]) == Known(chunks, n)
  {
    hide ScanChunk, Drain, EncodeChunk, Encode, Known;
    var raw, c := Encode(chunks)[..n], EncodeChunk(chunks[0]);
    KnownCons(chunks, n);
    var tail := Encode(chunks[1..])[..n - |c|];
    SplitFirst(chunks, n);
    assert |tail| == n - |c| && |chunks[0].data| > 0;
    DrainOne(raw);
    ScanWhole(chunks[0], tail);
    CutChunk(chunks[0], tail);
  }

  lemma SplitFirst(chunks: seq<Chunk>, n: nat)
    requires chunks != [] && |EncodeChunk(chunks[0])| <= n <= |Encode(chunks)|
    requires |Encode(chunks)| == |EncodeChunk(chunks[0])| + |Encode(chunks[1..])|
    ensures Encode(chunks)[..n] == EncodeChunk(chunks[0]) + Encode(chunks[1..])[..n - |EncodeChunk(chunks[0])|]
  {
    hide EncodeChunk;
    assert Encode(chunks) == EncodeChunk(chunks[0]) + Encode(chunks[1..]);
  }

  /** A size in plain digits is beyond the decoder's arithmetic exactly when it is one of the two largest of its type. */
  lemma SizeLimit(digits: seq<byte>, more: seq<byte>)
    requires 0 < |digits| <= SIZE_TEXT_MAX && (forall b :: b in digits ==> IsHex(b)) && HexValue(digits) <= LONG_MAX
    ensures ScanChunk(digits + CRLF + more).Overflows? <==> HexValue(digits) > LONG_MAX - 2
    ensures HexValue(digits) > LONG_MAX - 2 ==>
              Drain(digits + CRLF + more) == Progress([], digits + CRLF + more, Undefined)
  {
    var s := digits + CRLF + more;
    FindCrLfAfter(digits, CRLF);
    FindCrLfAppend(digits + CRLF, more);
    assert s[..|digits|] == digits;
    PlainDigits(digits, digits);
  }

  const LARGEST: seq<byte> := [55] + Fs(15)

  lemma LargestValue()
    ensures HexValue(LARGEST) == LONG_MAX
  {
    FsBehind([55], 15);
    assert HexValue([55]) == 7 by { assert [55][..0] == []; }
    PowersOf16();
  }

  /** "7FFFFFFFFFFFFFFF" is such a size. */
  lemma LargestSize(more: seq<byte>)
    ensures Drain(LARGEST + CRLF + more).status == Undefined
  {
    LargestValue();
    SizeLimit(LARGEST, more);
  }

  /** On the first `n` bytes of a well-formed body the decoder finds exactly what can be known. */
  lemma {:induction false} DrainKnown(chunks: seq<Chunk>, n: nat)
    requires IsBody(chunks) && n <= |Encode(chunks)|
    ensures Drain(Encode(chunks)[..n]) == Known(chunks, n)
    decreases |chunks|
  {
    hide ScanChunk, Drain, EncodeChunk;
    var raw := Encode(chunks)[..n];
    DrainOne(raw);
    if chunks == [] {
      ScanLast(n);
    } else {
      var c := EncodeChunk(chunks[0]);
      if n < |c| {
        assert raw == c[..n];
        ScanPart(chunks[0], n);
      } else {
        if n > |c| {
          DrainKnown(chunks[1..], n - |c|);
        }
        DrainWhole(chunks, n);
      }
    }
  }
}
