/**
  The chunked transfer coding of RFC 9112 section 7.1 without extensions or trailers, and what a
  decoder that has seen only part of an encoded body can know.
 */
module Chunked {
  import opened Bytes
  import opened CNumbers

  /** A data chunk: its size as written in the header, and its data. */
  datatype Chunk = Chunk(size: seq<byte>, data: seq<byte>)

  const CRLF: seq<byte> := [CR, LF]
  const LAST_CHUNK: seq<byte> := [ZERO, CR, LF, CR, LF]

  /** Any spelling of the size the in-place decoder has room for: upper or lower case, leading zeros. */
  predicate IsChunk(c: Chunk) {
    && 0 < |c.size| <= 31
    && (forall b :: b in c.size ==> IsHex(b))
    && HexValue(c.size) == |c.data|
    && 0 < |c.data| <= LONG_MAX - 2
  }

  predicate IsBody(chunks: seq<Chunk>) {
    forall i :: 0 <= i < |chunks| ==> IsChunk(chunks[i])
  }

  function EncodeChunk(c: Chunk): seq<byte> {
    c.size + CRLF + c.data + CRLF
  }

  function Encode(chunks: seq<Chunk>): seq<byte> {
    if chunks == [] then LAST_CHUNK else EncodeChunk(chunks[0]) + Encode(chunks[1..])
  }

  /** The body: the data of all chunks. */
  function Body(chunks: seq<Chunk>): seq<byte> {
    if chunks == [] then [] else chunks[0].data + Body(chunks[1..])
  }

  /** What the caller is told; Undefined stands for C arithmetic that has no defined result. */
  datatype Status = More | Error | Ok | Available | Undefined

  /** Decoded bytes, bytes not decoded yet, and what the caller is told. */
  datatype Progress = Progress(out: seq<byte>, rest: seq<byte>, status: Status)

  /** What is known from the first `n` bytes of an encoded body: the data of the chunks that are all there. */
  function Known(chunks: seq<Chunk>, n: nat): Progress
    requires n <= |Encode(chunks)|
    decreases |chunks|
  {
    if chunks == [] then
      if n < |LAST_CHUNK| then Progress([], LAST_CHUNK[..n], More) else Progress([], [], Ok)
    else
      var c := EncodeChunk(chunks[0]);
      if n < |c| then Progress([], c[..n], More)
      else if n == |c| then Progress(chunks[0].data, [], Available)
      else
        var k := Known(chunks[1..], n - |c|);
        Progress(chunks[0].data + k.out, k.rest, k.status)
  }

  /** All of the body is known exactly when all of its encoding is there. */
  lemma {:induction false} KnownAll(chunks: seq<Chunk>, n: nat)
    requires n <= |Encode(chunks)|
    decreases |chunks|
    ensures Known(chunks, n).status != Error && Known(chunks, n).status != Undefined
    ensures Known(chunks, n).status == Ok <==> n == |Encode(chunks)|
    ensures n == |Encode(chunks)| ==> Known(chunks, n) == Progress(Body(chunks), [], Ok)
  {
    if chunks != [] {
      var c := |EncodeChunk(chunks[0])|;
      assert |Encode(chunks)| == c + |Encode(chunks[1..])| > c;
      if n > c {
        KnownAll(chunks[1..], n - c);
      }
    }
  }

  /** The chunks of which the first `n` bytes hold only a part, or nothing. */
  function Left(chunks: seq<Chunk>, n: nat): seq<Chunk>
    requires n <= |Encode(chunks)|
    decreases |chunks|
  {
    if chunks == [] || n < |EncodeChunk(chunks[0])| then chunks else Left(chunks[1..], n - |EncodeChunk(chunks[0])|)
  }

  /** The undecoded bytes are a part of the chunks that are left, and what follows is the rest of them. */
  lemma {:induction false} LeftBytes(chunks: seq<Chunk>, n: nat)
    requires IsBody(chunks) && n < |Encode(chunks)|
    decreases |chunks|
    ensures var rest, left := Known(chunks, n).rest, Left(chunks, n);
            && IsBody(left) && |rest| < |Encode(left)|
            && rest == Encode(left)[..|rest|] && Encode(chunks)[n..] == Encode(left)[|rest|..]
  {
    if chunks != [] {
      var c := EncodeChunk(chunks[0]);
      if n < |c| {
        assert Encode(chunks)[..n] == c[..n];
      } else {
        assert Encode(chunks)[n..] == Encode(chunks[1..])[n - |c|..];
        if n == |c| {
          assert Encode(chunks[1..])[..0] == [] && Encode(chunks[1..])[0..] == Encode(chunks[1..]);
          KnownNothing(chunks[1..]);
        } else {
          LeftBytes(chunks[1..], n - |c|);
        }
      }
    }
  }

  /** More bytes of the same body are known as a longer part of the chunks that were left. */
  lemma {:induction false} KnownResume(chunks: seq<Chunk>, n: nat, m: nat)
    requires IsBody(chunks) && n + m <= |Encode(chunks)| && n < |Encode(chunks)|
    requires Known(chunks, n).rest != [] || m > 0
    decreases |chunks|
    ensures var k, left := Known(chunks, n), Left(chunks, n);
            && |k.rest| + m <= |Encode(left)|
            && var more := Known(left, |k.rest| + m);
               Known(chunks, n + m) == Progress(k.out + more.out, more.rest, more.status)
  {
    hide Known, Encode, EncodeChunk, Left;
    LeftBytes(chunks, n);
    assert |Encode(chunks)[n..]| == |Encode(chunks)| - n;
    if chunks == [] {
      KnownLast(n);
    } else {
      var c, tail := |EncodeChunk(chunks[0])|, chunks[1..];
      KnownCons(chunks, n);
      KnownCons(chunks, n + m);
      if n == c {
        KnownNothing(tail);
      } else if n > c {
        KnownResume(tail, n - c, m);
        var k, left := Known(tail, n - c), Left(tail, n - c);
        var more := Known(left, |k.rest| + m);
        assert chunks[0].data + (k.out + more.out) == chunks[0].data + k.out + more.out;
      }
    }
  }

  lemma KnownCons(chunks: seq<Chunk>, n: nat)
    requires chunks != [] && n <= |Encode(chunks)|
    ensures var c, tail := EncodeChunk(chunks[0]), chunks[1..];
            && |Encode(chunks)| == |c| + |Encode(tail)|
            && (n < |c| ==> Left(chunks, n) == chunks && Known(chunks, n) == Progress([], c[..n], More))
            && (n == |c| ==> Left(chunks, n) == Left(tail, 0) && Known(chunks, n) == Progress(chunks[0].data, [], Available))
            && (n > |c| ==>
                  var k := Known(tail, n - |c|);
                  Left(chunks, n) == Left(tail, n - |c|)
                  && Known(chunks, n) == Progress(chunks[0].data + k.out, k.rest, k.status))
  {
  }

  lemma KnownLast(n: nat)
    requires n < |Encode([])|
    ensures Left([], n) == [] && Known([], n) == Progress([], LAST_CHUNK[..n], More)
  {
  }

  lemma KnownNothing(chunks: seq<Chunk>)
    ensures Left(chunks, 0) == chunks && Known(chunks, 0) == Progress([], [], More)
  {
  }
}
