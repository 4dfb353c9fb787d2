/** The response reader of flb_http_client_http1.c for a chunked body: complete chunks move from the input to the body. */
module AppendDecoder {
  import opened Bytes
  import opened CNumbers
  import opened Chunked

  /** `strchr(s, '\r') != NULL` on a NUL-terminated buffer. */
  predicate HasCr(s: seq<byte>): (b: bool)
    ensures b ==> s != []
  {
    s != [] && s[0] != NUL && (s[0] == CR || HasCr(s[1..]))
  }

  /** Wraps: the bytes needed for a chunk do not fit a `size_t`, and the wrapped number lets a chunk through that is not there. */
  datatype Fault = Fine | Rejected | Wraps

  datatype Absorbed = Absorbed(out: seq<byte>, rest: seq<byte>, ready: bool, fault: Fault)

  /** The length of a chunk with its header and trailer, before it is reduced to a `size_t`. */
  function Needed(n: Number): int {
    n.length + 2 + n.value + 2
  }

  /** `required_size`: the same in a `size_t`. */
  function Required(n: Number): (k: nat)
    ensures 0 <= Needed(n) < ULL_MODULUS ==> k == Needed(n)
  {
    Needed(n) % ULL_MODULUS
  }

  /** What the decoder makes of its input: whole chunks, by their declared sizes alone. */
  function Absorb(raw: seq<byte>): Absorbed
    decreases |raw|
  {
    if raw == [] || !HasCr(raw) then Absorbed([], raw, false, Fine)
    else
      var n := Strtoull(raw);
      var required := Needed(n);
      if n.range then Absorbed([], raw, false, Rejected)
      else if |raw| < Required(n) then Absorbed([], raw, false, Fine)
      else if required >= ULL_MODULUS then Absorbed([], raw, false, Wraps)
      else
        var more := Absorb(raw[required..]);
        Absorbed(raw[n.length + 2..n.length + 2 + n.value] + more.out, more.rest, n.value == 0 || more.ready, more.fault)
  }

  lemma AbsorbOne(raw: seq<byte>)
    ensures Absorb([]) == Absorbed([], [], false, Fine)
    ensures !HasCr(raw) ==> Absorb(raw) == Absorbed([], raw, false, Fine)
    ensures HasCr(raw) ==>
              var n := Strtoull(raw);
              var required := Needed(n);
              && n.value >= 0
              && (n.range ==> Absorb(raw) == Absorbed([], raw, false, Rejected))
              && (!n.range && |raw| < Required(n) ==> Absorb(raw) == Absorbed([], raw, false, Fine))
              && (!n.range && Required(n) <= |raw| && required >= ULL_MODULUS ==>
                    Absorb(raw) == Absorbed([], raw, false, Wraps))
              && (!n.range && Required(n) <= |raw| && required < ULL_MODULUS ==>
                    && required <= |raw|
                    && var more := Absorb(raw[required..]);
                       Absorb(raw) == Absorbed(raw[n.length + 2..n.length + 2 + n.value] + more.out, more.rest,
                                               n.value == 0 || more.ready, more.fault))
  {
    hide HasCr, Strtoull, Required;
  }

  /** A chunk size in plain digits wraps exactly when the chunk with header and trailer is too long for a `size_t`. */
  lemma SizeLimit(digits: seq<byte>, more: seq<byte>)
    requires digits != [] && (forall b :: b in digits ==> IsHex(b)) && HexValue(digits) < ULL_MODULUS
    requires |digits| + |more| + 4 < ULL_MODULUS
    ensures var raw := digits + CRLF + more;
            Absorb(raw).fault == Wraps && Absorb(raw).rest == raw <==>
              HexValue(digits) + |digits| + 4 >= ULL_MODULUS && |raw| >= HexValue(digits) + |digits| + 4 - ULL_MODULUS
  {
    hide Absorb, HasCr, Strtoull;
    var raw := digits + CRLF + more;
    assert raw == digits + (CRLF + more);
    HasCrAfter(digits, CRLF + more);
    LongDigits(digits, raw);
    AbsorbOne(raw);
    AbsorbShrinks(raw);
  }

  /** Sixteen Fs, the largest size that can be read, wrap as soon as one byte follows their line. */
  lemma LargestSize(more: seq<byte>)
    requires 0 < |more| < LONG_MAX
    ensures Absorb(Fs(16) + CRLF + more).fault == Wraps
  {
    hide Absorb;
    FsBehind([], 16);
    PowersOf16();
    assert [] + Fs(16) == Fs(16);
    SizeLimit(Fs(16), more);
  }

  lemma LongDigits(digits: seq<byte>, s: seq<byte>)
    requires digits != [] && (forall c :: c in digits ==> IsHex(c)) && HexValue(digits) < ULL_MODULUS
    requires digits + CRLF <= s
    ensures Strtoull(s) == Number(HexValue(digits), |digits|, false)
  {
    assert forall k :: 0 <= k < |digits| ==> s[k] == (digits + CRLF)[k] == digits[k] && digits[k] in digits;
    assert s[|digits|] == (digits + CRLF)[|digits|] == CR;
    assert DigitsStart(s) == (false, 0);
    var end := DigitsEnd(s, 0);
    assert end == |digits|;
    assert s[0..end] == digits;
  }

  /** A whole chunk leaves less to decode. */
  lemma {:induction false} AbsorbShrinks(raw: seq<byte>)
    ensures |Absorb(raw).rest| <= |raw|
    ensures HasCr(raw) && !Strtoull(raw).range && Needed(Strtoull(raw)) <= |raw| && Needed(Strtoull(raw)) < ULL_MODULUS ==>
              |Absorb(raw).rest| < |raw|
    decreases |raw|
  {
    hide HasCr, Strtoull, Absorb;
    AbsorbOne(raw);
    if HasCr(raw) {
      var n := Strtoull(raw);
      var required := Needed(n);
      if !n.range && Required(n) <= |raw| && required < ULL_MODULUS {
        AbsorbShrinks(raw[required..]);
      }
    }
  }

  // ----- Absorb on a well-formed body -----

  lemma {:induction false} HasCrAfter(digits: seq<byte>, s: seq<byte>)
    requires forall c :: c in digits ==> IsHex(c)
    requires s == [] || s[0] == CR
    ensures HasCr(digits + s) <==> s != []
  {
    if digits == [] {
      assert digits + s == s;
    } else {
      assert digits[0] in digits && (digits + s)[1..] == digits[1..] + s;
      HasCrAfter(digits[1..], s);
    }
  }

  /** The chunk at the front of the input, all of it or a part. */
  lemma HeaderKnown(size: seq<byte>, s: seq<byte>)
    requires size != [] && (forall b :: b in size ==> IsHex(b)) && HexValue(size) <= LONG_MAX
    requires size + CRLF <= s || s <= size + CRLF
    ensures HasCr(s) <==> |s| > |size|
    ensures |s| > |size| ==> Strtoull(s) == Number(HexValue(size), |size|, false)
  {
    if |s| <= |size| {
      assert s == size[..|s|] + [];
      HasCrAfter(size[..|s|], []);
    } else {
      assert s[|size|] == (size + CRLF)[|size|] == CR;
      assert s == size + s[|size|..];
      HasCrAfter(size, s[|size|..]);
      PlainDigits(size, s);
    }
  }

  lemma AbsorbWhole(c: Chunk, tail: seq<byte>)
    requires IsChunk(c)
    ensures var more := Absorb(tail);
            Absorb(EncodeChunk(c) + tail) == Absorbed(c.data + more.out, more.rest, more.ready, more.fault)
  {
    hide Absorb, HasCr, Strtoull, Required, HexValue;
    var raw := EncodeChunk(c) + tail;
    assert raw == c.size + CRLF + (c.data + CRLF + tail);
    HeaderKnown(c.size, raw);
    assert Needed(Strtoull(raw)) == |EncodeChunk(c)| <= |raw|;
    AbsorbOne(raw);
    assert raw[|EncodeChunk(c)|..] == tail;
    assert raw[|c.size| + 2..|c.size| + 2 + |c.data|] == c.data;
  }

  lemma AbsorbPart(c: Chunk, n: nat)
    requires IsChunk(c) && n < |EncodeChunk(c)|
    ensures Absorb(EncodeChunk(c)[..n]) == Absorbed([], EncodeChunk(c)[..n], false, Fine)
  {
    hide Absorb, HasCr, Strtoull;
    assert EncodeChunk(c) == c.size + CRLF + (c.data + CRLF);
    HeaderKnown(c.size, EncodeChunk(c)[..n]);
    AbsorbOne(EncodeChunk(c)[..n]);
  }

  lemma AbsorbLast(n: nat)
    requires n <= |LAST_CHUNK|
    ensures Absorb(LAST_CHUNK[..n]) == if n < |LAST_CHUNK| then Absorbed([], LAST_CHUNK[..n], false, Fine)
                                       else Absorbed([], [], true, Fine)
  {
    hide Absorb, HasCr, Strtoull;
    assert HexValue([ZERO]) == 0;
    HeaderKnown([ZERO], LAST_CHUNK[..n]);
    AbsorbOne(LAST_CHUNK[..n]);
    assert LAST_CHUNK[..5][5..] == [];
  }

  /** On the first `n` bytes of a well-formed body the decoder finds exactly what can be known. */
  lemma {:induction false} AbsorbKnown(chunks: seq<Chunk>, n: nat)
    requires IsBody(chunks) && n <= |Encode(chunks)|
    ensures var k := Known(chunks, n);
            Absorb(Encode(chunks)[..n]) == Absorbed(k.out, k.rest, k.status == Ok, Fine)
    decreases |chunks|
  {
    hide Absorb;
    var raw := Encode(chunks)[..n];
    if chunks == [] {
      AbsorbLast(n);
    } else {
      var e := EncodeChunk(chunks[0]);
      if n < |e| {
        assert raw == e[..n];
        AbsorbPart(chunks[0], n);
      } else {
        var tail := Encode(chunks[1..])[..n - |e|];
        assert raw == e + tail;
        AbsorbWhole(chunks[0], tail);
        AbsorbOne([]);
        if n > |e| {
          AbsorbKnown(chunks[1..], n - |e|);
        }
      }
    }
  }

  /** OutOfModel: the source would go on with a wrapped length; nothing is claimed of what follows. */
  datatype StreamStatus = ReceivingData | Ready | Failed | OutOfModel

  function StatusAfter(p: Absorbed): StreamStatus {
    match p.fault
    case Fine => if p.ready then Ready else ReceivingData
    case Rejected => Failed
    case Wraps => OutOfModel
  }

  /** The body so far is `done`, perhaps with the last chunk behind it, and `raw` is left: `all` is how it will end. */
  ghost predicate Resumes(all: Absorbed, done: seq<byte>, ready: bool, raw: seq<byte>) {
    var p := Absorb(raw);
    all == Absorbed(done + p.out, p.rest, ready || p.ready, p.fault)
  }

  /** How a body ends to which everything in `raw` is added. */
  ghost function Onto(done: seq<byte>, raw: seq<byte>): Absorbed {
    Absorb(raw).(out := done + Absorb(raw).out)
  }

  lemma ResumesFirst(done: seq<byte>, raw: seq<byte>)
    ensures Resumes(Onto(done, raw), done, false, raw)
  {
  }

  lemma ResumesEnd(all: Absorbed, done: seq<byte>, ready: bool)
    requires Resumes(all, done, ready, [])
    ensures all == Absorbed(done, [], ready, Fine)
  {
    AbsorbOne([]);
    assert done + [] == done;
  }

  /** No chunk comes off the front. */
  lemma ResumesLast(all: Absorbed, done: seq<byte>, ready: bool, raw: seq<byte>)
    requires Resumes(all, done, ready, raw)
    ensures var n := Strtoull(raw);
            && (!HasCr(raw) || (!n.range && |raw| < Required(n)) ==> all == Absorbed(done, raw, ready, Fine))
            && (HasCr(raw) && n.range ==> all == Absorbed(done, raw, ready, Rejected))
            && (HasCr(raw) && !n.range && Required(n) <= |raw| && Needed(n) >= ULL_MODULUS ==>
                  all == Absorbed(done, raw, ready, Wraps))
  {
    hide Absorb, HasCr, Strtoull, Required;
    AbsorbOne(raw);
    assert done + [] == done;
  }

  /** The data of the chunk at the front, where there is one. */
  ghost function ChunkOf(raw: seq<byte>): seq<byte> {
    var n := Strtoull(raw);
    if 0 <= n.value && n.length + 2 + n.value <= |raw| then raw[n.length + 2..n.length + 2 + n.value] else []
  }

  /** A chunk comes off the front. */
  lemma ResumesNext(all: Absorbed, done: seq<byte>, ready: bool, raw: seq<byte>)
    requires Resumes(all, done, ready, raw) && HasCr(raw) && !Strtoull(raw).range
    requires Required(Strtoull(raw)) <= |raw| && Needed(Strtoull(raw)) < ULL_MODULUS
    ensures var n := Strtoull(raw);
            && 0 < Required(n) && n.length + 2 + n.value <= Required(n)
            && |ChunkOf(raw)| == n.value
            && ChunkOf(raw) == raw[n.length + 2..n.length + 2 + n.value]
            && Resumes(all, done + ChunkOf(raw), ready || n.value == 0, raw[Required(n)..])
  {
    hide Absorb, HasCr, Strtoull;
    var n := Strtoull(raw);
    AbsorbOne(raw);
    var more := Absorb(raw[Required(n)..]).out;
    assert done + (ChunkOf(raw) + more) == done + ChunkOf(raw) + more;
  }

  class Session {
    var incoming: seq<byte>
    var body: seq<byte>
    var bodyReadOffset: nat
    var status: StreamStatus

    constructor ()
      ensures incoming == [] && body == [] && bodyReadOffset == 0 && status == ReceivingData
    {
      incoming, body, bodyReadOffset, status := [], [], 0, ReceivingData;
    }

    /** `cfl_sds_shift_left`. */
    method ShiftLeft(positions: nat)
      modifies this`incoming
      ensures incoming == if positions < old(|incoming|) then old(incoming)[positions..] else []
    {
      var remainder := 0;
      if positions < |incoming| {
        remainder := |incoming| - positions;
        incoming := incoming[positions..];
      }
      incoming := incoming[..remainder];
    }

    /** A whole chunk moves to the body, or ends it. */
    method TakeChunk(n: Number, required: nat)
      requires 0 <= n.value && n.length + 2 + n.value <= required <= |incoming|
      modifies this
      ensures incoming == old(incoming)[required..] && bodyReadOffset == old(bodyReadOffset) + required
      ensures body == old(body) + old(incoming)[n.length + 2..n.length + 2 + n.value]
      ensures status == if n.value == 0 then Ready else old(status)
    {
      if n.value > 0 {
        body := body + incoming[n.length + 2..n.length + 2 + n.value];
      } else {
        status := Ready;
      }
      ShiftLeft(required);
      bodyReadOffset := bodyReadOffset + required;
    }

    method ProcessData() returns (result: int)
      requires status == ReceivingData
      modifies this
      ensures var p := Absorb(old(incoming));
              && incoming == p.rest && body == old(body) + p.out
              && status == StatusAfter(p) && result == (if p.fault == Fine then 0 else -1)
              && bodyReadOffset == old(bodyReadOffset) + old(|incoming|) - |p.rest|
    {
      hide Absorb, Strtoull, HasCr, Required, Needed, Resumes, ChunkOf;
      ghost var all, ends := Onto(body, incoming), bodyReadOffset + |incoming|;
      ResumesFirst(body, incoming);
      var bodyRemainder := |incoming|;
      while bodyRemainder > 0
        invariant bodyRemainder == |incoming| && (status == ReceivingData || status == Ready)
        invariant Resumes(all, body, status == Ready, incoming)
        invariant bodyReadOffset == ends - |incoming|
        decreases bodyRemainder
      {
        ResumesLast(all, body, status == Ready, incoming);
        if !HasCr(incoming) {
          return 0;
        }
        var n := Strtoull(incoming);
        if n.range {
          status := Failed;
          return -1;
        }
        var required := Required(n);
        if bodyRemainder < required {
          return 0;
        }
        if Needed(n) >= ULL_MODULUS {
          status := OutOfModel;
          return -1;
        }
        ResumesNext(all, body, status == Ready, incoming);
        TakeChunk(n, required);
        bodyRemainder := bodyRemainder - required;
      }
      ResumesEnd(all, body, status == Ready);
      return 0;
    }

    /** Bytes arrive from the network. */
    method Ingest(buffer: seq<byte>) returns (result: int)
      modifies this
      ensures old(status) != ReceivingData ==>
                incoming == old(incoming) + buffer && body == old(body) && status == old(status) && result == 0
      ensures old(status) == ReceivingData ==>
                var p := Absorb(old(incoming) + buffer);
                && incoming == p.rest && body == old(body) + p.out
                && status == StatusAfter(p) && result == (if p.fault == Fine then 0 else -1)
    {
      hide Absorb;
      incoming := incoming + buffer;
      result := 0;
      if status == ReceivingData {
        result := ProcessData();
      }
    }
  }
}
