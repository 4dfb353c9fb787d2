/** What the gzip code asks of the raw deflate library, and the member layout it builds around it. */
module GzipCodec {
  import opened Bytes
  import opened DivMod

  datatype Status = Going | StreamEnd | Failed

  /** One call of the inflater: the new state, what it took of the input and what it gave. */
  datatype Inflated<S> = Inflated(state: S, status: Status, taken: nat, out: seq<byte>)

  /** The library: `pending(s, z, d)` says that in state `s` the bytes `z` are still to be read and the data `d` still
      to be given. */
  datatype Codec<!S> = Codec(
    init: S,
    inflate: (S, seq<byte>, nat) -> Inflated<S>,
    deflate: seq<byte> -> seq<byte>,
    pending: (S, seq<byte>, seq<byte>) -> bool,
    crc32: seq<byte> -> nat,
    fill: nat)

  /** A call never takes more than it was shown, nor gives more than there is room for. */
  ghost predicate Sane<S(!new)>(c: Codec<S>) {
    forall s, input, room :: var r := c.inflate(s, input, room); r.taken <= |input| && |r.out| <= room
  }

  /** What one call does to a well-formed deflate stream of which it sees a part, or the whole and more. */
  ghost predicate StepOk<S(!new)>(c: Codec<S>, s: S, z: seq<byte>, d: seq<byte>, input: seq<byte>, room: nat) {
    var r := c.inflate(s, input, room);
    match r.status
    case Going =>
      && r.taken <= |z| && r.out <= d
      && c.pending(r.state, z[r.taken..], d[|r.out|..])
      && (z <= input && room >= c.fill ==> |r.out| >= c.fill)
      && (input != [] ==> r.taken > 0 || r.out != [])
    case StreamEnd => z <= input && r.taken == |z| && r.out == d
    case Failed => input == [] && z != []
  }

  /** The library inflates what it deflates, however the stream is cut. A call that is shown something takes or gives
      something. It fails only for want of input, and a fresh one shown nothing does fail. A call that sees the whole
      stream gives at least `fill` bytes unless it is the last. */
  ghost predicate Lawful<S(!new)>(c: Codec<S>) {
    && Sane(c)
    && c.fill > 0
    && (forall d :: c.deflate(d) != [] && c.pending(c.init, c.deflate(d), d))
    && (forall room :: room > 0 ==> c.inflate(c.init, [], room).status == Failed)
    && (forall s, z, d, input, room ::
          c.pending(s, z, d) && room > 0 && (input <= z || z <= input) ==> StepOk(c, s, z, d, input, room))
  }

  function Le32(n: nat): (s: seq<byte>)
    requires n < UINT32
    ensures |s| == 4
  {
    [n % 256, n / 256 % 256, n / 65536 % 256, n / 16777216]
  }

  function ReadLe32(p: seq<byte>, i: nat): (n: nat)
    requires i + 4 <= |p|
  {
    var a: nat, b: nat, c: nat, d: nat := p[i], p[i + 1], p[i + 2], p[i + 3];
    a + 256 * b + 65536 * c + 16777216 * d
  }

  lemma Le32Read(n: nat, p: seq<byte>, i: nat)
    requires n < UINT32 && i + 4 <= |p| && p[i..i + 4] == Le32(n)
    ensures ReadLe32(p, i) == n
  {
    var q := p[i..i + 4];
    assert p[i] == q[0] && p[i + 1] == q[1] && p[i + 2] == q[2] && p[i + 3] == q[3];
    var m, k := n / 256, n / 65536;
    DivModSplit(n, 256);
    DivModSplit(m, 256);
    DivModSplit(k, 256);
    DivModIs(n, 65536, m / 256, n % 256 + 256 * (m % 256));
    DivModIs(n, 16777216, k / 256, n % 256 + 256 * (m % 256) + 65536 * (k % 256));
  }

  lemma ReadLe32Back(p: seq<byte>, i: nat)
    requires i + 4 <= |p|
    ensures ReadLe32(p, i) < UINT32 && p[i..i + 4] == Le32(ReadLe32(p, i))
  {
    var n := ReadLe32(p, i);
    var a: nat, b: nat, c: nat, d: nat := p[i], p[i + 1], p[i + 2], p[i + 3];
    DivModIs(n, 256, b + 256 * c + 65536 * d, a);
    DivModIs(b + 256 * c + 65536 * d, 256, c + 256 * d, b);
    DivModIs(n, 65536, c + 256 * d, a + 256 * b);
    DivModIs(c + 256 * d, 256, d, c);
    DivModIs(n, 16777216, d, a + 256 * b + 65536 * c);
  }

  function Crc<S>(c: Codec<S>, s: seq<byte>): (n: nat)
    ensures n < UINT32
  {
    c.crc32(s) % UINT32
  }

  /** The ten bytes the compressor writes: no flags, no time, unknown system. */
  const PLAIN_HEADER: seq<byte> := [0x1F, 0x8B, 8, 0, 0, 0, 0, 0, 0, 0xFF]

  function Footer<S>(c: Codec<S>, d: seq<byte>): (f: seq<byte>)
    ensures |f| == 8
  {
    Le32(Crc(c, d)) + Le32(|d| % UINT32)
  }

  /** Checksum first, lowest bytes first. */
  lemma KnownFooter<S>(c: Codec<S>, d: seq<byte>)
    requires |d| == 0x0102_0304 && c.crc32(d) == 0x1_F1F2_F3F4
    ensures Footer(c, d) == [0xF4, 0xF3, 0xF2, 0xF1, 4, 3, 2, 1]
  {
  }

  /** What the compressor makes of `d`. */
  function Compress<S>(c: Codec<S>, d: seq<byte>): seq<byte> {
    PLAIN_HEADER + c.deflate(d) + Footer(c, d)
  }

  /** Members one after the other. */
  function Stream<S>(c: Codec<S>, ds: seq<seq<byte>>): seq<byte> {
    if ds == [] then [] else Compress(c, ds[0]) + Stream(c, ds[1..])
  }

  // ----- the laws can be met -----

  /** Each byte behind a 1, and a 0 at the end. */
  function Marked(d: seq<byte>): (z: seq<byte>)
    ensures z != []
  {
    if d == [] then [0] else [1, d[0]] + Marked(d[1..])
  }

  /** Reads marked bytes one at a time; the state says whether the mark has been read. */
  function ReadMarked(marked: bool, input: seq<byte>, room: nat): Inflated<bool> {
    if input == [] || room == 0 then Inflated(marked, Failed, 0, [])
    else if marked then Inflated(false, Going, 1, [input[0]])
    else if input[0] == 0 then Inflated(false, StreamEnd, 1, [])
    else if |input| == 1 then Inflated(true, Going, 1, [])
    else Inflated(false, Going, 2, [input[1]])
  }

  predicate MarkedPending(marked: bool, z: seq<byte>, d: seq<byte>) {
    z == if marked then Marked(d)[1..] else Marked(d)
  }

  const MARKED_CODEC: Codec<bool> := Codec(false, ReadMarked, Marked, (s, z, d) => MarkedPending(s, z, d) && (s ==> d != []), s => |s|, 1)

  lemma MarkedLawful()
    ensures Lawful(MARKED_CODEC)
  {
    var c := MARKED_CODEC;
    forall s, z, d, input, room | c.pending(s, z, d) && room > 0 && (input <= z || z <= input)
      ensures StepOk(c, s, z, d, input, room)
    {
      MarkedStep(s, z, d, input, room);
    }
  }

  lemma MarkedStep(s: bool, z: seq<byte>, d: seq<byte>, input: seq<byte>, room: nat)
    requires MarkedPending(s, z, d) && (s ==> d != []) && room > 0 && (input <= z || z <= input)
    ensures StepOk(MARKED_CODEC, s, z, d, input, room)
  {
    if input != [] {
      assert input[0] == z[0];
      if d != [] {
        assert Marked(d)[1..][1..] == Marked(d[1..]) == Marked(d)[2..];
      }
    }
  }
}
