/** flb_gzip_uncompress_multi: one member off the front of the input, and the rest left for the next call. */
module GzipMembers {
  import opened Bytes
  import opened GzipHeader
  import opened GzipCodec

  const BUFFER_SIZE := 1024 * 1024
  const MAX_BUFFERS := 100

  /** The data of one member and the length of what was read. */
  datatype Member = Member(data: seq<byte>, size: nat)

  /** At most `calls` calls of the inflater, each into a new buffer. */
  function InflateAll<S>(c: Codec<S>, s: S, input: seq<byte>, calls: nat): Option<Member>
    decreases calls
  {
    if calls == 0 then None else
    var r := c.inflate(s, input, BUFFER_SIZE);
    if r.taken > |input| then None else
    match r.status
    case StreamEnd => Some(Member(r.out, r.taken))
    case Failed => None
    case Going =>
      match InflateAll(c, r.state, input[r.taken..], calls - 1)
      case None => None
      case Some(m) => Some(Member(r.out + m.data, r.taken + m.size))
  }

  /** The member at the front of `p`, if its header, size and checksum are right. */
  function FirstMember<S>(c: Codec<S>, p: seq<byte>): Option<Member> {
    match Walk(c.crc32, p)
    case None => None
    case Some(start) =>
      match InflateAll(c, c.init, p[start..|p| - 8], MAX_BUFFERS)
      case None => None
      case Some(m) =>
        var foot := start + m.size;
        if foot + 8 > |p| || |m.data| != ReadLe32(p, foot + 4) || Crc(c, m.data) != ReadLe32(p, foot) then None
        else Some(Member(m.data, foot + 8))
  }

  lemma {:induction false} InflateAllSize<S>(c: Codec<S>, s: S, input: seq<byte>, calls: nat)
    ensures InflateAll(c, s, input, calls).Some? ==> InflateAll(c, s, input, calls).value.size <= |input|
    decreases calls
  {
    if calls > 0 {
      var r := c.inflate(s, input, BUFFER_SIZE);
      if r.taken <= |input| {
        InflateAllSize(c, r.state, input[r.taken..], calls - 1);
      }
    }
  }

  /** A member takes at least eighteen bytes off the input, and never more than there are. */
  lemma MemberSize<S>(c: Codec<S>, p: seq<byte>)
    ensures FirstMember(c, p).Some? ==> 18 <= FirstMember(c, p).value.size <= |p|
  {
    match Walk(c.crc32, p)
    case None =>
    case Some(start) => InflateAllSize(c, c.init, p[start..|p| - 8], MAX_BUFFERS);
  }

  // ----- a lawful library gives the data back -----

  lemma {:induction false} InflateAllLawful<S(!new)>(c: Codec<S>, s: S, z: seq<byte>, d: seq<byte>, tail: seq<byte>, calls: nat)
    requires Lawful(c) && c.pending(s, z, d) && c.fill <= BUFFER_SIZE && |d| < calls * c.fill
    ensures InflateAll(c, s, z + tail, calls) == Some(Member(d, |z|))
    decreases calls
  {
    var input := z + tail;
    var r := c.inflate(s, input, BUFFER_SIZE);
    assert z <= input;
    assert StepOk(c, s, z, d, input, BUFFER_SIZE);
    if r.status == Going {
      assert input[r.taken..] == z[r.taken..] + tail;
      assert (calls - 1) * c.fill == calls * c.fill - c.fill;
      InflateAllLawful(c, r.state, z[r.taken..], d[|r.out|..], tail, calls - 1);
      assert d == r.out + d[|r.out|..];
    }
  }

  /** Whatever the size, the calls give the data or nothing, and nothing beyond what the buffers hold. */
  lemma {:induction false} InflateAllOrNothing<S(!new)>(c: Codec<S>, s: S, z: seq<byte>, d: seq<byte>, tail: seq<byte>, calls: nat)
    requires Lawful(c) && c.pending(s, z, d)
    ensures var r := InflateAll(c, s, z + tail, calls);
            r.Some? ==> r == Some(Member(d, |z|)) && |d| <= calls * BUFFER_SIZE
    decreases calls
  {
    if calls > 0 {
      var input := z + tail;
      var r := c.inflate(s, input, BUFFER_SIZE);
      assert z <= input;
      assert StepOk(c, s, z, d, input, BUFFER_SIZE);
      assert (calls - 1) * BUFFER_SIZE == calls * BUFFER_SIZE - BUFFER_SIZE;
      if r.status == Going {
        assert input[r.taken..] == z[r.taken..] + tail;
        InflateAllOrNothing(c, r.state, z[r.taken..], d[|r.out|..], tail, calls - 1);
        assert d == r.out + d[|r.out|..];
      }
    }
  }

  ghost const PLAIN := Header(false, [0, 0, 0, 0, 0, 0xFF], None, None, None, false)

  lemma PlainWalk(crc: seq<byte> -> nat, p: seq<byte>)
    requires PLAIN_HEADER <= p && |p| > 18
    ensures Walk(crc, p) == Some(10)
  {
    assert Format(crc, PLAIN) == PLAIN_HEADER;
    WalkFinds(crc, p, PLAIN);
  }

  lemma FooterRead<S>(c: Codec<S>, d: seq<byte>, p: seq<byte>, i: nat)
    requires i + 8 <= |p| && p[i..i + 8] == Footer(c, d)
    ensures ReadLe32(p, i) == Crc(c, d) && ReadLe32(p, i + 4) == |d| % UINT32
  {
    var f := Footer(c, d);
    assert p[i..i + 4] == p[i..i + 8][..4] == f[..4] == Le32(Crc(c, d));
    assert p[i + 4..i + 8] == p[i..i + 8][4..] == f[4..] == Le32(|d| % UINT32);
    Le32Read(Crc(c, d), p, i);
    Le32Read(|d| % UINT32, p, i + 4);
  }

  /** Data in a member with any header comes back, whatever follows it, and exactly the member is taken. */
  lemma MemberComesBack<S(!new)>(c: Codec<S>, h: Header, d: seq<byte>, tail: seq<byte>)
    requires Lawful(c) && IsHeader(h) && c.fill <= BUFFER_SIZE && |d| < 100 * c.fill
    ensures var member := Format(c.crc32, h) + c.deflate(d) + Footer(c, d);
            FirstMember(c, member + tail) == Some(Member(d, |member|))
  {
    hide InflateAll, Footer, Crc, ReadLe32, Walk, Format;
    var head, z, f := Format(c.crc32, h), c.deflate(d), Footer(c, d);
    var p := head + z + f + tail;
    assert z != [] && c.pending(c.init, z, d);
    assert head <= p;
    WalkFinds(c.crc32, p, h);
    var input := p[|head|..|p| - 8];
    var over := (f + tail)[..|tail|];
    assert input == z + over;
    InflateAllLawful(c, c.init, z, d, over, MAX_BUFFERS);
    assert p[|head| + |z|..|head| + |z| + 8] == f;
    FooterRead(c, d, p, |head| + |z|);
  }

  /** Compressed data comes back, whatever follows it, and exactly the member is taken. */
  lemma CompressedComesBack<S(!new)>(c: Codec<S>, d: seq<byte>, tail: seq<byte>)
    requires Lawful(c) && c.fill <= BUFFER_SIZE && |d| < MAX_BUFFERS * c.fill
    ensures FirstMember(c, Compress(c, d) + tail) == Some(Member(d, |Compress(c, d)|))
  {
    hide InflateAll, Footer, Crc, ReadLe32, Walk;
    var z, f := c.deflate(d), Footer(c, d);
    var p := Compress(c, d) + tail;
    assert z != [] && c.pending(c.init, z, d);
    assert p == PLAIN_HEADER + z + f + tail;
    PlainWalk(c.crc32, p);
    var input := p[10..|p| - 8];
    var over := (f + tail)[..|tail|];
    assert input == z + over;
    InflateAllLawful(c, c.init, z, d, over, MAX_BUFFERS);
    assert p[10 + |z|..10 + |z| + 8] == f;
    FooterRead(c, d, p, 10 + |z|);
  }

  /** Data that the buffers cannot hold is refused; of any data, nothing but the data is ever given out. */
  lemma CompressedOrNothing<S(!new)>(c: Codec<S>, d: seq<byte>, tail: seq<byte>)
    requires Lawful(c)
    ensures var r := FirstMember(c, Compress(c, d) + tail);
            && (r.Some? ==> r == Some(Member(d, |Compress(c, d)|)))
            && (|d| > 100 * 1048576 ==> r == None)
  {
    hide InflateAll, Footer, Crc, ReadLe32, Walk;
    var z, f := c.deflate(d), Footer(c, d);
    var p := Compress(c, d) + tail;
    assert z != [] && c.pending(c.init, z, d);
    assert p == PLAIN_HEADER + z + f + tail;
    PlainWalk(c.crc32, p);
    var over := (f + tail)[..|tail|];
    assert p[10..|p| - 8] == z + over;
    InflateAllOrNothing(c, c.init, z, d, over, MAX_BUFFERS);
  }

  // ----- the loops -----

  /** Runs the inflater, each time into the next of the buffers. */
  method Inflate<S(!new)>(c: Codec<S>, input: seq<byte>, buffers: array<seq<byte>>) returns (ok: bool, used: nat, taken: nat)
    requires Sane(c) && buffers.Length == MAX_BUFFERS
    modifies buffers
    ensures ok == InflateAll(c, c.init, input, MAX_BUFFERS).Some?
    ensures ok ==> used <= MAX_BUFFERS && taken <= |input|
                   && InflateAll(c, c.init, input, MAX_BUFFERS) == Some(Member(Concat(buffers[..used]), taken))
    ensures forall i :: 0 <= i < used <= MAX_BUFFERS ==> |buffers[i]| <= BUFFER_SIZE
  {
    hide InflateAll, Behind, Concat;
    var s, index: nat := c.init, 0;
    taken := 0;
    ghost var whole := InflateAll(c, c.init, input, MAX_BUFFERS);
    assert input[0..] == input && buffers[..0] == [];
    ConcatOne([]);
    InflateUnroll(c, c.init, input, MAX_BUFFERS);
    BehindNothing(whole);
    while true
      invariant index < MAX_BUFFERS && taken <= |input|
      invariant whole == Behind(Concat(buffers[..index]), taken, InflateAll(c, s, input[taken..], MAX_BUFFERS - index))
      invariant forall i :: 0 <= i < index ==> |buffers[i]| <= BUFFER_SIZE
      decreases MAX_BUFFERS - index
    {
      var r := c.inflate(s, input[taken..], BUFFER_SIZE);
      ghost var before := buffers[..index];
      buffers[index] := r.out;
      assert buffers[..index] == before && buffers[..index + 1] == before + [r.out];
      ConcatAppend(before, [r.out]);
      ConcatOne(r.out);
      InflateUnroll(c, s, input[taken..], MAX_BUFFERS - index);
      assert input[taken..][r.taken..] == input[taken + r.taken..];
      if r.status == Failed {
        return false, 0, taken;
      }
      BehindEnd(Concat(before), taken, r);
      BehindStep(Concat(before), taken, r, InflateAll(c, r.state, input[taken + r.taken..], MAX_BUFFERS - index - 1));
      taken := taken + r.taken;
      if r.status == StreamEnd {
        return true, index + 1, taken;
      }
      if index >= MAX_BUFFERS - 1 {
        NoCalls(c, r.state, input[taken..]);
        return false, 0, taken;
      }
      index, s := index + 1, r.state;
    }
  }

  lemma ConcatOne(s: seq<byte>)
    ensures Concat([]) == [] && Concat([s]) == s
  {
  }

  lemma InflateUnroll<S(!new)>(c: Codec<S>, s: S, input: seq<byte>, calls: nat)
    requires Sane(c) && calls > 0
    ensures var r := c.inflate(s, input, BUFFER_SIZE);
            r.taken <= |input| && |r.out| <= BUFFER_SIZE &&
            InflateAll(c, s, input, calls) == match r.status
                                              case Failed => None
                                              case StreamEnd => Some(Member(r.out, r.taken))
                                              case Going => Behind(r.out, r.taken, InflateAll(c, r.state, input[r.taken..], calls - 1))
  {
  }

  lemma NoCalls<S>(c: Codec<S>, s: S, input: seq<byte>)
    ensures InflateAll(c, s, input, 0) == None
  {
  }

  lemma BehindNothing(rest: Option<Member>)
    ensures Behind([], 0, rest) == rest && forall data, taken :: Behind(data, taken, None) == None
  {
    if rest.Some? {
      assert [] + rest.value.data == rest.value.data;
    }
  }

  lemma BehindEnd<S>(data: seq<byte>, taken: nat, r: Inflated<S>)
    ensures Behind(data, taken, Some(Member(r.out, r.taken))) == Some(Member(data + r.out, taken + r.taken))
  {
  }

  /** A member after `data` given and `taken` read. */
  function Behind(data: seq<byte>, taken: nat, rest: Option<Member>): Option<Member> {
    match rest
    case None => None
    case Some(m) => Some(Member(data + m.data, taken + m.size))
  }

  lemma BehindStep<S>(data: seq<byte>, taken: nat, r: Inflated<S>, rest: Option<Member>)
    ensures Behind(data, taken, Behind(r.out, r.taken, rest)) == Behind(data + r.out, taken + r.taken, rest)
  {
    match rest
    case None =>
    case Some(m) => assert data + (r.out + m.data) == data + r.out + m.data;
  }

  /** Joins the buffers. */
  method Join(buffers: array<seq<byte>>, used: nat) returns (out: seq<byte>)
    requires used <= buffers.Length
    ensures out == Concat(buffers[..used])
  {
    out := [];
    for i := 0 to used
      invariant out == Concat(buffers[..i])
    {
      assert buffers[..i + 1] == buffers[..i] + [buffers[i]];
      ConcatAppend(buffers[..i], [buffers[i]]);
      assert Concat([buffers[i]]) == buffers[i];
      out := out + buffers[i];
    }
  }

  /** Takes one member off the front; `remaining` is what is left of the input. */
  method UncompressMulti<S(!new)>(c: Codec<S>, p: seq<byte>) returns (ok: bool, data: seq<byte>, remaining: nat)
    requires Sane(c)
    ensures ok == FirstMember(c, p).Some?
    ensures ok ==> remaining + 18 <= |p| && FirstMember(c, p) == Some(Member(data, |p| - remaining))
  {
    hide InflateAll, Walk, Format, IsHeader, ReadLe32, Crc, Concat;
    ok, data, remaining := false, [], 0;
    MemberSize(c, p);
    var head, start := WalkHeader(c.crc32, p);
    if !head {
      return;
    }
    var buffers := new seq<byte>[MAX_BUFFERS](i => []);
    var done, used, taken := Inflate(c, p[start..|p| - 8], buffers);
    if !done {
      return;
    }
    var foot := start + taken;
    data := Join(buffers, used);
    ok := foot + 8 <= |p| && |data| == ReadLe32(p, foot + 4) && Crc(c, data) == ReadLe32(p, foot);
    if ok {
      remaining := |p| - (foot + 8);
    }
  }

  /** A member that is given out stands between a header by the grammar and the length and checksum of its data. */
  lemma MemberFramed<S>(c: Codec<S>, p: seq<byte>)
    requires FirstMember(c, p).Some?
    ensures var m := FirstMember(c, p).value;
            18 <= m.size <= |p| && |m.data| < UINT32
            && p[m.size - 8..m.size] == Footer(c, m.data)
            && exists h: Header :: IsHeader(h) && Format(c.crc32, h) <= p[..m.size - 8]
  {
    hide InflateAll, Walk, IsHeader, Format, FirstMember, Footer;
    MemberSize(c, p);
    HeaderWithin(c, p);
    FooterWritten(c, p);
  }

  lemma FooterWritten<S>(c: Codec<S>, p: seq<byte>)
    requires FirstMember(c, p).Some? && 18 <= FirstMember(c, p).value.size <= |p|
    ensures var m := FirstMember(c, p).value; |m.data| < UINT32 && p[m.size - 8..m.size] == Footer(c, m.data)
  {
    hide InflateAll, Walk, ReadLe32, Le32, Crc;
    var m := FirstMember(c, p).value;
    var foot := m.size - 8;
    ReadLe32Back(p, foot);
    ReadLe32Back(p, foot + 4);
    assert p[foot..foot + 8] == p[foot..foot + 4] + p[foot + 4..foot + 8];
  }

  lemma HeaderWithin<S>(c: Codec<S>, p: seq<byte>)
    requires FirstMember(c, p).Some? && 18 <= FirstMember(c, p).value.size <= |p|
    ensures exists h: Header :: IsHeader(h) && Format(c.crc32, h) <= p[..FirstMember(c, p).value.size - 8]
  {
    hide InflateAll, Walk, IsHeader, Format, Crc, ReadLe32;
    WalkSound(c.crc32, p);
    assert Format(c.crc32, HeaderAt(c.crc32, p)) <= p[..FirstMember(c, p).value.size - 8];
  }

  /** Peels members off the input until nothing is left, or one does not come off. */
  method UncompressAll<S(!new)>(c: Codec<S>, p: seq<byte>, ghost ds: seq<seq<byte>>) returns (ok: bool, all: seq<seq<byte>>)
    requires Lawful(c) && c.fill <= BUFFER_SIZE
    requires p == Stream(c, ds) && forall i :: 0 <= i < |ds| ==> |ds[i]| < MAX_BUFFERS * c.fill
    ensures ok && all == ds
  {
    hide Compress, FirstMember;
    ok, all := true, [];
    var rest := p;
    assert ds[0..] == ds;
    while ok && rest != []
      invariant ok && |all| <= |ds| && all == ds[..|all|] && rest == Stream(c, ds[|all|..])
      decreases |rest|
    {
      ghost var left := ds[|all|..];
      assert rest == Compress(c, left[0]) + Stream(c, left[1..]);
      assert left[0] == ds[|all|] && left[1..] == ds[|all| + 1..];
      CompressedComesBack(c, left[0], Stream(c, left[1..]));
      var data, remaining;
      ok, data, remaining := UncompressMulti(c, rest);
      if ok {
        assert rest[|rest| - remaining..] == Stream(c, left[1..]);
        rest := rest[|rest| - remaining..];
        all := all + [data];
      }
    }
    StreamLength(c, ds[|all|..]);
  }

  lemma {:induction false} StreamLength<S>(c: Codec<S>, ds: seq<seq<byte>>)
    ensures |Stream(c, ds)| >= 18 * |ds|
  {
    if ds != [] {
      StreamLength(c, ds[1..]);
    }
  }
}
