/** The member header of RFC 1952 section 2.3, and the walk over it in flb_gzip.c. */
module GzipHeader {
  import opened Bytes

  const ID1: byte := 0x1F
  const ID2: byte := 0x8B
  const DEFLATED: byte := 8

  /** A header by its fields; `fixed` holds MTIME, XFL and OS. */
  datatype Header = Header(text: bool, fixed: seq<byte>, extra: Option<seq<byte>>, name: Option<seq<byte>>,
                           comment: Option<seq<byte>>, hcrc: bool)

  function Le16(n: nat): (s: seq<byte>)
    requires n < 65536
    ensures |s| == 2
  {
    [n % 256, n / 256]
  }

  function ReadLe16(p: seq<byte>, i: nat): (n: nat)
    requires i + 2 <= |p|
    ensures n < 65536
  {
    var lo: nat, hi: nat := p[i], p[i + 1];
    lo + 256 * hi
  }

  predicate IsHeader(h: Header) {
    && |h.fixed| == 6
    && (h.extra.Some? ==> |h.extra.value| < 65536)
    && (h.name.Some? ==> NUL !in h.name.value)
    && (h.comment.Some? ==> NUL !in h.comment.value)
  }

  function Bit(b: bool, v: byte): byte {
    if b then v else 0
  }

  function Flags(h: Header): (f: byte)
    ensures f < 32
  {
    Bit(h.text, 1) + Bit(h.hcrc, 2) + Bit(h.extra.Some?, 4) + Bit(h.name.Some?, 8) + Bit(h.comment.Some?, 16)
  }

  /** A known header: "ab" as extra field and a checksum, with an arbitrary `crc`. */
  lemma KnownHeader(crc: seq<byte> -> nat)
    requires crc([31, 139, 8, 6, 1, 2, 3, 4, 0, 3, 2, 0, 97, 98]) == 0x1234_5678
    ensures var h := Header(false, [1, 2, 3, 4, 0, 3], Some([97, 98]), None, None, true);
            IsHeader(h) && Format(crc, h) == [31, 139, 8, 6, 1, 2, 3, 4, 0, 3, 2, 0, 97, 98, 0x78, 0x56]
  {
    var h := Header(false, [1, 2, 3, 4, 0, 3], Some([97, 98]), None, None, true);
    assert Unchecked(h) == [31, 139, 8, 6, 1, 2, 3, 4, 0, 3, 2, 0, 97, 98];
  }

  /** The `v` bit of a flag byte. */
  predicate Has(flags: byte, v: byte)
    requires v != 0
  {
    flags / v % 2 == 1
  }

  function BasePart(h: Header): seq<byte> {
    [ID1, ID2, DEFLATED, Flags(h)] + h.fixed
  }

  function ExtraPart(h: Header): seq<byte>
    requires IsHeader(h)
  {
    if h.extra.Some? then Le16(|h.extra.value|) + h.extra.value else []
  }

  function ZeroTerminated(s: Option<seq<byte>>): seq<byte> {
    if s.Some? then s.value + [NUL] else []
  }

  /** The header up to its checksum. */
  function Unchecked(h: Header): seq<byte>
    requires IsHeader(h)
  {
    BasePart(h) + ExtraPart(h) + ZeroTerminated(h.name) + ZeroTerminated(h.comment)
  }

  /** The two low bytes of the CRC32 of the header so far. */
  function HeaderCrc(crc: seq<byte> -> nat, s: seq<byte>): seq<byte> {
    Le16(crc(s) % 65536)
  }

  function Format(crc: seq<byte> -> nat, h: Header): seq<byte>
    requires IsHeader(h)
  {
    Unchecked(h) + if h.hcrc then HeaderCrc(crc, Unchecked(h)) else []
  }

  // ----- the walk -----

  /** The position of the first NUL at or after `i`, or -1. */
  function FindNul(p: seq<byte>, i: nat): (k: int)
    requires i <= |p|
    ensures k == -1 || (i <= k < |p| && p[k] == NUL && NUL !in p[i..k])
    ensures k == -1 ==> NUL !in p[i..]
    decreases |p| - i
  {
    if i == |p| then -1
    else if p[i] == NUL then i
    else
      var k := FindNul(p, i + 1);
      assert k >= 0 ==> p[i..k] == [p[i]] + p[i + 1..k];
      assert p[i..] == [p[i]] + p[i + 1..];
      k
  }

  /** Past the extra field, or None if it does not fit. */
  function SkipExtra(p: seq<byte>, flags: byte): (r: Option<nat>)
    requires |p| >= 18
    ensures r.Some? ==> 10 <= r.value <= |p|
  {
    if !Has(flags, 4) then Some(10)
    else if ReadLe16(p, 10) > |p| - 12 then None
    else Some(10 + ReadLe16(p, 10) + 2)
  }

  /** Past a NUL-terminated field, if the flag says there is one. */
  function SkipText(p: seq<byte>, present: bool, start: nat): (r: Option<nat>)
    requires start <= |p|
    ensures r.Some? ==> start <= r.value <= |p|
  {
    if !present then Some(start)
    else if FindNul(p, start) < 0 then None
    else Some(FindNul(p, start) + 1)
  }

  function SkipCrc(crc: seq<byte> -> nat, p: seq<byte>, present: bool, start: nat): (r: Option<nat>)
    requires start <= |p|
    ensures r.Some? ==> start <= r.value <= |p|
  {
    if !present then Some(start)
    else if start > |p| - 2 || ReadLe16(p, start) != crc(p[..start]) % 65536 then None
    else Some(start + 2)
  }

  /** The length of the header at the front of `p`, if there is one and more than eight bytes follow it. */
  function Walk(crc: seq<byte> -> nat, p: seq<byte>): (r: Option<nat>)
    ensures r.Some? ==> 10 <= r.value < |p| - 8
  {
    if |p| < 18 || p[0] != ID1 || p[1] != ID2 || p[2] != DEFLATED || p[3] >= 32 then None
    else
      var a := SkipExtra(p, p[3]);
      if a.None? then None else
      var b := SkipText(p, Has(p[3], 8), a.value);
      if b.None? then None else
      var c := SkipText(p, Has(p[3], 16), b.value);
      if c.None? then None else
      var d := SkipCrc(crc, p, Has(p[3], 2), c.value);
      if d.None? || |p| - d.value - 8 <= 0 then None else d
  }

  // ----- the walk finds every header -----

  lemma FlagBits(h: Header)
    ensures Has(Flags(h), 1) == h.text && Has(Flags(h), 2) == h.hcrc && Has(Flags(h), 4) == h.extra.Some?
    ensures Has(Flags(h), 8) == h.name.Some? && Has(Flags(h), 16) == h.comment.Some?
  {
  }

  lemma Le16Read(n: nat, p: seq<byte>, i: nat)
    requires n < 65536 && i + 2 <= |p| && p[i..i + 2] == Le16(n)
    ensures ReadLe16(p, i) == n
  {
    assert p[i] == p[i..i + 2][0] && p[i + 1] == p[i..i + 2][1];
  }

  lemma {:induction false} FindNulIs(p: seq<byte>, i: nat, z: nat)
    requires i <= z < |p| && p[z] == NUL && NUL !in p[i..z]
    ensures FindNul(p, i) == z
    decreases z - i
  {
    if i < z {
      assert p[i] == p[i..z][0];
      assert p[i..z] == [p[i]] + p[i + 1..z];
      FindNulIs(p, i + 1, z);
    }
  }

  lemma SkipTextFinds(p: seq<byte>, pre: seq<byte>, s: Option<seq<byte>>)
    requires pre + ZeroTerminated(s) <= p && (s.Some? ==> NUL !in s.value)
    ensures SkipText(p, s.Some?, |pre|) == Some(|pre + ZeroTerminated(s)|)
  {
    if s.Some? {
      var q, z := pre + ZeroTerminated(s), |pre| + |s.value|;
      assert q[|pre|..z] == s.value && q[z] == NUL;
      assert p[|pre|..z] == q[|pre|..z];
      FindNulIs(p, |pre|, z);
    }
  }

  lemma SkipExtraFinds(p: seq<byte>, h: Header)
    requires IsHeader(h) && |p| >= 18 && BasePart(h) + ExtraPart(h) <= p
    ensures SkipExtra(p, Flags(h)) == Some(|BasePart(h) + ExtraPart(h)|)
  {
    FlagBits(h);
    if h.extra.Some? {
      var q := BasePart(h) + ExtraPart(h);
      assert q[10..12] == Le16(|h.extra.value|);
      assert p[10..12] == q[10..12];
      Le16Read(|h.extra.value|, p, 10);
    }
  }

  /** Every formatted header that leaves more than eight bytes is found, and measured exactly. */
  lemma WalkFinds(crc: seq<byte> -> nat, p: seq<byte>, h: Header)
    requires IsHeader(h) && Format(crc, h) <= p && |Format(crc, h)| + 8 < |p|
    ensures Walk(crc, p) == Some(|Format(crc, h)|)
  {
    hide SkipExtra, SkipText, SkipCrc, Has, ExtraPart, ZeroTerminated, HeaderCrc;
    var e := BasePart(h) + ExtraPart(h);
    var n := e + ZeroTerminated(h.name);
    var u := Unchecked(h);
    assert u == n + ZeroTerminated(h.comment);
    assert BasePart(h) <= e <= n <= u <= Format(crc, h) <= p;
    assert p[0] == BasePart(h)[0] && p[1] == BasePart(h)[1] && p[2] == BasePart(h)[2] && p[3] == BasePart(h)[3];
    FlagBits(h);
    SkipExtraFinds(p, h);
    SkipTextFinds(p, e, h.name);
    SkipTextFinds(p, n, h.comment);
    SkipCrcFinds(crc, p, h);
  }

  lemma SkipCrcFinds(crc: seq<byte> -> nat, p: seq<byte>, h: Header)
    requires IsHeader(h) && Format(crc, h) <= p
    ensures |Unchecked(h)| <= |p| && SkipCrc(crc, p, h.hcrc, |Unchecked(h)|) == Some(|Format(crc, h)|)
  {
    var u, f := Unchecked(h), Format(crc, h);
    assert p[..|u|] == u;
    if h.hcrc {
      assert p[|u|..|u| + 2] == f[|u|..] == HeaderCrc(crc, u);
      Le16Read(crc(u) % 65536, p, |u|);
    }
  }

  // ----- whatever the walk accepts is a header -----

  lemma BitsFlag(f: byte)
    requires f < 32
    ensures f == Bit(Has(f, 1), 1) + Bit(Has(f, 2), 2) + Bit(Has(f, 4), 4) + Bit(Has(f, 8), 8) + Bit(Has(f, 16), 16)
  {
  }

  lemma ReadLe16Back(p: seq<byte>, i: nat)
    requires i + 2 <= |p|
    ensures p[i..i + 2] == Le16(ReadLe16(p, i))
  {
  }

  /** The text between `start` and the first NUL, where the walk says there is one. */
  ghost function TextAt(p: seq<byte>, present: bool, start: nat): Option<seq<byte>>
    requires start <= |p| && SkipText(p, present, start).Some?
  {
    if present then Some(p[start..FindNul(p, start)]) else None
  }

  lemma TextAtFormats(p: seq<byte>, present: bool, start: nat)
    requires start <= |p| && SkipText(p, present, start).Some?
    ensures var t, end := TextAt(p, present, start), SkipText(p, present, start).value;
            t.Some? == present && (t.Some? ==> NUL !in t.value) && p[start..end] == ZeroTerminated(t)
  {
  }

  ghost function ExtraAt(p: seq<byte>, flags: byte): Option<seq<byte>>
    requires |p| >= 18 && SkipExtra(p, flags).Some?
  {
    if Has(flags, 4) then Some(p[12..12 + ReadLe16(p, 10)]) else None
  }

  /** The header the walk saw. */
  ghost function HeaderAt(crc: seq<byte> -> nat, p: seq<byte>): (h: Header)
    requires Walk(crc, p).Some?
    ensures IsHeader(h)
  {
    var a := SkipExtra(p, p[3]).value;
    var b := SkipText(p, Has(p[3], 8), a).value;
    TextAtFormats(p, Has(p[3], 8), a);
    TextAtFormats(p, Has(p[3], 16), b);
    Header(Has(p[3], 1), p[4..10], ExtraAt(p, p[3]), TextAt(p, Has(p[3], 8), a), TextAt(p, Has(p[3], 16), b), Has(p[3], 2))
  }

  lemma BaseAtFormats(crc: seq<byte> -> nat, p: seq<byte>)
    requires Walk(crc, p).Some?
    ensures p[..10] == BasePart(HeaderAt(crc, p))
    ensures p[10..SkipExtra(p, p[3]).value] == ExtraPart(HeaderAt(crc, p))
  {
    BitsFlag(p[3]);
    var h := HeaderAt(crc, p);
    assert Flags(h) == p[3];
    assert p[..10] == p[..4] + p[4..10];
    if Has(p[3], 4) {
      ReadLe16Back(p, 10);
      assert p[10..SkipExtra(p, p[3]).value] == p[10..12] + p[12..SkipExtra(p, p[3]).value];
    }
  }

  lemma Slices(p: seq<byte>, i: nat, j: nat, k: nat, l: nat)
    requires i <= j <= k <= l <= |p|
    ensures p[..i] + p[i..j] + p[j..k] + p[k..l] == p[..l]
  {
    assert p[..i] + p[i..j] == p[..j];
    assert p[..j] + p[j..k] == p[..k];
  }

  /** Whatever the walk accepts is a header by the grammar, with its checksum right, and room for a body and a footer. */
  lemma WalkSound(crc: seq<byte> -> nat, p: seq<byte>)
    requires Walk(crc, p).Some?
    ensures Format(crc, HeaderAt(crc, p)) == p[..Walk(crc, p).value]
    ensures Walk(crc, p).value + 8 < |p|
  {
    hide ExtraPart, BasePart, ZeroTerminated, SkipExtra, SkipText, TextAt, ExtraAt, Has;
    var h := HeaderAt(crc, p);
    var a := SkipExtra(p, p[3]).value;
    var b := SkipText(p, Has(p[3], 8), a).value;
    var c := SkipText(p, Has(p[3], 16), b).value;
    BaseAtFormats(crc, p);
    TextAtFormats(p, Has(p[3], 8), a);
    TextAtFormats(p, Has(p[3], 16), b);
    Slices(p, 10, a, b, c);
    assert Unchecked(h) == p[..c];
    if h.hcrc {
      ReadLe16Back(p, c);
      assert p[..c + 2] == p[..c] + p[c..c + 2];
    }
  }

  /** No two headers of the grammar begin the same input, so the header length is well defined. */
  lemma HeaderUnique(crc: seq<byte> -> nat, p: seq<byte>, g: Header, h: Header)
    requires IsHeader(g) && IsHeader(h) && Format(crc, g) <= p && Format(crc, h) <= p
    requires |Format(crc, g)| + 8 < |p| && |Format(crc, h)| + 8 < |p|
    ensures Format(crc, g) == Format(crc, h)
  {
    WalkFinds(crc, p, g);
    WalkFinds(crc, p, h);
  }

  // ----- the loop -----

  /** Skips a NUL-terminated field. */
  method SkipString(p: seq<byte>, at: nat) returns (ok: bool, start: nat)
    requires at <= |p|
    ensures ok == SkipText(p, true, at).Some?
    ensures ok ==> start == SkipText(p, true, at).value
  {
    start := at;
    while true
      invariant at <= start <= |p|
      invariant FindNul(p, at) == FindNul(p, start)
      decreases |p| - start
    {
      if start >= |p| {
        return false, start;
      }
      start := start + 1;
      if p[start - 1] == NUL {
        return true, start;
      }
    }
  }

  /** Walks over the header at the front of the input. */
  method WalkHeader(crc: seq<byte> -> nat, p: seq<byte>) returns (ok: bool, start: nat)
    ensures ok <==> exists h: Header :: IsHeader(h) && Format(crc, h) <= p && |Format(crc, h)| + 8 < |p|
    ensures ok ==> start + 8 < |p| && exists h: Header :: IsHeader(h) && Format(crc, h) == p[..start]
    ensures ok == Walk(crc, p).Some?
    ensures ok ==> start == Walk(crc, p).value
  {
    ok, start := WalkFields(crc, p);
    if ok {
      WalkSound(crc, p);
    } else {
      forall h: Header | IsHeader(h) && Format(crc, h) <= p
        ensures |Format(crc, h)| + 8 >= |p|
      {
        if |Format(crc, h)| + 8 < |p| {
          WalkFinds(crc, p, h);
        }
      }
    }
  }

  method WalkFields(crc: seq<byte> -> nat, p: seq<byte>) returns (ok: bool, start: nat)
    ensures ok == Walk(crc, p).Some?
    ensures ok ==> start == Walk(crc, p).value
  {
    hide SkipExtra, SkipText, SkipCrc, Has;
    ok, start := false, 10;
    if |p| < 18 || p[0] != ID1 || p[1] != ID2 || p[2] != DEFLATED || p[3] >= 32 {
      return;
    }
    var flags := p[3];
    ok, start := WalkExtra(p, flags);
    if !ok {
      return;
    }
    ok, start := WalkText(p, Has(flags, 8), start);
    if !ok {
      return;
    }
    ok, start := WalkText(p, Has(flags, 16), start);
    if !ok {
      return;
    }
    ok, start := WalkCrc(crc, p, Has(flags, 2), start);
    ok := ok && |p| - start - 8 > 0;
  }

  method WalkExtra(p: seq<byte>, flags: byte) returns (ok: bool, start: nat)
    requires |p| >= 18
    ensures ok == SkipExtra(p, flags).Some?
    ensures ok ==> start == SkipExtra(p, flags).value
  {
    ok, start := true, 10;
    if Has(flags, 4) {
      var xlen := ReadLe16(p, start);
      if xlen > |p| - 12 {
        return false, start;
      }
      start := start + xlen + 2;
    }
  }

  method WalkText(p: seq<byte>, present: bool, at: nat) returns (ok: bool, start: nat)
    requires at <= |p|
    ensures ok == SkipText(p, present, at).Some?
    ensures ok ==> start == SkipText(p, present, at).value
  {
    ok, start := true, at;
    if present {
      ok, start := SkipString(p, at);
    }
  }

  method WalkCrc(crc: seq<byte> -> nat, p: seq<byte>, present: bool, at: nat) returns (ok: bool, start: nat)
    requires at <= |p|
    ensures ok == SkipCrc(crc, p, present, at).Some?
    ensures ok ==> start == SkipCrc(crc, p, present, at).value
  {
    ok, start := true, at;
    if present {
      if start > |p| - 2 || ReadLe16(p, start) != crc(p[..start]) % 65536 {
        return false, start;
      }
      start := start + 2;
    }
  }
}
