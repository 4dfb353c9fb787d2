/** What the stateful decompressor makes of member headers with optional fields, which it skips with sixteen-bit lengths. */
module GzipFlagged {
  import opened Bytes
  import opened GzipCodec
  import opened GzipStages
  import GzipHeader

  function CrcPart(crc: seq<byte> -> nat, h: GzipHeader.Header): seq<byte>
    requires GzipHeader.IsHeader(h)
  {
    if h.hcrc then GzipHeader.HeaderCrc(crc, GzipHeader.Unchecked(h)) else []
  }

  /** The fields behind the ten bytes that every header has. */
  function Fields(crc: seq<byte> -> nat, h: GzipHeader.Header): seq<byte>
    requires GzipHeader.IsHeader(h)
  {
    GzipHeader.ExtraPart(h) + GzipHeader.ZeroTerminated(h.name) + GzipHeader.ZeroTerminated(h.comment)
    + CrcPart(crc, h)
  }

  lemma BaseLength(h: GzipHeader.Header)
    requires GzipHeader.IsHeader(h)
    ensures |GzipHeader.BasePart(h)| == 10
  {
  }

  lemma FormatSplits(crc: seq<byte> -> nat, h: GzipHeader.Header)
    requires GzipHeader.IsHeader(h)
    ensures GzipHeader.Format(crc, h) == GzipHeader.BasePart(h) + Fields(crc, h) && |GzipHeader.BasePart(h)| == 10
  {
    BaseLength(h);
    hide GzipHeader.BasePart, GzipHeader.ExtraPart, GzipHeader.ZeroTerminated, GzipHeader.HeaderCrc;
    Regroup(GzipHeader.BasePart(h), GzipHeader.ExtraPart(h), GzipHeader.ZeroTerminated(h.name), GzipHeader.ZeroTerminated(h.comment),
            CrcPart(crc, h));
  }

  lemma Regroup(a: seq<byte>, b: seq<byte>, c: seq<byte>, d: seq<byte>, e: seq<byte>)
    ensures a + b + c + d + e == a + (b + c + d + e)
  {
  }

  /** A flag is cleared when its field has been skipped. */
  lemma ClearFlag(h: GzipHeader.Header)
    ensures var b := GzipHeader.BasePart(h); var f := GzipHeader.Flags(h);
            && (h.extra.Some? ==> f >= 4 && b[3 := f - 4] == GzipHeader.BasePart(h.(extra := None)))
            && (h.name.Some? ==> f >= 8 && b[3 := f - 8] == GzipHeader.BasePart(h.(name := None)))
            && (h.comment.Some? ==> f >= 16 && b[3 := f - 16] == GzipHeader.BasePart(h.(comment := None)))
            && (h.hcrc ==> f >= 2)
  {
  }

  /** The decompressor at the fields of `h`, those before them skipped. */
  ghost predicate At<S>(f: Conf<S>, h: GzipHeader.Header) {
    f.stage == ExpectOptional && GzipHeader.IsHeader(h) && f.header == GzipHeader.BasePart(h) && f.window != []
  }

  lemma AtFlags<S>(f: Conf<S>, h: GzipHeader.Header)
    requires At(f, h)
    ensures Has(f, 2) == h.hcrc && Has(f, 4) == h.extra.Some? && Has(f, 8) == h.name.Some? && Has(f, 16) == h.comment.Some?
    ensures |f.header| == 10 && f.header[3] == GzipHeader.Flags(h) && !Starved(f)
  {
    hide GzipHeader.Has, GzipHeader.Flags;
    GzipHeader.FlagBits(h);
  }

  predicate ShortExtra(h: GzipHeader.Header) {
    h.extra.Some? ==> |h.extra.value| < 65534
  }

  /** Past the extra field: all of it, unless the length overflows its sixteen bits. */
  lemma {:induction false} PastExtra<S>(f: Conf<S>, h: GzipHeader.Header, tail: seq<byte>)
    requires At(f, h) && f.window == GzipHeader.ExtraPart(h) + tail && tail != []
    ensures var r := SkipExtra(f);
            && r.Done? && At(r.conf, h.(extra := None)) && r.conf.s == f.s
            && |r.conf.window| == |tail| + (if h.extra.Some? && |h.extra.value| >= 65534 then 65536 else 0)
            && (ShortExtra(h) ==> r.conf.window == tail)
  {
    if h.extra.Some? {
      ExtraSome(f, h, tail);
      ExtraShape(h, tail);
      hide *;
    } else {
      ExtraNone(f, h);
      assert [] + tail == tail;
    }
  }

  lemma {:induction false} ExtraNone<S>(f: Conf<S>, h: GzipHeader.Header)
    requires At(f, h) && h.extra.None?
    ensures SkipExtra(f) == Done(f) && h.(extra := None) == h
  {
    AtFlags(f, h);
    hide Has;
  }

  lemma {:induction false} ExtraSkips<S>(f: Conf<S>, h: GzipHeader.Header, n: nat)
    requires At(f, h) && h.extra.Some? && 2 + n < |f.window| && GzipHeader.ReadLe16(f.window, 0) == n
    ensures Has(f, 4) && SkipExtra(f) == Done(Skip(f, Low16(2 + n), 4))
  {
    AtFlags(f, h);
    hide Has, GzipHeader.ReadLe16, Low16, Starved, At, Skip;
  }

  lemma {:induction false} ExtraSome<S>(f: Conf<S>, h: GzipHeader.Header, tail: seq<byte>)
    requires At(f, h) && f.window == GzipHeader.ExtraPart(h) + tail && tail != [] && h.extra.Some?
    ensures var r := SkipExtra(f);
            && r.Done? && At(r.conf, h.(extra := None)) && r.conf.s == f.s
            && |r.conf.window| == |tail| + (if |h.extra.value| >= 65534 then 65536 else 0)
            && (ShortExtra(h) ==> r.conf.window == tail)
  {
    var n := |h.extra.value|;
    AtFlags(f, h);
    ClearFlag(h);
    ExtraShape(h, tail);
    ExtraLength(n);
    ExtraSkips(f, h, n);
    hide Has, GzipHeader.Flags, GzipHeader.ReadLe16, GzipHeader.ExtraPart, GzipHeader.BasePart, Low16, Starved, SkipExtra;
  }

  lemma ExtraLength(n: nat)
    requires n < 65536
    ensures Low16(2 + n) == if n < 65534 then 2 + n else n - 65534
  {
  }

  /** The length in front of an extra field, and what stands behind it. */
  lemma ExtraShape(h: GzipHeader.Header, tail: seq<byte>)
    requires GzipHeader.IsHeader(h) && h.extra.Some?
    ensures var n, w := |h.extra.value|, GzipHeader.ExtraPart(h) + tail;
            |w| == 2 + n + |tail| && GzipHeader.ReadLe16(w, 0) == n && w[2 + n..] == tail
  {
    hide GzipHeader.ReadLe16, GzipHeader.Le16;
    var n, w := |h.extra.value|, GzipHeader.ExtraPart(h) + tail;
    assert w[0..2] == GzipHeader.Le16(n);
    GzipHeader.Le16Read(n, w, 0);
  }

  lemma {:induction false} TextOfField(v: seq<byte>, tail: seq<byte>)
    requires NUL !in v
    ensures Text(v + [NUL] + tail) == v
  {
    if v != [] {
      assert v[0] in v && (v + [NUL] + tail)[1..] == v[1..] + [NUL] + tail;
      TextOfField(v[1..], tail);
    }
  }

  /** A name or a comment takes less than 65536 bytes off the window, whatever stands there. */
  lemma {:induction false} TextTakes<S>(f: Conf<S>, h: GzipHeader.Header, bit: byte, extra: nat)
    requires At(f, h) && (bit == 8 || bit == 16) && extra <= 1
    ensures var r := SkipText(Done(f), bit, extra);
            && r.conf.s == f.s && |f.window| < |r.conf.window| + 65536
            && (r.Done? && r.conf.window != [] ==> At(r.conf, if bit == 8 then h.(name := None) else h.(comment := None)))
            && (!Has(f, bit) ==> r == Done(f))
  {
    AtFlags(f, h);
    ClearFlag(h);
    hide GzipHeader.Has, GzipHeader.Flags, GzipHeader.BasePart, Text, Low16;
  }

  /** How much of a text of `n` bytes and its NUL is skipped. */
  function Skipped(n: nat, extra: nat): (k: nat)
    ensures k <= n + extra
  {
    Low16(Low16(n) + extra)
  }

  lemma SkippedIs(n: nat)
    ensures n < 65536 ==> Skipped(n, 0) == n
    ensures n < 65535 ==> Skipped(n, 1) == n + 1
    ensures n >= 65535 && Low16(n) != 0 ==> Skipped(n, 1) + 65536 <= n + 1
  {
    hide Low16;
  }

  lemma {:induction false} TextSkips<S>(f: Conf<S>, bit: byte, extra: nat, n: nat)
    requires (bit == 8 || bit == 16) && extra <= 1 && Has(f, bit) && !Starved(f) && |Text(f.window)| == n < |f.window|
    ensures Low16(n) == 0 ==> SkipText(Done(f), bit, extra) == Waits(f)
    ensures Low16(n) != 0 ==>
              Skipped(n, extra) <= |f.window| && SkipText(Done(f), bit, extra) == Done(Skip(f, Skipped(n, extra), bit))
  {
    SkipFits(n, |f.window|, extra);
    hide Text, Has, Starved, Low16, Skip;
  }

  lemma {:induction false} TextIs<S>(f: Conf<S>, h: GzipHeader.Header, bit: byte, extra: nat, v: seq<byte>, tail: seq<byte>)
    requires At(f, h) && (bit == 8 || bit == 16) && extra <= 1 && Has(f, bit) && NUL !in v && f.window == v + [NUL] + tail
    ensures SkipText(Done(f), bit, extra).Waits? <==> Low16(|v|) == 0
    ensures Low16(|v|) != 0 ==>
              var w, k := SkipText(Done(f), bit, extra).conf.window, Skipped(|v|, extra);
              |w| == |v| + 1 + |tail| - k && (k == |v| ==> w == [NUL] + tail) && (k == |v| + 1 ==> w == tail)
  {
    AtFlags(f, h);
    TextOfField(v, tail);
    hide *;
    TextSkips(f, bit, extra, |v|);
    if Low16(|v|) != 0 {
      SkipWindow(f, Skipped(|v|, extra), bit);
      CutText(f.window, v, tail, Skipped(|v|, extra));
    }
  }

  lemma SkipWindow<S>(f: Conf<S>, n: nat, bit: byte)
    requires n <= |f.window| && bit != 0 && Has(f, bit)
    ensures Skip(f, n, bit).window == f.window[n..]
  {
  }

  lemma CutText(w: seq<byte>, v: seq<byte>, tail: seq<byte>, k: nat)
    requires w == v + [NUL] + tail && k <= |w|
    ensures |w[k..]| == |v| + 1 + |tail| - k && (k == |v| ==> w[k..] == [NUL] + tail) && (k == |v| + 1 ==> w[k..] == tail)
  {
  }

  predicate ShortName(h: GzipHeader.Header) {
    h.name.Some? ==> 0 < |h.name.value| < 65535
  }

  /** Past the name: all of it if it is neither empty nor too long; else the decompressor waits, or leaves 65536 bytes and
      more of it. */
  lemma {:induction false} PastName<S>(f: Conf<S>, h: GzipHeader.Header, tail: seq<byte>)
    requires At(f, h) && f.window == GzipHeader.ZeroTerminated(h.name) + tail && tail != []
    ensures var r := SkipText(Done(f), 8, 1);
            && (ShortName(h) ==> r.Done? && At(r.conf, h.(name := None)) && r.conf.s == f.s && r.conf.window == tail)
            && (!ShortName(h) ==> r.Waits? || |r.conf.window| >= |tail| + 65536)
  {
    AtFlags(f, h);
    TextTakes(f, h, 8, 1);
    if h.name.Some? {
      var v := h.name.value;
      assert f.window == v + [NUL] + tail && NUL !in v;
      hide *;
      TextIs(f, h, 8, 1, v, tail);
      SkippedIs(|v|);
      NameShort(h);
    }
  }

  lemma NameShort(h: GzipHeader.Header)
    requires h.name.Some?
    ensures ShortName(h) <==> 0 < |h.name.value| < 65535
  {
  }

  /** A comment is never skipped whole: its NUL stays. */
  lemma {:induction false} PastComment<S>(f: Conf<S>, h: GzipHeader.Header, tail: seq<byte>)
    requires At(f, h) && h.comment.Some? && f.window == h.comment.value + [NUL] + tail
    ensures var r := SkipText(Done(f), 16, 0);
            && (r.Waits? <==> Low16(|h.comment.value|) == 0)
            && (r.Done? ==> At(r.conf, h.(comment := None)) && r.conf.s == f.s && |r.conf.window| > |tail|)
            && (0 < |h.comment.value| < 65536 ==> r.conf.window == [NUL] + tail)
  {
    var v := h.comment.value;
    assert NUL !in v;
    hide *;
    AtFlags(f, h);
    TextTakes(f, h, 16, 0);
    TextIs(f, h, 16, 0, v, tail);
    SkippedIs(|v|);
  }

  /** The header as the checksum is compared with: its ten bytes without the flags of the fields that were skipped. */
  function Cleared(h: GzipHeader.Header): seq<byte> {
    GzipHeader.BasePart(h.(extra := None, name := None, comment := None))
  }

  /** The checksum in the header is that of its ten bytes with those flags cleared. */
  predicate ChecksOut(crc: seq<byte> -> nat, h: GzipHeader.Header)
    requires GzipHeader.IsHeader(h)
  {
    h.hcrc ==> crc(GzipHeader.Unchecked(h)) % 65536 == crc(Cleared(h)) % 65536
  }

  /** Behind the fields, with a checksum in front of `rest` or not. */
  lemma {:induction false} PastCrc<S>(c: Codec<S>, f: Conf<S>, h: GzipHeader.Header)
    requires At(f, h) && h.extra == h.name == h.comment == None
    ensures var t := CheckCrc(c, f);
            t.conf.stage == ExpectBody ==> |t.conf.window| == |f.window| - if h.hcrc then 2 else 0
  {
    AtFlags(f, h);
    hide GzipHeader.Has, GzipHeader.Flags, GzipHeader.BasePart;
  }

  lemma {:induction false} CrcMatches<S>(c: Codec<S>, f: Conf<S>, h: GzipHeader.Header, sum: seq<byte>, rest: seq<byte>)
    requires At(f, h) && h.extra == h.name == h.comment == None && rest != []
    requires f.window == (if h.hcrc then GzipHeader.HeaderCrc(c.crc32, sum) else []) + rest
    ensures var t := CheckCrc(c, f);
            if h.hcrc ==> c.crc32(sum) % 65536 == c.crc32(f.header) % 65536 then
              t.status == SUCCESS && t.conf.stage == ExpectBody && t.conf.window == rest && t.conf.s == c.init
            else t.status == CORRUPTED_HEADER && t.conf.stage == Broken
  {
    AtFlags(f, h);
    if h.hcrc {
      var n := c.crc32(sum) % 65536;
      assert GzipHeader.Le16(n) == f.window[0..2];
      GzipHeader.Le16Read(n, f.window, 0);
    }
    hide GzipHeader.Has, GzipHeader.Flags, GzipHeader.BasePart, GzipHeader.ReadLe16, GzipHeader.Le16;
  }

  // ----- the whole header -----

  lemma {:induction false} Preambled<S>(c: Codec<S>, h: GzipHeader.Header, last: seq<byte>, s: S, rest: seq<byte>) returns (f: Conf<S>)
    requires GzipHeader.IsHeader(h) && rest != []
    ensures At(f, h) && f.s == s && f.window == Fields(c.crc32, h) + rest
    ensures Preamble(c, Conf(ExpectHeader, last, s, GzipHeader.Format(c.crc32, h) + rest)) == ProcessOptional(c, f)
  {
    FormatSplits(c.crc32, h);
    hide GzipHeader.Format, Fields, GzipHeader.Flags, ProcessOptional;
    var base, fields := GzipHeader.BasePart(h), Fields(c.crc32, h);
    var w := GzipHeader.Format(c.crc32, h) + rest;
    assert w[..10] == base && w[10..] == fields + rest;
    f := Conf(ExpectOptional, base, s, fields + rest);
    assert base[0] == 0x1F && base[1] == 0x8B && base[2] == 8 && base[3] < 32;
    HeaderRead(Conf(ExpectHeader, last, s, w), base);
    hide ProcessHeader, GzipHeader.BasePart;
  }

  lemma HeaderRead<S>(f: Conf<S>, base: seq<byte>)
    requires |f.window| >= 10 && f.window[..10] == base && base[0] == 0x1F && base[1] == 0x8B && base[2] == 8 && base[3] < 32
    ensures ProcessHeader(f) == Turn(f.(stage := ExpectOptional, header := base, window := f.window[10..]), SUCCESS, [])
  {
  }

  lemma OptionalIs<S>(c: Codec<S>, f: Conf<S>)
    requires f.stage == ExpectOptional
    ensures var r := SkipFields(f);
            ProcessOptional(c, f) == if r.Waits? then Turn(r.conf, INSUFFICIENT_DATA, []) else CheckCrc(c, r.conf)
  {
    hide SkipFields, CheckCrc;
  }

  /** The decompressor goes on to the body with just what follows the header exactly if the extra field and the name fit
      their sixteen-bit lengths, the name is not empty, there is no comment, and the checksum, if there is one, agrees with
      that of the ten bytes with flags cleared. */
  lemma {:induction false} FlaggedExactly<S>(c: Codec<S>, h: GzipHeader.Header, last: seq<byte>, s: S, rest: seq<byte>)
    requires GzipHeader.IsHeader(h) && rest != [] && (h.comment.None? || ShortExtra(h))
    ensures var t := Preamble(c, Conf(ExpectHeader, last, s, GzipHeader.Format(c.crc32, h) + rest));
            t.conf.stage == ExpectBody && t.conf.window == rest <==>
              ShortExtra(h) && ShortName(h) && h.comment.None? && ChecksOut(c.crc32, h)
  {
    var f := Preambled(c, h, last, s, rest);
    hide Preamble;
    Skips(c, h, f, rest);
  }

  function NoFields(h: GzipHeader.Header): GzipHeader.Header {
    h.(extra := None, name := None, comment := None)
  }

  lemma FieldsSplit(crc: seq<byte> -> nat, h: GzipHeader.Header, rest: seq<byte>)
    requires GzipHeader.IsHeader(h)
    ensures Fields(crc, h) + rest ==
            GzipHeader.ExtraPart(h) + (GzipHeader.ZeroTerminated(h.name) + (GzipHeader.ZeroTerminated(h.comment) + CrcPart(crc, h) + rest))
  {
    hide GzipHeader.ZeroTerminated, GzipHeader.ExtraPart, GzipHeader.HeaderCrc, GzipHeader.Unchecked;
  }

  lemma {:induction false} Skips<S>(c: Codec<S>, h: GzipHeader.Header, f: Conf<S>, rest: seq<byte>)
    requires rest != [] && At(f, h) && f.window == Fields(c.crc32, h) + rest && (h.comment.None? || ShortExtra(h))
    ensures var t := ProcessOptional(c, f);
            t.conf.stage == ExpectBody && t.conf.window == rest <==>
              ShortExtra(h) && ShortName(h) && h.comment.None? && ChecksOut(c.crc32, h)
  {
    var crc := CrcPart(c.crc32, h);
    var tail := GzipHeader.ZeroTerminated(h.comment) + crc + rest;
    FieldsSplit(c.crc32, h, rest);
    hide Fields, GzipHeader.ZeroTerminated, GzipHeader.ExtraPart;
    SkipsFields(h, f, tail, crc, rest);
    OptionalIs(c, f);
    hide ProcessOptional, SkipFields, CheckCrc, GzipHeader.Unchecked, ShortExtra, ShortName, GzipHeader.BasePart, GzipHeader.HeaderCrc;
    var r := SkipFields(f);
    if r.Done? {
      if r.conf.window == crc + rest {
        CrcMatches(c, r.conf, NoFields(h), GzipHeader.Unchecked(h), rest);
      } else {
        PastCrc(c, r.conf, NoFields(h));
      }
    }
  }

  /** Either the fields are skipped whole, or more is left than a checksum and the rest. */
  lemma {:induction false} SkipsFields<S>(h: GzipHeader.Header, f: Conf<S>, tail: seq<byte>, crc: seq<byte>, rest: seq<byte>)
    requires rest != [] && At(f, h) && f.window == GzipHeader.ExtraPart(h) + (GzipHeader.ZeroTerminated(h.name) + tail)
    requires tail == GzipHeader.ZeroTerminated(h.comment) + crc + rest && (h.comment.None? || ShortExtra(h))
    ensures var r := SkipFields(f);
            && (r.Waits? ==> r.conf.stage == ExpectOptional)
            && (r.Done? ==> At(r.conf, NoFields(h)))
            && if ShortExtra(h) && ShortName(h) && h.comment.None? then r.Done? && r.conf.window == crc + rest
               else r.Done? ==> |r.conf.window| > |crc + rest|
  {
    var h1, h2 := h.(extra := None), h.(extra := None, name := None);
    PastExtra(f, h, GzipHeader.ZeroTerminated(h.name) + tail);
    ExtraShort(h);
    var a := SkipExtra(f);
    var b := SkipText(a, 8, 1);
    assert f.stage == ExpectOptional;
    hide *;
    TextTakes(a.conf, h1, 8, 1);
    FieldsStop(f);
    if ShortExtra(h) {
      PastName(a.conf, h1, tail);
    }
    if b.Done? {
      LeftOver(|a.conf.window|, |b.conf.window|, |tail|);
      Commented(h, b.conf, h2, tail, crc, rest);
    }
  }

  lemma ExtraShort(h: GzipHeader.Header)
    ensures ShortName(h.(extra := None)) == ShortName(h) && (h.extra.Some? && |h.extra.value| >= 65534 <==> !ShortExtra(h))
  {
  }

  lemma LeftOver(before: nat, after: nat, tail: nat)
    requires before < after + 65536
    ensures before >= tail + 65536 ==> after > tail
  {
  }

  /** The last field, and whether anything is left to see to. */
  lemma {:induction false} Commented<S>(h: GzipHeader.Header, f: Conf<S>, h2: GzipHeader.Header, tail: seq<byte>,
                                        crc: seq<byte>, rest: seq<byte>)
    requires h2 == h.(extra := None, name := None) && At(f, h2) && rest != []
    requires tail == GzipHeader.ZeroTerminated(h.comment) + crc + rest && (f.window == tail || |f.window| > |tail|)
    requires f.window != tail && h.comment.Some? ==> |f.window| >= |tail| + 65536
    ensures var d := SkipText(Done(f), 16, 0);
            && (d.Done? ==> At(d.conf, NoFields(h)) && !Starved(d.conf))
            && if f.window == tail && h.comment.None? then d.Done? && d.conf.window == crc + rest
               else d.Done? ==> |d.conf.window| > |crc + rest|
  {
    if h.comment.None? {
      Uncommented(f, h2);
      assert [] + crc + rest == crc + rest;
    } else if f.window == tail {
      assert tail == h.comment.value + [NUL] + (crc + rest);
      PastComment(f, h2, crc + rest);
    } else {
      assert |tail| >= |crc + rest|;
      TextTakes(f, h2, 16, 0);
    }
    hide SkipText, At, Has, Starved, Low16;
    var d := SkipText(Done(f), 16, 0);
    if d.Done? {
      assert d.conf.window != [];
      AtFlags(d.conf, NoFields(h));
    }
  }

  lemma {:induction false} Uncommented<S>(f: Conf<S>, h: GzipHeader.Header)
    requires At(f, h) && h.comment.None?
    ensures SkipText(Done(f), 16, 0) == Done(f)
  {
    AtFlags(f, h);
    TextTakes(f, h, 16, 0);
  }

  /** A comment leaves its NUL in front of the body. */
  lemma {:induction false} CommentStays<S>(c: Codec<S>, h: GzipHeader.Header, last: seq<byte>, s: S, rest: seq<byte>)
    requires GzipHeader.IsHeader(h) && rest != [] && ShortExtra(h) && ShortName(h) && !h.hcrc
    requires h.comment.Some? && 0 < |h.comment.value| < 65536
    ensures var t := Preamble(c, Conf(ExpectHeader, last, s, GzipHeader.Format(c.crc32, h) + rest));
            t.status == SUCCESS && t.conf.stage == ExpectBody && t.conf.window == [NUL] + rest
  {
    var f := Preambled(c, h, last, s, rest);
    hide Preamble, At, Fields, GzipHeader.Format, GzipHeader.ExtraPart, GzipHeader.HeaderCrc;
    FieldsSplit(c.crc32, h, rest);
    JustComment(c.crc32, h, rest);
    hide ProcessOptional, GzipHeader.ZeroTerminated, CrcPart, ShortExtra, ShortName;
    CommentLeft(c, h, f, rest);
  }

  lemma JustComment(crc: seq<byte> -> nat, h: GzipHeader.Header, rest: seq<byte>)
    requires GzipHeader.IsHeader(h) && !h.hcrc && h.comment.Some?
    ensures GzipHeader.ZeroTerminated(h.comment) + CrcPart(crc, h) + rest == h.comment.value + [NUL] + rest
  {
    assert h.comment.value + [NUL] + [] == h.comment.value + [NUL];
  }

  lemma {:induction false} CommentLeft<S>(c: Codec<S>, h: GzipHeader.Header, f: Conf<S>, rest: seq<byte>)
    requires At(f, h) && rest != [] && ShortExtra(h) && ShortName(h) && !h.hcrc
    requires h.comment.Some? && 0 < |h.comment.value| < 65536
    requires f.window == GzipHeader.ExtraPart(h) + (GzipHeader.ZeroTerminated(h.name) + (h.comment.value + [NUL] + rest))
    ensures var t := ProcessOptional(c, f);
            t.status == SUCCESS && t.conf.stage == ExpectBody && t.conf.window == [NUL] + rest
  {
    var tail := h.comment.value + [NUL] + rest;
    FieldsStop(f);
    OptionalIs(c, f);
    hide ProcessOptional, CheckCrc, SkipFields, SkipText, SkipExtra, GzipHeader.ExtraPart, GzipHeader.BasePart, Low16;
    PastExtra(f, h, GzipHeader.ZeroTerminated(h.name) + tail);
    PastName(SkipExtra(f).conf, h.(extra := None), tail);
    var b := SkipText(SkipExtra(f), 8, 1);
    PastComment(b.conf, h.(extra := None, name := None), rest);
    var d := SkipText(b, 16, 0);
    hide At, GzipHeader.ZeroTerminated;
    AtFlags(d.conf, NoFields(h));
    Unchecks(c, d.conf, NoFields(h));
  }

  lemma {:induction false} Unchecks<S>(c: Codec<S>, f: Conf<S>, h: GzipHeader.Header)
    requires At(f, h) && !h.hcrc
    ensures CheckCrc(c, f) == Turn(f.(stage := ExpectBody, s := c.init), SUCCESS, [])
  {
    AtFlags(f, h);
  }

  /** An empty name stops the decompressor for good: it waits, whatever follows. */
  lemma {:induction false} EmptyNameWaits<S>(c: Codec<S>, h: GzipHeader.Header, last: seq<byte>, s: S, rest: seq<byte>)
    requires GzipHeader.IsHeader(h) && rest != [] && ShortExtra(h) && h.name == Some([])
    ensures var t := Preamble(c, Conf(ExpectHeader, last, s, GzipHeader.Format(c.crc32, h) + rest));
            t.status == INSUFFICIENT_DATA && t.conf.stage == ExpectOptional
            && t.conf.window == [NUL] + (GzipHeader.ZeroTerminated(h.comment) + CrcPart(c.crc32, h) + rest)
  {
    var f := Preambled(c, h, last, s, rest);
    FieldsSplit(c.crc32, h, rest);
    hide Preamble, CrcPart, At;
    assert GzipHeader.ZeroTerminated(h.name) == [NUL] by { assert [] + [NUL] == [NUL]; }
    NameLeft(c, h, f, GzipHeader.ZeroTerminated(h.comment) + CrcPart(c.crc32, h) + rest);
  }

  lemma {:induction false} NameLeft<S>(c: Codec<S>, h: GzipHeader.Header, f: Conf<S>, tail: seq<byte>)
    requires At(f, h) && ShortExtra(h) && h.name.Some? && f.window == GzipHeader.ExtraPart(h) + ([NUL] + tail)
    ensures var t := ProcessOptional(c, f);
            t.status == INSUFFICIENT_DATA && t.conf.stage == ExpectOptional && t.conf.window == [NUL] + tail
  {
    FieldsStop(f);
    OptionalIs(c, f);
    PastExtra(f, h, [NUL] + tail);
    hide ProcessOptional, CheckCrc, SkipFields, SkipText, SkipExtra, GzipHeader.ExtraPart, GzipHeader.BasePart, Low16;
    Waiting(SkipExtra(f).conf, h.(extra := None), tail);
  }

  lemma Waiting<S>(f: Conf<S>, h: GzipHeader.Header, tail: seq<byte>)
    requires At(f, h) && h.name.Some? && f.window == [NUL] + tail
    ensures SkipText(Done(f), 8, 1) == Waits(f)
  {
    AtFlags(f, h);
    hide Has;
  }
}
