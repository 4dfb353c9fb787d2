/** flb_base64_encode and flb_base64_decode, on buffers. */
module Base64Codec {
  import opened Bytes
  import opened Base64
  import Base64Layout
  import opened DivMod

  const ERR_BUFFER_TOO_SMALL := -42
  const ERR_INVALID_CHARACTER := -44
  const SIZE_MAX: nat := 0xFFFF_FFFF_FFFF_FFFF

  // ----- encoding -----

  /** Writes a group of four symbols at `p`. */
  method Write4(dst: array<byte>, p: nat, g: seq<byte>)
    requires |g| == 4 && p + 4 <= dst.Length
    modifies dst
    ensures dst[..p + 4] == old(dst[..p]) + g
    ensures forall k :: p + 4 <= k < dst.Length ==> dst[k] == old(dst[k])
  {
    dst[p] := g[0];
    dst[p + 1] := g[1];
    dst[p + 2] := g[2];
    dst[p + 3] := g[3];
  }

  lemma EncodeStep(src: seq<byte>, i: nat)
    requires i + 3 <= |src|
    ensures Encode(src[i..]) == EncodeGroup(src[i], src[i + 1], src[i + 2]) + Encode(src[i + 3..])
  {
    assert src[i..][3..] == src[i + 3..];
  }

  /** Encodes `src` into `dst`, with a NUL behind; a too small buffer is left alone and the size needed returned. */
  method EncodeBuffer(dst: array?<byte>, src: seq<byte>) returns (ret: int, olen: nat)
    requires |src| <= SIZE_MAX
    modifies dst
    ensures src == [] ==> ret == 0 && olen == 0
    ensures ret == 0 <==> src == [] || (|Encode(src)| < SIZE_MAX && dst != null && dst.Length > |Encode(src)|)
    ensures ret == 0 && src != [] ==> olen == |Encode(src)| && dst[..olen] == Encode(src) && dst[olen] == NUL
    ensures ret == 0 && src != [] ==> forall k :: olen < k < dst.Length ==> dst[k] == old(dst[k])
    ensures ret != 0 ==> ret == ERR_BUFFER_TOO_SMALL && olen == if |Encode(src)| < SIZE_MAX then |Encode(src)| + 1 else SIZE_MAX
    ensures (ret != 0 || src == []) && dst != null ==> dst[..] == old(dst[..])
  {
    if |src| == 0 {
      return 0, 0;
    }
    var n := |src| / 3 + (if |src| % 3 != 0 then 1 else 0);
    assert n == (|src| + 2) / 3;
    if n > (SIZE_MAX - 1) / 4 {
      return ERR_BUFFER_TOO_SMALL, SIZE_MAX;
    }
    n := n * 4;
    if dst == null || dst.Length < n + 1 {
      return ERR_BUFFER_TOO_SMALL, n + 1;
    }
    olen := EncodeGroups(dst, src);
    dst[olen] := NUL;
    ret := 0;
  }

  /** The encoding loop and the padded group behind it. */
  method EncodeGroups(dst: array<byte>, src: seq<byte>) returns (p: nat)
    requires |Encode(src)| <= dst.Length
    modifies dst
    ensures p == |Encode(src)| && dst[..p] == Encode(src)
    ensures forall k :: p <= k < dst.Length ==> dst[k] == old(dst[k])
  {
    hide Encode, EncodeGroup;
    var n := |src| / 3 * 3;
    var i := 0;
    p := 0;
    ghost var done: seq<byte>, groups := [], 0;
    assert src[0..] == src && [] + Encode(src) == Encode(src);
    while i < n
      invariant 0 <= groups <= |src| / 3 && i == 3 * groups && p == |done| <= dst.Length
      invariant dst[..p] == done && Encode(src) == done + Encode(src[i..])
      invariant forall k :: p <= k < dst.Length ==> dst[k] == old(dst[k])
    {
      EncodeStep(src, i);
      var g := EncodeGroup(src[i], src[i + 1], src[i + 2]);
      ghost var rest := Encode(src[i + 3..]);
      assert |Encode(src)| == |done| + 4 + |rest| && done + (g + rest) == done + g + rest;
      Write4(dst, p, g);
      done, groups := done + g, groups + 1;
      p := p + 4;
      i := i + 3;
    }
    p := EncodeEnd(dst, p, src[i..]);
  }

  /** The last one or two bytes, with their pads. */
  method EncodeEnd(dst: array<byte>, p: nat, rest: seq<byte>) returns (end: nat)
    requires |rest| < 3 && p + |Encode(rest)| <= dst.Length
    modifies dst
    ensures end == p + |Encode(rest)| && dst[..end] == old(dst[..p]) + Encode(rest)
    ensures forall k :: end <= k < dst.Length ==> dst[k] == old(dst[k])
  {
    EncodeRest(rest);
    hide Encode, EncodeTail;
    end := p;
    if rest != [] {
      Write4(dst, p, EncodeTail(rest));
      end := p + 4;
    }
  }

  lemma EncodeRest(rest: seq<byte>)
    requires |rest| < 3
    ensures Encode(rest) == if rest == [] then [] else EncodeTail(rest)
  {
  }

  // ----- decoding -----

  /** First pass: checks the input and counts symbols and pads. */
  method CheckInput(src: seq<byte>) returns (scan: Scan)
    ensures scan == ScanFrom(src, 0, 0, false)
  {
    var i, n, j := 0, 0, 0;
    assert src[0..] == src;
    while i < |src|
      invariant 0 <= i <= |src| && 0 <= n && 0 <= j
      invariant ScanFrom(src, 0, 0, false) == ScanFrom(src[i..], n, j, false)
    {
      var x := 0;
      while i < |src| && src[i] == SPACE
        invariant 0 <= i <= |src| && 0 <= x
        invariant ScanFrom(src, 0, 0, false) == ScanFrom(src[i..], n, j, x > 0)
      {
        assert src[i..][1..] == src[i + 1..];
        i := i + 1;
        x := x + 1;
      }
      if i == |src| {
        break;
      }
      assert src[i..][1..] == src[i + 1..];
      if |src| - i >= 2 && src[i] == CR && src[i + 1] == LF {
        i := i + 1;
        continue;
      }
      if src[i] == LF {
        i := i + 1;
        continue;
      }
      if x != 0 {
        return Invalid;
      }
      if src[i] == PAD {
        j := j + 1;
        if j > 2 {
          return Invalid;
        }
      }
      if Code(src[i]) == NO_CODE {
        return Invalid;
      }
      if Code(src[i]) < 64 && j != 0 {
        return Invalid;
      }
      n := n + 1;
      i := i + 1;
    }
    scan := Valid(n, j);
  }

  /** The value of the symbols of an unfinished group. */
  ghost function Partial(t: seq<byte>): nat {
    if t == [] then 0 else Partial(t[..|t| - 1]) * 64 + Bits(t[|t| - 1])
  }

  ghost function Pow64(n: nat): nat
    requires n <= 4
  {
    if n == 0 then 1 else if n == 1 then 64 else if n == 2 then 4096 else if n == 3 then 262144 else 16777216
  }

  /** The 32-bit accumulator after one more symbol; nothing ever clears it. */
  function Shift(x: nat, c: byte): (x': nat)
    ensures x' < UINT32
  {
    (x * 64 + Bits(c)) % UINT32
  }

  lemma ShiftLow(x: nat, m: nat, bits: nat)
    requires x < UINT32 && bits < 64 && (m == 1 || m == 64 || m == 4096 || m == 262144)
    ensures (x * 64 + bits) % UINT32 % (64 * m) == x % m * 64 + bits
  {
    var q, r := x / m, x % m;
    DivModSplit(x, m);
    assert x * 64 + bits == q * (64 * m) + (r * 64 + bits);
    var f := if m == 1 then 67108864 else if m == 64 then 1048576 else if m == 4096 then 16384 else 256;
    assert 64 * m * f == UINT32;
    ModOfMultiple(x * 64 + bits, 64 * m, f, q, r * 64 + bits);
  }

  /** Stale high bits never get below the symbols of the group being read. */
  lemma ShiftPartial(x: nat, t: seq<byte>, c: byte)
    requires x < UINT32 && |t| < 4 && x % Pow64(|t|) == Partial(t)
    ensures Shift(x, c) % Pow64(|t| + 1) == Partial(t + [c])
  {
    hide Bits, Pow64, Partial;
    BitsBound(c);
    PowNext(|t|);
    PartialNext(t, c);
    ShiftLow(x, Pow64(|t|), Bits(c));
  }

  lemma PowNext(n: nat)
    requires n < 4
    ensures Pow64(n + 1) == 64 * Pow64(n)
    ensures Pow64(n) == 1 || Pow64(n) == 64 || Pow64(n) == 4096 || Pow64(n) == 262144
  {
  }

  lemma PartialNext(t: seq<byte>, c: byte)
    ensures Partial(t + [c]) == Partial(t) * 64 + Bits(c)
  {
    assert (t + [c])[..|t|] == t;
  }

  lemma BitsBound(c: byte)
    ensures Bits(c) < 64
  {
  }

  lemma PartialGroup(g: seq<byte>)
    requires |g| == 4
    ensures Partial(g) == Word(g)
  {
    hide Bits;
    assert g[..3][..2] == g[..2] && g[..2][..1] == g[..1] && g[..1][..0] == [];
    assert Partial(g[..1]) == Bits(g[0]);
    assert Partial(g[..2]) == Partial(g[..1]) * 64 + Bits(g[1]);
    assert Partial(g[..3]) == Partial(g[..2]) * 64 + Bits(g[2]);
  }

  lemma LowBytes(x: nat, w: nat)
    requires x % 16777216 == w
    ensures x / 65536 % 256 == w / 65536 % 256 && x / 256 % 256 == w / 256 % 256 && x % 256 == w % 256
  {
    var q := x / 16777216;
    var a, b, c := w / 65536, w / 256 % 256, w % 256;
    DivModSplit(x, 16777216);
    DivModSplit(w, 256);
    DivModSplit(w / 256, 256);
    DivModIs(w, 65536, w / 256 / 256, w / 256 % 256 * 256 + w % 256);
    assert a < 256;
    DivModIs(x, 65536, q * 256 + a, b * 256 + c);
    DivModIs(q * 256 + a, 256, q, a);
    DivModIs(x, 256, q * 65536 + a * 256 + b, c);
    DivModIs(q * 65536 + a * 256 + b, 256, q * 256 + a, b);
  }

  lemma {:induction false} DecodeAppend(a: seq<byte>, b: seq<byte>)
    requires |a| % 4 == 0
    ensures Decode(a + b) == Decode(a) + Decode(b)
  {
    hide DecodeGroup;
    if a == [] {
      assert a + b == b;
    } else {
      assert (a + b)[..4] == a[..4] && (a + b)[4..] == a[4..] + b;
      DecodeAppend(a[4..], b);
    }
  }

  /** Before a full group there is no pad, so the pad count so far is the group's own. */
  lemma EarlierUnpadded(groups: seq<byte>, g: seq<byte>, rest: seq<byte>)
    requires |g| == 4 && WellPadded(groups + g + rest) && Pads(groups + g + rest) <= 2
    ensures Pads(groups) == 0 && Pads(g) <= 2
  {
    var s := groups + g + rest;
    PadsAppend(groups + g, rest);
    PadsAppend(groups, g);
    PadsAll(groups);
    if PAD in groups {
      var i :| 0 <= i < |groups| && groups[i] == PAD;
      assert s[i] == PAD;
      assert forall k :: 0 <= k < 4 ==> g[k] == s[|groups| + k];
      PadsAll(g);
      assert false;
    }
  }

  /** Where the second pass stands: `groups` are decoded, `t` is an unfinished group, `rest` is to come. */
  ghost predicate Decoding(all: seq<byte>, groups: seq<byte>, t: seq<byte>, rest: seq<byte>, x: nat, n: nat, j: int) {
    && all == groups + t + rest && |groups| % 4 == 0 && |t| == n < 4
    && j == 3 - Pads(groups + t)
    && x < UINT32 && x % Pow64(n) == Partial(t)
  }

  lemma DecodingSymbol(all: seq<byte>, groups: seq<byte>, t: seq<byte>, rest: seq<byte>, x: nat, n: nat, j: int)
    requires Decoding(all, groups, t, rest, x, n, j) && rest != []
    ensures var c := rest[0];
            && all == groups + (t + [c]) + rest[1..]
            && j - (if c == PAD then 1 else 0) == 3 - Pads(groups + (t + [c]))
            && Shift(x, c) % Pow64(n + 1) == Partial(t + [c])
  {
    hide Pow64, Partial, Shift, Pads;
    var c := rest[0];
    ShiftPartial(x, t, c);
    assert groups + t + rest == groups + (t + [c]) + rest[1..];
    PadsAppend(groups + t, [c]);
    PadsOne(c);
    assert groups + t + [c] == groups + (t + [c]);
  }

  lemma PadsOne(c: byte)
    ensures Pads([c]) == if c == PAD then 1 else 0
  {
    assert [c][1..] == [];
  }

  /** A full group: the bytes written are the group's, and there is room for them. */
  lemma DecodingGroup(all: seq<byte>, groups: seq<byte>, g: seq<byte>, rest: seq<byte>, x: nat, j: int)
    requires all == groups + g + rest && |groups| % 4 == 0 && |g| == 4 && WellPadded(all) && Pads(all) <= 2
    requires j == 3 - Pads(groups + g) && x < UINT32 && x % Pow64(4) == Partial(g)
    ensures 1 <= j <= 3 && DecodeGroup(g) == LowThree(x)[..j]
    ensures Decode(groups + g) == Decode(groups) + DecodeGroup(g)
    ensures |Decode(groups)| + |DecodeGroup(g)| <= |Decode(all)|
    ensures Pads(groups + g) == 3 - j && |groups + g| % 4 == 0
  {
    hide Pads, Word, Partial, WellPadded, LowThree, Decode, Pow64;
    EarlierUnpadded(groups, g, rest);
    PadsAppend(groups, g);
    GroupBytes(g, x);
    DecodeOne(g);
    DecodeAppend(groups, g);
    DecodeAppend(groups + g, rest);
  }

  lemma GroupBytes(g: seq<byte>, x: nat)
    requires |g| == 4 && x % Pow64(4) == Partial(g)
    ensures LowThree(x) == LowThree(Word(g))
  {
    hide Partial, Word;
    PartialGroup(g);
    LowBytes(x, Word(g));
  }

  lemma DecodeOne(g: seq<byte>)
    requires |g| == 4
    ensures Decode(g) == DecodeGroup(g)
  {
    hide DecodeGroup;
    assert g[..4] == g && g[4..] == [];
  }

  /** Second pass: writes the decoded bytes. */
  method DecodeSymbols(dst: array<byte>, src: seq<byte>) returns (p: nat)
    requires WellPadded(Symbols(src)) && Pads(Symbols(src)) <= 2 && |Decode(Symbols(src))| <= dst.Length
    modifies dst
    ensures p == |Decode(Symbols(src))| && dst[..p] == Decode(Symbols(src))
    ensures forall k :: p <= k < dst.Length ==> dst[k] == old(dst[k])
  {
    hide Pads, Decode, DecodeGroup, WellPadded, Shift, Pow64, Code;
    ghost var all := Symbols(src);
    ghost var groups, t: seq<byte>, rest: seq<byte> := [], [], all;
    var i, j, n, x := 0, 3, 0, 0;
    p := 0;
    StartDecoding(all);
    assert src[0..] == src;
    while i < |src|
      invariant 0 <= i <= |src| && rest == Symbols(src[i..])
      invariant Decoding(all, groups, t, rest, x, n, j)
      invariant p == |Decode(groups)| <= dst.Length && dst[..p] == Decode(groups)
      invariant forall k :: p <= k < dst.Length ==> dst[k] == old(dst[k])
    {
      var c := src[i];
      assert src[i..][1..] == src[i + 1..];
      i := i + 1;
      if IsBlank(c) {
        continue;
      }
      assert rest == [c] + Symbols(src[i..]) && rest[1..] == Symbols(src[i..]);
      DecodingSymbol(all, groups, t, rest, x, n, j);
      j := j - (if Code(c) == PAD_CODE then 1 else 0);
      x := Shift(x, c);
      t, rest := t + [c], rest[1..];
      n := n + 1;
      if n == 4 {
        n := 0;
        DecodingGroup(all, groups, t, rest, x, j);
        p := WriteBytes(dst, p, x, j);
        groups, t := groups + t, [];
        EmptyTail(groups, x);
      }
    }
    EndDecoding(all, groups, t);
  }

  lemma StartDecoding(all: seq<byte>)
    ensures Decoding(all, [], [], all, 0, 0, 3) && Decode([]) == []
  {
    assert [] + [] + all == all;
  }

  lemma EmptyTail(groups: seq<byte>, x: nat)
    ensures groups + [] == groups && x % Pow64(0) == Partial([])
  {
  }

  lemma EndDecoding(all: seq<byte>, groups: seq<byte>, t: seq<byte>)
    requires all == groups + t + [] && |groups| % 4 == 0 && |t| < 4
    ensures Decode(all) == Decode(groups)
  {
    assert all == groups + t;
    DecodeAppend(groups, t);
  }

  /** Writes as many of the three low bytes of `x` as `j` says, high byte first. */
  method WriteBytes(dst: array<byte>, p: nat, x: nat, j: int) returns (q: nat)
    requires 1 <= j <= 3 && p + j <= dst.Length
    modifies dst
    ensures q == p + j
    ensures dst[..q] == old(dst[..p]) + LowThree(x)[..j]
    ensures forall k :: q <= k < dst.Length ==> dst[k] == old(dst[k])
  {
    q := p;
    if j > 0 {
      dst[q] := x / 65536 % 256;
      q := q + 1;
    }
    if j > 1 {
      dst[q] := x / 256 % 256;
      q := q + 1;
    }
    if j > 2 {
      dst[q] := x % 256;
      q := q + 1;
    }
  }

  /**
    Decodes `src` into `dst`.  Bad input is refused before anything is written; otherwise the length
    found by the first pass decides whether the buffer is large enough, and bounds what is written.
   */
  method DecodeBuffer(dst: array?<byte>, src: seq<byte>) returns (ret: int, olen: nat)
    modifies dst
    ensures ScanFrom(src, 0, 0, false).Invalid? <==> ret == ERR_INVALID_CHARACTER
    ensures var scan := ScanFrom(src, 0, 0, false);
            scan.Valid? ==>
              var need := OutputLength(scan.symbols, scan.pads);
              && 0 <= need && |Decode(Symbols(src))| <= need
              && (ret == 0 <==> scan.symbols == 0 || (dst != null && need <= dst.Length))
              && (ret != 0 ==> ret == ERR_BUFFER_TOO_SMALL && olen == need)
              && (ret == 0 ==> olen == |Decode(Symbols(src))|)
              && (ret == 0 && scan.symbols > 0 ==> dst[..olen] == Decode(Symbols(src)))
              && (ret == 0 && scan.symbols > 0 ==> forall k :: olen <= k < dst.Length ==> dst[k] == old(dst[k]))
    ensures ret != 0 && dst != null ==> dst[..] == old(dst[..])
  {
    hide ScanFrom, Decode, Symbols, Pads, WellPadded, OutputLength;
    olen := 0;
    var scan := CheckInput(src);
    if scan.Invalid? {
      return ERR_INVALID_CHARACTER, olen;
    }
    ScanCounts(src, 0, 0, false);
    ScanLength(Symbols(src), scan);
    if scan.symbols == 0 {
      return 0, 0;
    }
    var n := OutputLength(scan.symbols, scan.pads);
    if dst == null || dst.Length < n {
      return ERR_BUFFER_TOO_SMALL, n;
    }
    olen := DecodeSymbols(dst, src);
    ret := 0;
  }

  lemma ScanLength(s: seq<byte>, scan: Scan)
    requires WellPadded(s) && Pads(s) <= 2 && scan == Valid(|s|, Pads(s))
    ensures 0 <= OutputLength(scan.symbols, scan.pads) && |Decode(s)| <= OutputLength(scan.symbols, scan.pads)
    ensures |s| == 0 ==> Decode(s) == []
  {
    PadsAll(s);
    DecodeFits(s);
    LengthFormula(|s|, Pads(s));
  }

  /** An encoded text, broken into lines in any way, decodes into a buffer of exactly the original length. */
  method DecodeLines(dst: array<byte>, ghost src: seq<byte>, pieces: seq<Base64Layout.Piece>, k: nat) returns (ret: int, olen: nat)
    requires Base64Layout.SymbolsOf(pieces) == Encode(src) && dst.Length == |src|
    modifies dst
    ensures ret == 0 && olen == |src| && dst[..] == src
  {
    hide ScanFrom, Symbols, Decode, Encode, Base64Layout.SymbolsOf, Base64Layout.Render;
    Base64Layout.WrappedRoundTrip(src, pieces, k);
    ret, olen := DecodeBuffer(dst, Base64Layout.Render(pieces) + Base64Layout.Spaces(k));
    assert dst[..] == dst[..olen];
    assert |src| == 0 ==> dst[..] == [];
  }
}
