/** Base64 as in RFC 4648 section 4, and the symbol stream flb_base64.c reads. */
module Base64 {
  import opened Bytes
  import opened DivMod

  const PAD: byte := 61

  /** What `base64_dec_map` holds for the pad and for bytes outside the alphabet. */
  const PAD_CODE: byte := 64
  const NO_CODE: byte := 127

  /** `base64_enc_map`. */
  function Symbol(d: nat): (c: byte)
    requires d < 64
    ensures c != PAD
  {
    if d < 26 then 65 + d
    else if d < 52 then 71 + d
    else if d < 62 then d - 4
    else if d == 62 then 43 else 47
  }

  /** `base64_dec_map`, with bytes above 127 treated as outside the alphabet. */
  function Code(c: byte): (d: byte)
    ensures d < 64 || d == PAD_CODE || d == NO_CODE
    ensures d == PAD_CODE <==> c == PAD
  {
    if 65 <= c <= 90 then c - 65
    else if 97 <= c <= 122 then c - 71
    else if 48 <= c <= 57 then c + 4
    else if c == 43 then 62
    else if c == 47 then 63
    else if c == PAD then PAD_CODE
    else NO_CODE
  }

  // ----- encoding -----

  function EncodeGroup(a: byte, b: byte, c: byte): (s: seq<byte>)
    ensures |s| == 4
  {
    [Symbol(a / 4), Symbol(a % 4 * 16 + b / 16), Symbol(b % 16 * 4 + c / 64), Symbol(c % 64)]
  }

  function EncodeTail(src: seq<byte>): (s: seq<byte>)
    requires 0 < |src| < 3
    ensures |s| == 4
  {
    if |src| == 1 then EncodeGroup(src[0], 0, 0)[..2] + [PAD, PAD]
    else EncodeGroup(src[0], src[1], 0)[..3] + [PAD]
  }

  function Encode(src: seq<byte>): (s: seq<byte>)
    ensures |s| == (|src| + 2) / 3 * 4
  {
    if src == [] then []
    else if |src| < 3 then EncodeTail(src)
    else EncodeGroup(src[0], src[1], src[2]) + Encode(src[3..])
  }

  // ----- decoding -----

  /** Bytes the decoder passes over. */
  predicate IsBlank(c: byte) {
    c == SPACE || c == CR || c == LF
  }

  function Symbols(src: seq<byte>): seq<byte> {
    if src == [] then []
    else (if IsBlank(src[0]) then [] else [src[0]]) + Symbols(src[1..])
  }

  /** Six bits of a symbol; a pad counts as zero. */
  function Bits(c: byte): nat {
    Code(c) % 64
  }

  /** Four times six bits. */
  function Join(p: nat, q: nat, r: nat, t: nat): nat {
    ((p * 64 + q) * 64 + r) * 64 + t
  }

  function Word(g: seq<byte>): nat
    requires |g| == 4
  {
    Join(Bits(g[0]), Bits(g[1]), Bits(g[2]), Bits(g[3]))
  }

  function Pads(s: seq<byte>): nat {
    if s == [] then 0 else (if s[0] == PAD then 1 else 0) + Pads(s[1..])
  }

  /** The three low bytes of a word, the highest first. */
  function LowThree(w: nat): (b: seq<byte>)
    ensures |b| == 3
  {
    [w / 65536 % 256, w / 256 % 256, w % 256]
  }

  /** The bytes of a group of four symbols, one fewer for each pad. */
  function DecodeGroup(g: seq<byte>): (b: seq<byte>)
    requires |g| == 4
  {
    if Pads(g) <= 3 then LowThree(Word(g))[..3 - Pads(g)] else []
  }

  /** Symbols that make no full group are dropped. */
  function Decode(s: seq<byte>): seq<byte> {
    if |s| < 4 then [] else DecodeGroup(s[..4]) + Decode(s[4..])
  }

  // ----- what the first pass accepts -----

  datatype Scan = Invalid | Valid(symbols: nat, pads: nat)

  /** Reads on with `n` symbols and `j` pads behind, after blanks that must lead to a line end or the end of input. */
  function ScanFrom(src: seq<byte>, n: nat, j: nat, blanks: bool): Scan {
    if src == [] then Valid(n, j)
    else if src[0] == SPACE then ScanFrom(src[1..], n, j, true)
    else if src[0] == LF || (src[0] == CR && |src| > 1 && src[1] == LF) then ScanFrom(src[1..], n, j, false)
    else if blanks then Invalid
    else if src[0] == PAD && j + 1 > 2 then Invalid
    else
      var j' := if src[0] == PAD then j + 1 else j;
      if Code(src[0]) == NO_CODE || (Code(src[0]) < 64 && j' != 0) then Invalid
      else ScanFrom(src[1..], n + 1, j', false)
  }

  /** The output length computed from the counts without overflow. */
  function OutputLength(n: nat, j: nat): int {
    6 * (n / 8) + (6 * (n % 8) + 7) / 8 - j
  }

  // ----- a group decodes to what was encoded -----

  lemma SymbolCode(d: nat)
    requires d < 64
    ensures Code(Symbol(d)) == d && !IsBlank(Symbol(d)) && Symbol(d) != PAD
  {
  }

  lemma JoinSplit(a: byte, b: byte, c: byte)
    ensures Join(a / 4, a % 4 * 16 + b / 16, b % 16 * 4 + c / 64, c % 64) == a * 65536 + b * 256 + c
  {
    assert a == 4 * (a / 4) + a % 4;
    assert b == 16 * (b / 16) + b % 16;
    assert c == 64 * (c / 64) + c % 64;
  }

  lemma GroupWord(a: byte, b: byte, c: byte)
    ensures Word(EncodeGroup(a, b, c)) == a * 65536 + b * 256 + c
  {
    hide Symbol, Code, Join;
    SymbolCode(a / 4);
    SymbolCode(a % 4 * 16 + b / 16);
    SymbolCode(b % 16 * 4 + c / 64);
    SymbolCode(c % 64);
    JoinSplit(a, b, c);
  }

  lemma Pads4(g: seq<byte>)
    requires |g| == 4
    ensures Pads(g) == (if g[0] == PAD then 1 else 0) + (if g[1] == PAD then 1 else 0)
                       + (if g[2] == PAD then 1 else 0) + (if g[3] == PAD then 1 else 0)
  {
    assert g[1..] == [g[1], g[2], g[3]] && [g[1], g[2], g[3]][1..] == [g[2], g[3]];
    assert [g[2], g[3]][1..] == [g[3]] && [g[3]][1..] == [];
    assert Pads([g[2], g[3]]) == (if g[2] == PAD then 1 else 0) + Pads([g[3]]);
  }

  lemma ByteParts(a: byte, b: byte, c: byte)
    ensures var w := a * 65536 + b * 256 + c; w / 65536 % 256 == a && w / 256 % 256 == b && w % 256 == c
  {
    var w := a * 65536 + b * 256 + c;
    DivModIs(w, 65536, a, b * 256 + c);
    DivModIs(w, 256, a * 256 + b, c);
    DivModIs(a * 256 + b, 256, a, b);
    DivModIs(a, 256, 0, a);
  }

  lemma GroupRoundTrip(a: byte, b: byte, c: byte)
    ensures Pads(EncodeGroup(a, b, c)) == 0 && DecodeGroup(EncodeGroup(a, b, c)) == [a, b, c]
  {
    hide Symbol, Word;
    GroupWord(a, b, c);
    Pads4(EncodeGroup(a, b, c));
    ByteParts(a, b, c);
  }

  /** A padded group gives back the one or two bytes it was made from. */
  lemma TailRoundTrip(src: seq<byte>)
    requires 0 < |src| < 3
    ensures Pads(EncodeTail(src)) == 3 - |src| && DecodeGroup(EncodeTail(src)) == src
  {
    hide Symbol, Word, Join;
    var b := if |src| == 2 then src[1] else 0;
    var full, g := EncodeGroup(src[0], b, 0), EncodeTail(src);
    Pads4(g);
    GroupWord(src[0], b, 0);
    ByteParts(src[0], b, 0);
    assert Word(g) == Word(full) by { TailWord(src[0], b, |src|); }
  }

  /** The pads stand for symbols whose bits are all zero. */
  lemma TailWord(a: byte, b: byte, n: nat)
    requires 0 < n < 3 && (n == 1 ==> b == 0)
    ensures var g := EncodeGroup(a, b, 0);
            Word(if n == 1 then g[..2] + [PAD, PAD] else g[..3] + [PAD]) == Word(g)
  {
    hide Join, Symbol, Code;
    var g := EncodeGroup(a, b, 0);
    SymbolCode(0);
    assert g[3] == Symbol(0) && Bits(g[3]) == 0 == Bits(PAD);
    if n == 1 {
      assert g[2] == Symbol(0);
      assert (g[..2] + [PAD, PAD])[0] == g[0] && (g[..2] + [PAD, PAD])[1] == g[1];
    }
  }

  lemma {:induction false} RoundTrip(src: seq<byte>)
    ensures Decode(Encode(src)) == src
  {
    hide EncodeGroup, EncodeTail, DecodeGroup;
    if 0 < |src| < 3 {
      TailRoundTrip(src);
      assert Encode(src)[..4] == EncodeTail(src) && Encode(src)[4..] == [];
    } else if |src| >= 3 {
      var g := EncodeGroup(src[0], src[1], src[2]);
      GroupRoundTrip(src[0], src[1], src[2]);
      assert Encode(src)[..4] == g && Encode(src)[4..] == Encode(src[3..]);
      RoundTrip(src[3..]);
      assert src == [src[0], src[1], src[2]] + src[3..];
    }
  }

  // ----- what the scan guarantees -----

  /** Only symbols, and pads only at the end. */
  predicate WellPadded(s: seq<byte>) {
    && (forall i :: 0 <= i < |s| ==> Code(s[i]) != NO_CODE)
    && (forall i, k :: 0 <= i < k < |s| && s[i] == PAD ==> s[k] == PAD)
  }

  lemma {:induction false} PadsAll(s: seq<byte>)
    ensures Pads(s) <= |s|
    ensures Pads(s) == 0 <==> PAD !in s
    ensures (forall i :: 0 <= i < |s| ==> s[i] == PAD) ==> Pads(s) == |s|
  {
    if s != [] {
      PadsAll(s[1..]);
    }
  }

  lemma SymbolFirst(c: byte, s: seq<byte>, j: nat)
    requires WellPadded(s) && Code(c) != NO_CODE && (j > 0 ==> c == PAD)
    requires j > 0 || c == PAD ==> forall i :: 0 <= i < |s| ==> s[i] == PAD
    ensures WellPadded([c] + s) && Pads([c] + s) == Pads(s) + if c == PAD then 1 else 0
    ensures j > 0 ==> forall i :: 0 <= i < |[c] + s| ==> ([c] + s)[i] == PAD
  {
    hide Code;
    assert ([c] + s)[1..] == s;
  }

  /** A valid scan counts the symbols and the pads, and the pads are the last symbols. */
  lemma {:induction false} ScanCounts(src: seq<byte>, n: nat, j: nat, blanks: bool)
    requires j <= 2
    ensures var r, s := ScanFrom(src, n, j, blanks), Symbols(src);
            r.Valid? ==>
              && r.symbols == n + |s| && r.pads == j + Pads(s) <= 2 && WellPadded(s)
              && (j > 0 ==> forall i :: 0 <= i < |s| ==> s[i] == PAD)
  {
    if src != [] {
      var c, r := src[0], ScanFrom(src, n, j, blanks);
      if c == SPACE || c == LF || (c == CR && |src| > 1 && src[1] == LF) {
        assert Symbols(src) == Symbols(src[1..]);
        ScanCounts(src[1..], n, j, c == SPACE);
      } else if r.Valid? {
        ScanCounts(src[1..], n + 1, if c == PAD then j + 1 else j, false);
        SymbolFirst(c, Symbols(src[1..]), j);
        assert Symbols(src) == [c] + Symbols(src[1..]);
      }
    }
  }

  /** The overflow-free formula is floor((6n + 7) / 8), and taking the pads off never goes below zero. */
  lemma LengthFormula(n: nat, j: nat)
    requires j <= 2 && j <= n
    ensures OutputLength(n, j) == (6 * n + 7) / 8 - j >= 0
  {
    assert n == 8 * (n / 8) + n % 8;
    assert 6 * n + 7 == 8 * (6 * (n / 8)) + (6 * (n % 8) + 7);
  }

  lemma LengthStep(n: nat)
    requires n >= 4
    ensures (6 * n + 7) / 8 == 3 + (6 * (n - 4) + 7) / 8
  {
    assert 6 * n + 7 == 8 * 3 + (6 * (n - 4) + 7);
  }

  lemma DecodeGroupLength(g: seq<byte>)
    requires |g| == 4 && Pads(g) <= 3
    ensures |DecodeGroup(g)| == 3 - Pads(g)
  {
  }

  lemma {:induction false} PadsAppend(a: seq<byte>, b: seq<byte>)
    ensures Pads(a + b) == Pads(a) + Pads(b)
  {
    if a == [] {
      assert a + b == b;
    } else {
      assert (a + b)[1..] == a[1..] + b;
      PadsAppend(a[1..], b);
    }
  }

  /** Either the first group has no pad, or only pads follow it. */
  lemma FirstGroup(s: seq<byte>)
    requires |s| >= 4 && WellPadded(s) && Pads(s) <= 2
    ensures Pads(s) == Pads(s[..4]) + Pads(s[4..]) && WellPadded(s[4..])
    ensures Pads(s[..4]) > 0 ==> Pads(s[4..]) == |s| - 4 && Decode(s[4..]) == []
  {
    assert s == s[..4] + s[4..];
    PadsAppend(s[..4], s[4..]);
    PadsAll(s[..4]);
    PadsAll(s[4..]);
    if Pads(s[..4]) > 0 {
      var i :| 0 <= i < 4 && s[i] == PAD;
      assert forall k :: 0 <= k < |s| - 4 ==> s[4..][k] == PAD;
    }
  }

  /** The second pass writes no more bytes than the first one computed, and exactly as many when no symbol is left over. */
  lemma {:induction false} DecodeFits(s: seq<byte>)
    requires WellPadded(s) && Pads(s) <= 2
    ensures |Decode(s)| <= (6 * |s| + 7) / 8 - Pads(s)
    ensures |s| % 4 == 0 ==> |Decode(s)| == (6 * |s| + 7) / 8 - Pads(s)
  {
    hide Decode, DecodeGroup, WellPadded, Pads;
    PadsAll(s);
    DecodeUnroll(s);
    if |s| >= 4 {
      LengthStep(|s|);
      FirstGroup(s);
      PadsAll(s[4..]);
      DecodeGroupLength(s[..4]);
      DecodeFits(s[4..]);
    }
  }

  lemma DecodeUnroll(s: seq<byte>)
    ensures |s| < 4 ==> Decode(s) == []
    ensures |s| >= 4 ==> |Decode(s)| == |DecodeGroup(s[..4])| + |Decode(s[4..])|
  {
    hide DecodeGroup;
  }
}
