/** Base64 text laid out in lines: where line breaks and spaces may stand, and that they change nothing. */
module Base64Layout {
  import opened Bytes
  import opened Base64

  /** A symbol, or a line break with the spaces before it. */
  datatype Piece = Symbol(c: byte) | Break(spaces: nat, crlf: bool)

  function Spaces(n: nat): (s: seq<byte>)
    ensures |s| == n
  {
    if n == 0 then [] else [SPACE] + Spaces(n - 1)
  }

  function RenderPiece(p: Piece): seq<byte> {
    match p
    case Symbol(c) => [c]
    case Break(n, crlf) => Spaces(n) + if crlf then [CR, LF] else [LF]
  }

  function Render(pieces: seq<Piece>): seq<byte> {
    if pieces == [] then [] else RenderPiece(pieces[0]) + Render(pieces[1..])
  }

  /** The symbols of a layout. */
  function SymbolsOf(pieces: seq<Piece>): seq<byte> {
    if pieces == [] then []
    else (if pieces[0].Symbol? then [pieces[0].c] else []) + SymbolsOf(pieces[1..])
  }

  predicate Plain(s: seq<byte>) {
    forall i :: 0 <= i < |s| ==> !IsBlank(s[i])
  }

  lemma {:induction false} ScanSpaces(k: nat, rest: seq<byte>, n: nat, j: nat, blanks: bool)
    ensures ScanFrom(Spaces(k) + rest, n, j, blanks) == ScanFrom(rest, n, j, blanks || k > 0)
    ensures Symbols(Spaces(k) + rest) == Symbols(rest)
  {
    if k == 0 {
      assert Spaces(k) + rest == rest;
    } else {
      assert (Spaces(k) + rest)[1..] == Spaces(k - 1) + rest;
      ScanSpaces(k - 1, rest, n, j, true);
    }
  }

  lemma ScanBreak(k: nat, crlf: bool, rest: seq<byte>, n: nat, j: nat)
    ensures var text := Spaces(k) + (if crlf then [CR, LF] else [LF]) + rest;
            ScanFrom(text, n, j, false) == ScanFrom(rest, n, j, false) && Symbols(text) == Symbols(rest)
  {
    var lf, eol := [LF] + rest, (if crlf then [CR, LF] else [LF]) + rest;
    assert Spaces(k) + (if crlf then [CR, LF] else [LF]) + rest == Spaces(k) + eol;
    ScanSpaces(k, eol, n, j, false);
    assert lf[1..] == rest;
    assert ScanFrom(lf, n, j, false) == ScanFrom(lf, n, j, true) == ScanFrom(rest, n, j, false);
    if crlf {
      assert eol[1..] == lf;
    }
  }

  lemma ScanSymbol(c: byte, a: seq<byte>, b: seq<byte>, n: nat, j: nat)
    requires !IsBlank(c)
    requires ScanFrom(a, n + 1, if c == PAD then j + 1 else j, false) == ScanFrom(b, n + 1, if c == PAD then j + 1 else j, false)
    ensures ScanFrom([c] + a, n, j, false) == ScanFrom([c] + b, n, j, false)
    ensures Symbols([c] + a) == [c] + Symbols(a)
  {
    assert ([c] + a)[1..] == a && ([c] + b)[1..] == b;
  }

  /** Breaks and trailing spaces are invisible to the scan and to the symbol stream. */
  lemma {:induction false} LayoutInvisible(pieces: seq<Piece>, k: nat, n: nat, j: nat)
    requires Plain(SymbolsOf(pieces))
    ensures ScanFrom(Render(pieces) + Spaces(k), n, j, false) == ScanFrom(SymbolsOf(pieces), n, j, false)
    ensures Symbols(Render(pieces) + Spaces(k)) == SymbolsOf(pieces)
  {
    if pieces == [] {
      ScanSpaces(k, [], n, j, false);
      assert Render(pieces) + Spaces(k) == Spaces(k) + [];
    } else {
      hide ScanFrom, Symbols, IsBlank;
      var rest, symbols := Render(pieces[1..]) + Spaces(k), SymbolsOf(pieces[1..]);
      assert Render(pieces) + Spaces(k) == RenderPiece(pieces[0]) + rest;
      match pieces[0]
      case Break(m, crlf) =>
        assert SymbolsOf(pieces) == symbols;
        LayoutInvisible(pieces[1..], k, n, j);
        ScanBreak(m, crlf, rest, n, j);
      case Symbol(c) =>
        var all := SymbolsOf(pieces);
        assert all == [c] + symbols && all[0] == c;
        assert forall i :: 0 <= i < |symbols| ==> symbols[i] == all[i + 1];
        LayoutInvisible(pieces[1..], k, n + 1, if c == PAD then j + 1 else j);
        ScanSymbol(c, rest, symbols, n, j);
    }
  }

  lemma ShapeAppend(g: seq<byte>, rest: seq<byte>)
    requires forall i :: 0 <= i < |g| ==> !IsBlank(g[i]) && g[i] != PAD && Code(g[i]) != NO_CODE
    requires Plain(rest) && WellPadded(rest)
    ensures Plain(g + rest) && WellPadded(g + rest) && Pads(g + rest) == Pads(rest)
  {
    hide Code, IsBlank, Pads;
    PadsAppend(g, rest);
    PadsAll(g);
    var s := g + rest;
    assert forall i :: 0 <= i < |s| ==> s[i] == if i < |g| then g[i] else rest[i - |g|];
  }

  /** The encoder's output is plain, in full groups, and well padded. */
  lemma {:induction false} EncodeShape(src: seq<byte>)
    ensures Plain(Encode(src)) && WellPadded(Encode(src)) && Pads(Encode(src)) <= 2
    ensures |Encode(src)| % 4 == 0
  {
    hide Plain, WellPadded, Pads, EncodeTail, EncodeGroup;
    if |src| < 3 {
      ShapeEnd(src);
    } else {
      GroupPlain(src[0], src[1], src[2]);
      EncodeShape(src[3..]);
      ShapeAppend(EncodeGroup(src[0], src[1], src[2]), Encode(src[3..]));
    }
  }

  lemma ShapeEnd(src: seq<byte>)
    requires |src| < 3
    ensures Plain(Encode(src)) && WellPadded(Encode(src)) && Pads(Encode(src)) <= 2 && |Encode(src)| in {0, 4}
  {
    hide EncodeTail, EncodeGroup, DecodeGroup;
    if src != [] {
      assert Encode(src) == EncodeTail(src);
      hide Plain, WellPadded, Pads, Encode;
      TailRoundTrip(src);
      TailPlain(src);
    } else {
      assert Encode(src) == [];
    }
  }

  lemma GroupPlain(a: byte, b: byte, c: byte)
    ensures forall i :: 0 <= i < 4 ==>
              var s := EncodeGroup(a, b, c)[i]; !IsBlank(s) && s != PAD && Code(s) != NO_CODE
  {
    hide Base64.Symbol, Code;
    SymbolCode(a / 4);
    SymbolCode(a % 4 * 16 + b / 16);
    SymbolCode(b % 16 * 4 + c / 64);
    SymbolCode(c % 64);
  }

  lemma TailPlain(src: seq<byte>)
    requires 0 < |src| < 3
    ensures Plain(EncodeTail(src)) && WellPadded(EncodeTail(src))
  {
    GroupPlain(src[0], if |src| == 2 then src[1] else 0, 0);
    hide EncodeGroup;
  }

  /** A well-padded plain text is accepted, whatever its length. */
  lemma {:induction false} ScanPlain(s: seq<byte>, n: nat, j: nat)
    requires Plain(s) && WellPadded(s) && j + Pads(s) <= 2
    requires j > 0 ==> forall i :: 0 <= i < |s| ==> s[i] == PAD
    ensures ScanFrom(s, n, j, false) == Valid(n + |s|, j + Pads(s))
  {
    if s != [] {
      var j' := if s[0] == PAD then j + 1 else j;
      assert forall i :: 0 <= i < |s[1..]| ==> s[1..][i] == s[i + 1];
      ScanPlain(s[1..], n + 1, j');
    }
  }

  lemma DecodedLength(s: seq<byte>, src: seq<byte>)
    requires WellPadded(s) && Pads(s) <= 2 && |s| % 4 == 0 && Decode(s) == src
    ensures OutputLength(|s|, Pads(s)) == |src|
  {
    hide WellPadded, Pads, Decode, OutputLength;
    DecodeFits(s);
    PadsAll(s);
    LengthFormula(|s|, Pads(s));
  }

  /**
    However an encoded text is broken into lines, with spaces before the breaks and at the end, the
    first pass accepts it and computes the original length, and the symbols decode to the original.
   */
  lemma WrappedRoundTrip(src: seq<byte>, pieces: seq<Piece>, k: nat)
    requires SymbolsOf(pieces) == Encode(src)
    ensures var text := Render(pieces) + Spaces(k);
            var scan := ScanFrom(text, 0, 0, false);
            && scan.Valid? && OutputLength(scan.symbols, scan.pads) == |src|
            && Decode(Symbols(text)) == src
  {
    hide Encode, ScanFrom, Code, Pads, Decode, Render, Spaces, SymbolsOf, Plain, WellPadded, OutputLength;
    EncodeShape(src);
    LayoutInvisible(pieces, k, 0, 0);
    ScanPlain(Encode(src), 0, 0);
    var s := Encode(src);
    assert ScanFrom(Render(pieces) + Spaces(k), 0, 0, false) == Valid(|s|, Pads(s));
    RoundTrip(src);
    DecodedLength(s, src);
  }
}
