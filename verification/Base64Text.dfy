/** Base64 as text: RFC 4648 section 4 with its alphabet written out, and exactly which inputs the decoder accepts. */
module Base64Text {
  import opened Bytes
  import opened DivMod
  import opened Base64

  const CAPITALS := "ABCDEFGHIJKLMNOPQRSTUVWXYZ"
  const SMALLS := "abcdefghijklmnopqrstuvwxyz"
  const DIGITS := "0123456789"
  const ALPHABET := CAPITALS + SMALLS + DIGITS + "+/"

  lemma AlphabetParts(d: nat)
    requires d < 64
    ensures |ALPHABET| == 64
    ensures ALPHABET[d] == if d < 26 then CAPITALS[d] else if d < 52 then SMALLS[d - 26] else if d < 62 then DIGITS[d - 52]
                           else "+/"[d - 62]
  {
  }

  lemma Letters(d: nat)
    requires d < 26
    ensures CAPITALS[d] as int == 65 + d && SMALLS[d] as int == 97 + d
  {
  }

  /** Both tables agree with the alphabet. */
  lemma AlphabetIs(d: nat)
    requires d < 64
    ensures |ALPHABET| == 64 && ALPHABET[d] as int == Symbol(d) && Code(Symbol(d)) == d
  {
    AlphabetParts(d);
    SymbolCode(d);
    if d < 26 {
      Letters(d);
    } else if d < 52 {
      Letters(d - 26);
    } else if d < 62 {
      assert forall k :: 0 <= k < 10 ==> DIGITS[k] as int == 48 + k;
    }
  }

  /** Of all bytes, the symbols are those of the alphabet and "=". */
  lemma SymbolsAre(c: byte)
    ensures |ALPHABET| == 64
    ensures Code(c) < 64 <==> exists d :: 0 <= d < 64 && c == ALPHABET[d] as int
    ensures Code(c) == NO_CODE <==> c != '=' as int && forall d :: 0 <= d < 64 ==> c != ALPHABET[d] as int
  {
    AlphabetIs(0);
    forall d | 0 <= d < 64
      ensures ALPHABET[d] as int == Symbol(d) && Code(Symbol(d)) == d
    {
      AlphabetIs(d);
    }
    if Code(c) < 64 {
      assert Symbol(Code(c)) == c;
    }
  }

  function Letter(d: nat): (c: byte)
    requires d < 64
  {
    AlphabetIs(d);
    ALPHABET[d] as int
  }

  /** Groups of 24 bits, highest first, as four letters of six bits each; the last group is filled up with zero bits, and a
      "=" stands for each byte it is short of. */
  function Written(src: seq<byte>): seq<byte> {
    if src == [] then []
    else
      var a: nat, b: nat, c: nat := src[0], if |src| > 1 then src[1] else 0, if |src| > 2 then src[2] else 0;
      var w := a * 65536 + b * 256 + c;
      var letters := [Letter(w / 262144), Letter(w / 4096 % 64), Letter(w / 64 % 64), Letter(w % 64)];
      if |src| == 1 then letters[..2] + Ascii("==")
      else if |src| == 2 then letters[..3] + Ascii("=")
      else letters + Written(src[3..])
  }

  lemma Sextets(a: byte, b: byte, c: byte)
    ensures var w := a * 65536 + b * 256 + c;
            && w / 262144 == a / 4 && w / 4096 % 64 == a % 4 * 16 + b / 16
            && w / 64 % 64 == b % 16 * 4 + c / 64 && w % 64 == c % 64
  {
    var w := a * 65536 + b * 256 + c;
    var p, q, r, t := a / 4, a % 4 * 16 + b / 16, b % 16 * 4 + c / 64, c % 64;
    JoinSplit(a, b, c);
    DivModIs(w, 64, (p * 64 + q) * 64 + r, t);
    DivModIs((p * 64 + q) * 64 + r, 64, p * 64 + q, r);
    DivModIs(p * 64 + q, 64, p, q);
    DivModIs(w, 4096, p * 64 + q, r * 64 + t);
    DivModIs(w, 262144, p, q * 4096 + r * 64 + t);
  }

  lemma GroupWritten(a: byte, b: byte, c: byte)
    ensures var w := a * 65536 + b * 256 + c;
            EncodeGroup(a, b, c) == [Letter(w / 262144), Letter(w / 4096 % 64), Letter(w / 64 % 64), Letter(w % 64)]
  {
    hide Symbol, ALPHABET;
    Sextets(a, b, c);
    AlphabetIs(a / 4);
    AlphabetIs(a % 4 * 16 + b / 16);
    AlphabetIs(b % 16 * 4 + c / 64);
    AlphabetIs(c % 64);
  }

  /** The encoder writes just that. */
  lemma {:induction false} EncodesAs(src: seq<byte>)
    ensures Encode(src) == Written(src)
  {
    hide EncodeGroup, Letter;
    assert Ascii("==") == [PAD, PAD] && Ascii("=") == [PAD];
    if src != [] {
      GroupWritten(src[0], if |src| > 1 then src[1] else 0, if |src| > 2 then src[2] else 0);
      if |src| >= 3 {
        EncodesAs(src[3..]);
      }
    }
  }

  /** The three bytes of a number, highest first. */
  function BytesOf(w: nat): seq<int> {
    [w / 65536, w / 256 % 256, w % 256]
  }

  /** Any four letters stand for 24 bits, whether an encoder would have written them or not. */
  lemma {:induction false} DecodesAs(p: nat, q: nat, r: nat, t: nat)
    requires p < 64 && q < 64 && r < 64 && t < 64
    ensures var w := ((p * 64 + q) * 64 + r) * 64 + t;
            DecodeGroup([Letter(p), Letter(q), Letter(r), Letter(t)]) == BytesOf(w)
  {
    hide *;
    var g := [Letter(p), Letter(q), Letter(r), Letter(t)];
    LettersRead(p, q);
    LettersRead(r, t);
    WordIs(g, p, q, r, t);
    ThreeBytes(g, p * 64 + q, r * 64 + t);
  }

  /** Three letters and a "=" stand for two bytes. */
  lemma {:induction false} DecodesTwo(p: nat, q: nat, r: nat)
    requires p < 64 && q < 64 && r < 64
    ensures DecodeGroup([Letter(p), Letter(q), Letter(r)] + Ascii("=")) == [(p * 64 + q) / 16, ((p * 64 + q) * 64 + r) / 4 % 256]
  {
    hide *;
    var g := [Letter(p), Letter(q), Letter(r), PAD];
    LettersRead(p, q);
    LettersRead(r, r);
    PadText();
    assert [Letter(p), Letter(q), Letter(r)] + [PAD] == g;
    WordIs(g, p, q, r, 0);
    TwoBytes(g, p * 64 + q, r);
  }

  /** Two letters and "==" stand for one. */
  lemma {:induction false} DecodesOne(p: nat, q: nat)
    requires p < 64 && q < 64
    ensures DecodeGroup([Letter(p), Letter(q)] + Ascii("==")) == [(p * 64 + q) / 16]
  {
    hide *;
    var g := [Letter(p), Letter(q), PAD, PAD];
    LettersRead(p, q);
    PadText();
    assert [Letter(p), Letter(q)] + [PAD, PAD] == g;
    WordIs(g, p, q, 0, 0);
    OneByte(g, p * 64 + q);
  }

  /** The word of a group of symbols with known bits, and its pads. */
  lemma {:induction false} WordIs(g: seq<byte>, p: nat, q: nat, r: nat, t: nat)
    requires |g| == 4 && Bits(g[0]) == p && Bits(g[1]) == q && Bits(g[2]) == r && Bits(g[3]) == t
    requires g[0] != PAD && g[1] != PAD
    ensures Word(g) == ((p * 64 + q) * 64 + r) * 64 + t == (p * 64 + q) * 4096 + (r * 64 + t)
    ensures Pads(g) == (if g[2] == PAD then 1 else 0) + (if g[3] == PAD then 1 else 0)
  {
    hide Bits;
    Pads4(g);
  }

  lemma {:induction false} ThreeBytes(g: seq<byte>, high: nat, low: nat)
    requires |g| == 4 && Word(g) == high * 4096 + low && high < 4096 && low < 4096 && Pads(g) == 0
    ensures DecodeGroup(g) == BytesOf(high * 4096 + low)
  {
    hide Word, Pads;
    HighByte(Word(g), high, low);
  }

  lemma {:induction false} TwoBytes(g: seq<byte>, high: nat, r: nat)
    requires |g| == 4 && Word(g) == high * 4096 + r * 64 && high < 4096 && r < 64 && Pads(g) == 1
    ensures DecodeGroup(g) == [high / 16, (high * 64 + r) / 4 % 256]
  {
    hide Word, Pads;
    HighByte(Word(g), high, r * 64);
    MiddleByte(Word(g), high * 64 + r);
  }

  lemma {:induction false} OneByte(g: seq<byte>, high: nat)
    requires |g| == 4 && Word(g) == high * 4096 && high < 4096 && Pads(g) == 2
    ensures DecodeGroup(g) == [high / 16]
  {
    hide Word, Pads;
    HighByte(Word(g), high, 0);
  }

  lemma PadText()
    ensures Ascii("==") == [PAD, PAD] && Ascii("=") == [PAD] && Bits(PAD) == 0
  {
  }

  lemma LettersRead(p: nat, q: nat)
    requires p < 64 && q < 64
    ensures Bits(Letter(p)) == p && Bits(Letter(q)) == q && Letter(p) != PAD && Letter(q) != PAD
  {
    hide ALPHABET;
    AlphabetIs(p);
    AlphabetIs(q);
  }

  /** The two highest sextets hold the highest byte. */
  lemma {:induction false} HighByte(w: nat, high: nat, low: nat)
    requires w == high * 4096 + low && low < 4096 && high < 4096
    ensures w / 65536 == w / 65536 % 256 == high / 16
  {
    DivModSplit(high, 16);
    DivModIs(w, 65536, high / 16, high % 16 * 4096 + low);
  }

  lemma {:induction false} MiddleByte(w: nat, high: nat)
    requires w == high * 64
    ensures w / 256 % 256 == high / 4 % 256
  {
    DivModSplit(high, 4);
    DivModIs(w, 256, high / 4, high % 4 * 64);
  }

  // ----- what the decoder accepts -----

  /** What may stand at one place: a blank, a CR before an LF, or a symbol with no space right before it. */
  predicate Fits(src: seq<byte>, i: nat, spaced: bool)
    requires i < |src|
  {
    || src[i] == 32 || src[i] == 10
    || (src[i] == 13 && i + 1 < |src| && src[i + 1] == 10)
    || (Code(src[i]) != NO_CODE && if i == 0 then !spaced else src[i - 1] != 32)
  }

  /** Every place fits, at most two "=" and nothing but blanks and "=" behind them. */
  ghost predicate Acceptable(src: seq<byte>, pads: nat, spaced: bool) {
    && (forall i :: 0 <= i < |src| ==> Fits(src, i, spaced))
    && pads + Pads(src) <= 2
    && (forall i, k :: 0 <= i < k < |src| && src[i] == 61 && !IsBlank(src[k]) ==> src[k] == 61)
    && (pads > 0 ==> forall k :: 0 <= k < |src| && !IsBlank(src[k]) ==> src[k] == 61)
  }

  lemma FitsTail(src: seq<byte>, spaced: bool, tail: seq<byte>, space: bool)
    requires src != [] && tail == src[1..] && space == (src[0] == 32)
    ensures (forall i :: 0 <= i < |src| ==> Fits(src, i, spaced)) <==>
            Fits(src, 0, spaced) && forall i :: 0 <= i < |tail| ==> Fits(tail, i, space)
  {
    hide Code;
    forall i | 0 <= i < |tail|
      ensures Fits(tail, i, space) == Fits(src, i + 1, spaced)
    {
    }
    assert forall i :: 0 < i < |src| ==> Fits(src, i, spaced) == Fits(tail, i - 1, space);
  }

  lemma AcceptableTail(src: seq<byte>, pads: nat, spaced: bool)
    requires src != []
    ensures var c, tail := src[0], src[1..];
            Acceptable(src, pads, spaced) <==>
            && Fits(src, 0, spaced) && (pads > 0 && !IsBlank(c) ==> c == 61)
            && Acceptable(tail, if c == 61 then pads + 1 else pads, c == 32)
  {
    hide Code, Fits, IsBlank;
    var tail := src[1..];
    FitsTail(src, spaced, tail, src[0] == 32);
    assert forall k :: 0 <= k < |tail| ==> tail[k] == src[k + 1];
    assert forall k :: 0 < k < |src| ==> src[k] == tail[k - 1];
  }

  /** The decoder accepts exactly the acceptable texts. */
  lemma {:induction false} AcceptedExactly(src: seq<byte>, n: nat, j: nat, blanks: bool)
    requires j <= 2
    ensures ScanFrom(src, n, j, blanks).Valid? <==> Acceptable(src, j, blanks)
  {
    if src != [] {
      AcceptableTail(src, j, blanks);
      hide Acceptable;
      var c := src[0];
      if c == SPACE || c == LF || (c == CR && |src| > 1 && src[1] == LF) {
        AcceptedExactly(src[1..], n, j, c == SPACE);
      } else if c == PAD && j + 1 > 2 {
        TooManyPads(src, j, blanks);
      } else {
        AcceptedExactly(src[1..], n + 1, if c == PAD then j + 1 else j, false);
      }
    }
  }

  lemma TooManyPads(src: seq<byte>, j: nat, blanks: bool)
    requires src != [] && src[0] == PAD && j + 1 > 2
    ensures !Acceptable(src, j, blanks)
  {
  }
}
