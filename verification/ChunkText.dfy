/** Chunked bodies as text: sizes printed digit by digit, the C readers that read them back, and bodies made of such chunks. */
module ChunkText {
  import opened Bytes
  import opened CNumbers
  import opened Chunked

  const LOWER := "0123456789abcdef"
  const UPPER := "0123456789ABCDEF"

  function Digit(d: nat, upper: bool): (c: byte)
    requires d < 16
  {
    assert forall i :: 0 <= i < 16 ==> LOWER[i] < 128 as char && UPPER[i] < 128 as char;
    (if upper then UPPER[d] else LOWER[d]) as int
  }

  lemma DigitIs(d: nat, upper: bool)
    requires d < 16
    ensures IsHex(Digit(d, upper)) && HexDigit(Digit(d, upper)) == d
  {
  }

  lemma DigitOf(c: byte) returns (d: nat, upper: bool)
    requires IsHex(c)
    ensures d == HexDigit(c) < 16 && c == Digit(d, upper)
  {
    d, upper := HexDigit(c), 65 <= c <= 70;
  }

  /** A number in as many digits as `cases` has, each in the case given there; leading zeros fill up. */
  function Spelled(n: nat, cases: seq<bool>): (s: seq<byte>)
    ensures |s| == |cases|
  {
    if cases == [] then []
    else Spelled(n / 16, cases[..|cases| - 1]) + [Digit(n % 16, cases[|cases| - 1])]
  }

  lemma {:induction false} SpelledHex(n: nat, cases: seq<bool>)
    ensures forall c :: c in Spelled(n, cases) ==> IsHex(c)
  {
    if cases != [] {
      SpelledHex(n / 16, cases[..|cases| - 1]);
      DigitIs(n % 16, cases[|cases| - 1]);
    }
  }

  /** Digits have the value they were printed from. */
  lemma {:induction false} SpelledValue(n: nat, cases: seq<bool>)
    requires n < Pow16(|cases|)
    ensures (forall c :: c in Spelled(n, cases) ==> IsHex(c)) && HexValue(Spelled(n, cases)) == n
  {
    SpelledHex(n, cases);
    if cases != [] {
      var s, init, last := Spelled(n, cases), cases[..|cases| - 1], cases[|cases| - 1];
      SpelledValue(n / 16, init);
      DigitIs(n % 16, last);
      assert s[..|s| - 1] == Spelled(n / 16, init) && s[|s| - 1] == Digit(n % 16, last);
    }
  }

  /** The digits are their value, printed in these cases. */
  ghost predicate IsSpelling(digits: seq<byte>, cases: seq<bool>) {
    && (forall c :: c in digits ==> IsHex(c))
    && |cases| == |digits| && HexValue(digits) < Pow16(|cases|) && digits == Spelled(HexValue(digits), cases)
  }

  /** Every run of digits is a number printed. */
  lemma {:induction false} EverySpelling(digits: seq<byte>) returns (cases: seq<bool>)
    requires forall c :: c in digits ==> IsHex(c)
    ensures IsSpelling(digits, cases)
  {
    cases := [];
    if digits != [] {
      hide *;
      InitHex(digits);
      var before := EverySpelling(digits[..|digits| - 1]);
      var d, upper := DigitOf(digits[|digits| - 1]);
      cases := before + [upper];
      SpelledNext(digits, before, d, upper);
    }
  }

  lemma InitHex(digits: seq<byte>)
    requires digits != [] && forall c :: c in digits ==> IsHex(c)
    ensures IsHex(digits[|digits| - 1]) && forall c :: c in digits[..|digits| - 1] ==> IsHex(c)
  {
    hide IsHex;
  }

  lemma {:induction false} SpelledNext(digits: seq<byte>, before: seq<bool>, d: nat, upper: bool)
    requires digits != [] && (forall c :: c in digits ==> IsHex(c)) && IsSpelling(digits[..|digits| - 1], before)
    requires d == HexDigit(digits[|digits| - 1]) < 16 && digits[|digits| - 1] == Digit(d, upper)
    ensures IsSpelling(digits, before + [upper])
  {
    hide Digit, IsHex, HexDigit, Pow16;
    var init, cases := digits[..|digits| - 1], before + [upper];
    var n := HexValue(init);
    NextPower(n, d, |before|);
    assert cases[..|cases| - 1] == before && digits == init + [digits[|digits| - 1]];
    assert Spelled(16 * n + d, cases) == Spelled(n, before) + [Digit(d, upper)];
  }

  lemma NextPower(n: nat, d: nat, k: nat)
    requires n < Pow16(k) && d < 16
    ensures 16 * n + d < Pow16(k + 1) && (16 * n + d) / 16 == n && (16 * n + d) % 16 == d
  {
  }

  // ----- the C readers -----

  predicate IsBlank(c: byte) {
    c in [9, 10, 11, 12, 13, 32]
  }

  /** Where in a text a number's sign, its "0x", its digits and what follows start; blanks come first. */
  datatype Layout = Layout(sign: nat, prefix: nat, digits: nat, end: nat)

  /** Blanks, then a sign or none, "0x" in either case or not, and digits that end there; a lone zero is not the start of a
      "0x" that a digit follows. */
  predicate IsLayout(s: seq<byte>, l: Layout) {
    && l.sign <= l.prefix <= l.digits < l.end <= |s|
    && (forall i :: 0 <= i < l.sign ==> IsBlank(s[i]))
    && (l.prefix == l.sign || (l.prefix == l.sign + 1 && (s[l.sign] == 43 || s[l.sign] == 45)))
    && (l.digits == l.prefix || (l.digits == l.prefix + 2 && XAt(s, l.prefix)))
    && (l.digits == l.prefix ==> !XAt(s, l.prefix))
    && (l.end < |s| ==> !IsHex(s[l.end]))
  }

  predicate XAt(s: seq<byte>, i: nat) {
    i + 2 < |s| && s[i] == 48 && (s[i + 1] == 120 || s[i + 1] == 88) && IsHex(s[i + 2])
  }

  predicate IsNegative(s: seq<byte>, l: Layout) {
    l.sign < l.prefix && l.sign < |s| && s[l.sign] == 45
  }

  lemma {:induction false} SkipsTo(s: seq<byte>, i: nat, k: nat)
    requires i <= k <= |s| && (forall j :: i <= j < k ==> IsSpace(s[j])) && (k < |s| ==> !IsSpace(s[k]))
    ensures SkipSpaces(s, i) == k
    decreases k - i
  {
    if i < k {
      SkipsTo(s, i + 1, k);
    }
  }

  lemma LeadSkipped(s: seq<byte>, l: Layout)
    requires IsLayout(s, l) && IsHex(s[l.digits])
    ensures DigitsStart(s) == (IsNegative(s, l), l.digits)
  {
    SkipsTo(s, 0, l.sign);
  }

  lemma RunEnds(s: seq<byte>, start: nat, end: nat)
    requires start <= end <= |s| && (forall i :: start <= i < end ==> IsHex(s[i])) && (end < |s| ==> !IsHex(s[end]))
    ensures DigitsEnd(s, start) == end
  {
  }

  /** What `strtol` makes of a value. */
  function AsLong(n: nat, negative: bool, length: nat): Number {
    if negative then
      if n > 0x8000_0000_0000_0000 then Number(-0x8000_0000_0000_0000, length, true) else Number(-(n as int), length, false)
    else if n > 0x7FFF_FFFF_FFFF_FFFF then Number(0x7FFF_FFFF_FFFF_FFFF, length, true)
    else Number(n, length, false)
  }

  /** What `strtoull` makes of it: negation is modulo the range of the type. */
  function AsUnsigned(n: nat, negative: bool, length: nat): Number {
    if n > 0xFFFF_FFFF_FFFF_FFFF then Number(0xFFFF_FFFF_FFFF_FFFF, length, true)
    else if negative && n > 0 then Number(0x1_0000_0000_0000_0000 - n, length, false)
    else Number(n, length, false)
  }

  /** Both readers read a printed number back, wherever it stands, or say that it is out of range. */
  lemma {:induction false} ReadBack(s: seq<byte>, l: Layout, n: nat, cases: seq<bool>)
    requires IsLayout(s, l) && s[l.digits..l.end] == Spelled(n, cases) && n < Pow16(|cases|)
    ensures Strtol(s) == AsLong(n, IsNegative(s, l), l.end) && Strtoull(s) == AsUnsigned(n, IsNegative(s, l), l.end)
  {
    SpelledValue(n, cases);
    hide HexValue, Spelled, Pow16, IsHex;
    var digits := s[l.digits..l.end];
    forall i | l.digits <= i < l.end
      ensures IsHex(s[i])
    {
      assert digits[i - l.digits] == s[i] && s[i] in digits;
    }
    LeadSkipped(s, l);
    RunEnds(s, l.digits, l.end);
    hide DigitsStart, DigitsEnd, IsNegative, IsLayout, AsLong, AsUnsigned;
    ReadRun(s, IsNegative(s, l), l.digits, l.end, n);
  }

  lemma ReadRun(s: seq<byte>, negative: bool, start: nat, end: nat, n: nat)
    requires DigitsStart(s) == (negative, start) && start < end && DigitsEnd(s, start) == end
    requires HexValue(s[start..end]) == n
    ensures Strtol(s) == AsLong(n, negative, end) && Strtoull(s) == AsUnsigned(n, negative, end)
  {
    hide DigitsStart, DigitsEnd, HexValue;
  }

  /** Blanks and a sign or none, and no digit behind them. */
  predicate NoDigits(s: seq<byte>, l: Layout) {
    && l.sign <= l.prefix <= |s|
    && (forall i :: 0 <= i < l.sign ==> IsBlank(s[i]))
    && (if l.sign < |s| && (s[l.sign] == 43 || s[l.sign] == 45) then l.prefix == l.sign + 1
        else l.prefix == l.sign && (l.sign < |s| ==> !IsBlank(s[l.sign])))
    && (l.prefix < |s| ==> !IsHex(s[l.prefix]))
  }

  /** Such a text reads as zero. */
  lemma {:induction false} NothingRead(s: seq<byte>, l: Layout)
    requires NoDigits(s, l)
    ensures Strtol(s) == Strtoull(s) == Number(0, 0, false)
  {
    SkipsTo(s, 0, l.sign);
    assert DigitsStart(s).1 == l.prefix;
    hide DigitsStart, SkipSpaces;
    RunEnds(s, l.prefix, l.prefix);
  }

  /** A text reads as a printed number, or as zero for want of digits. */
  ghost predicate ReadsAs(s: seq<byte>, l: Layout, n: nat, cases: seq<bool>) {
    || (IsLayout(s, l) && s[l.digits..l.end] == Spelled(n, cases) && n < Pow16(|cases|))
    || (NoDigits(s, l) && n == 0)
  }

  lemma {:induction false} LongestBlanks(s: seq<byte>, i: nat) returns (k: nat)
    requires i <= |s| && forall j :: 0 <= j < i ==> IsBlank(s[j])
    ensures k <= |s| && (forall j :: 0 <= j < k ==> IsBlank(s[j])) && (k < |s| ==> !IsBlank(s[k]))
    decreases |s| - i
  {
    k := i;
    if i < |s| && IsBlank(s[i]) {
      k := LongestBlanks(s, i + 1);
    }
  }

  lemma {:induction false} LongestDigits(s: seq<byte>, from: nat, i: nat) returns (k: nat)
    requires from <= i <= |s| && forall j :: from <= j < i ==> IsHex(s[j])
    ensures i <= k <= |s| && (forall j :: from <= j < k ==> IsHex(s[j])) && (k < |s| ==> !IsHex(s[k]))
    decreases |s| - i
  {
    k := i;
    if i < |s| && IsHex(s[i]) {
      k := LongestDigits(s, from, i + 1);
    }
  }

  /** Every text does, so that the two readers are known on all of them. */
  lemma {:induction false} EveryText(s: seq<byte>) returns (l: Layout, n: nat, cases: seq<bool>)
    ensures ReadsAs(s, l, n, cases)
  {
    var sign := LongestBlanks(s, 0);
    var prefix := if sign < |s| && (s[sign] == 43 || s[sign] == 45) then sign + 1 else sign;
    var start := if XAt(s, prefix) then prefix + 2 else prefix;
    n, cases := 0, [];
    if start == |s| || !IsHex(s[start]) {
      l := Layout(sign, prefix, prefix, prefix);
      assert NoDigits(s, l);
    } else {
      var end := LongestDigits(s, start, start + 1);
      var digits := s[start..end];
      forall c | c in digits
        ensures IsHex(c)
      {
        var i :| 0 <= i < |digits| && digits[i] == c;
        assert s[start + i] == c;
      }
      cases := EverySpelling(digits);
      n := HexValue(digits);
      l := Layout(sign, prefix, start, end);
      assert IsLayout(s, l);
    }
  }

  // ----- printed bodies -----

  /** A piece of data and how its size is printed. */
  datatype Piece = Piece(data: seq<byte>, cases: seq<bool>)

  /** Any data but none, in digits that hold its size and fit the in-place decoder's buffer for them. */
  predicate Printable(p: Piece) {
    p.data != [] && |p.cases| <= 31 && |p.data| < Pow16(|p.cases|) && |p.data| <= LONG_MAX - 2
  }

  function Chunks(ps: seq<Piece>): (chunks: seq<Chunk>)
    ensures |chunks| == |ps|
  {
    if ps == [] then [] else [Chunk(Spelled(|ps[0].data|, ps[0].cases), ps[0].data)] + Chunks(ps[1..])
  }

  /** The body on the wire. */
  function Wire(ps: seq<Piece>): seq<byte> {
    if ps == [] then Ascii("0\r\n\r\n")
    else Spelled(|ps[0].data|, ps[0].cases) + Ascii("\r\n") + ps[0].data + Ascii("\r\n") + Wire(ps[1..])
  }

  function Joined(ps: seq<Piece>): seq<byte> {
    if ps == [] then [] else ps[0].data + Joined(ps[1..])
  }

  lemma LineEnds()
    ensures Ascii("\r\n") == CRLF && Ascii("0\r\n\r\n") == LAST_CHUNK
  {
  }

  /** Printed bodies are well-formed, and mean their data joined. */
  lemma {:induction false} PrintedBody(ps: seq<Piece>)
    requires forall i :: 0 <= i < |ps| ==> Printable(ps[i])
    ensures IsBody(Chunks(ps)) && Encode(Chunks(ps)) == Wire(ps) && Body(Chunks(ps)) == Joined(ps)
  {
    LineEnds();
    hide Ascii;
    if ps != [] {
      var chunks := Chunks(ps);
      PrintedBody(ps[1..]);
      SpelledValue(|ps[0].data|, ps[0].cases);
      assert chunks[1..] == Chunks(ps[1..]);
      hide Spelled, Chunks;
      assert IsChunk(chunks[0]);
      assert forall i :: 0 < i < |chunks| ==> chunks[i] == chunks[1..][i - 1];
    }
  }

  /** And every well-formed body is printed so. */
  lemma {:induction false} EveryBody(chunks: seq<Chunk>) returns (ps: seq<Piece>)
    requires IsBody(chunks)
    ensures (forall i :: 0 <= i < |ps| ==> Printable(ps[i])) && Chunks(ps) == chunks
  {
    ps := [];
    if chunks != [] {
      hide Spelled, HexValue, IsHex, Pow16;
      assert IsChunk(chunks[0]);
      var cases := EverySpelling(chunks[0].size);
      var rest := EveryBody(chunks[1..]);
      ps := [Piece(chunks[0].data, cases)] + rest;
      assert ps[1..] == rest;
    }
  }
}
