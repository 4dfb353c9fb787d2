/** The C library's hexadecimal readers, `strtol(s, end, 16)` and `strtoull(s, end, 16)`, on 64-bit types. */
module CNumbers {
  import opened Bytes

  const LONG_MAX: int := 0x7FFF_FFFF_FFFF_FFFF
  const ULL_MODULUS: int := 0x1_0000_0000_0000_0000
  const MINUS: byte := 45
  const PLUS: byte := 43
  const ZERO: byte := 48

  predicate IsSpace(c: byte) {
    c == SPACE || 9 <= c <= 13
  }

  predicate IsHex(c: byte) {
    48 <= c <= 57 || 65 <= c <= 70 || 97 <= c <= 102
  }

  function HexDigit(c: byte): (d: nat)
    requires IsHex(c)
    ensures d < 16
  {
    if c <= 57 then c - 48 else if c <= 70 then c - 55 else c - 87
  }

  /** The value of a run of digits, most significant first. */
  function HexValue(digits: seq<byte>): nat
    requires forall c :: c in digits ==> IsHex(c)
  {
    if digits == [] then 0
    else 16 * HexValue(digits[..|digits| - 1]) + HexDigit(digits[|digits| - 1])
  }

  function SkipSpaces(s: seq<byte>, i: nat): (j: nat)
    requires i <= |s|
    ensures i <= j <= |s|
    ensures i < |s| && !IsSpace(s[i]) ==> j == i
    decreases |s| - i
  {
    if i < |s| && IsSpace(s[i]) then SkipSpaces(s, i + 1) else i
  }

  /** One past the last digit of the run that starts at `i`. */
  function DigitsEnd(s: seq<byte>, i: nat): (j: nat)
    requires i <= |s|
    ensures i <= j <= |s|
    ensures forall k :: i <= k < j ==> IsHex(s[k])
    ensures j < |s| ==> !IsHex(s[j])
    decreases |s| - i
  {
    if i < |s| && IsHex(s[i]) then DigitsEnd(s, i + 1) else i
  }

  /** Where the digits of a number start: after blanks, a sign and a `0x` that a digit follows. */
  function DigitsStart(s: seq<byte>): (r: (bool, nat))
    ensures r.1 <= |s|
    ensures s != [] && IsHex(s[0]) && (|s| > 1 ==> IsHex(s[1]) || s[1] == CR) ==> r == (false, 0)
  {
    var i := SkipSpaces(s, 0);
    var negative := i < |s| && s[i] == MINUS;
    var j := if i < |s| && (s[i] == MINUS || s[i] == PLUS) then i + 1 else i;
    if j + 2 < |s| && s[j] == ZERO && (s[j + 1] == 120 || s[j + 1] == 88) && IsHex(s[j + 2])
    then (negative, j + 2) else (negative, j)
  }

  /** A number, the length of the text it was read from, and whether it was out of range. */
  datatype Number = Number(value: int, length: nat, range: bool)

  function Strtol(s: seq<byte>): Number {
    var (negative, start) := DigitsStart(s);
    var end := DigitsEnd(s, start);
    if start == end then Number(0, 0, false)
    else
      var v: int := HexValue(s[start..end]);
      if negative then (if v > LONG_MAX + 1 then Number(-LONG_MAX - 1, end, true) else Number(-v, end, false))
      else if v > LONG_MAX then Number(LONG_MAX, end, true)
      else Number(v, end, false)
  }

  function Strtoull(s: seq<byte>): (n: Number)
    ensures 0 <= n.value < ULL_MODULUS && n.length <= |s|
  {
    var (negative, start) := DigitsStart(s);
    var end := DigitsEnd(s, start);
    if start == end then Number(0, 0, false)
    else
      var v := HexValue(s[start..end]);
      if v >= ULL_MODULUS then Number(ULL_MODULUS - 1, end, true)
      else if negative then Number((ULL_MODULUS - v) % ULL_MODULUS, end, false)
      else Number(v, end, false)
  }

  /** Both readers agree on plain digits, alone or before a CR. */
  lemma PlainDigits(digits: seq<byte>, s: seq<byte>)
    requires digits != [] && forall c :: c in digits ==> IsHex(c)
    requires digits <= s && (|s| > |digits| ==> s[|digits|] == CR)
    requires HexValue(digits) <= LONG_MAX
    ensures Strtol(s) == Strtoull(s) == Number(HexValue(digits), |digits|, false)
  {
    assert s[0] == digits[0] && digits[0] in digits;
    assert |digits| > 1 ==> s[1] == digits[1] && digits[1] in digits;
    assert DigitsStart(s) == (false, 0);
    var end := DigitsEnd(s, 0);
    assert forall k :: 0 <= k < |digits| ==> s[k] == digits[k] && digits[k] in digits;
    assert end == |digits|;
    assert s[0..end] == digits;
  }

  // ----- the largest numbers -----

  function Fs(n: nat): (s: seq<byte>)
    ensures |s| == n && forall b :: b in s ==> b == 70
  {
    if n == 0 then [] else Fs(n - 1) + [70]
  }

  function Pow16(n: nat): nat {
    if n == 0 then 1 else 16 * Pow16(n - 1)
  }

  lemma {:induction false} FsBehind(digits: seq<byte>, n: nat)
    requires forall c :: c in digits ==> IsHex(c)
    ensures HexValue(digits + Fs(n)) == (HexValue(digits) + 1) * Pow16(n) - 1
  {
    var s := digits + Fs(n);
    if n == 0 {
      assert s == digits;
    } else {
      assert s[..|s| - 1] == digits + Fs(n - 1) && s[|s| - 1] == 70;
      FsBehind(digits, n - 1);
      assert HexValue(s) == 16 * HexValue(digits + Fs(n - 1)) + 15;
      TimesSixteen(HexValue(digits) + 1, Pow16(n - 1));
    }
  }

  lemma TimesSixteen(a: nat, b: nat)
    ensures a * (16 * b) == 16 * (a * b)
  {
  }

  lemma PowersOf16()
    ensures Pow16(15) == 0x1000_0000_0000_0000 && Pow16(16) == 0x1_0000_0000_0000_0000
  {
    assert Pow16(5) == 0x10_0000 && Pow16(10) == 0x100_0000_0000;
  }
}
