/** What the two decoders make of any chunk line, well-formed or not. */
module ChunkLines {
  import opened Bytes
  import opened CNumbers
  import opened Chunked
  import opened ChunkText
  import opened InPlaceDecoder
  import AppendDecoder

  /** A line without its end, as C string functions see it. */
  predicate IsLine(line: seq<byte>) {
    NUL !in line && forall i :: 0 <= i < |line| - 1 ==> !(line[i] == 13 && line[i + 1] == 10)
  }

  lemma {:induction false} LineFound(line: seq<byte>, rest: seq<byte>)
    requires IsLine(line)
    ensures FindCrLf(line + [13, 10] + rest) == |line|
  {
    var raw := line + [13, 10] + rest;
    if line == [] {
      assert raw[0] == 13 && raw[1] == 10;
    } else {
      assert raw[0] == line[0] && line[0] in line;
      assert raw[1] == if |line| > 1 then line[1] else 13;
      assert raw[1..] == line[1..] + [13, 10] + rest;
      forall i | 0 <= i < |line[1..]| - 1
        ensures !(line[1..][i] == 13 && line[1..][i + 1] == 10)
      {
        assert line[1..][i] == line[i + 1] && line[1..][i + 1] == line[i + 2];
      }
      LineFound(line[1..], rest);
    }
  }

  /** The in-place decoder on a line that reads as `n`, with `rest` behind it. A chunk of no bytes ends the body only where
      its line has one byte or three. */
  function Scanned(line: seq<byte>, n: nat, negative: bool, rest: seq<byte>): ChunkScan {
    if line == [] || |line| > 31 || n > 0x7FFF_FFFF_FFFF_FFFF || (negative && n > 0) then Malformed
    else if n > 0x7FFF_FFFF_FFFF_FFFD then Overflows
    else if |rest| < n + 2 then Incomplete
    else if rest[n..n + 2] != [13, 10] || (n == 0 && |line| != 1 && |line| != 3) then Malformed
    else Complete(|line| + 2, n)
  }

  lemma NumberOf(line: seq<byte>, l: Layout, n: nat, cases: seq<bool>)
    requires ReadsAs(line, l, n, cases)
    ensures var v := Strtol(line);
            && (v.range || v.value < 0 <==> n > 0x7FFF_FFFF_FFFF_FFFF || (IsNegative(line, l) && n > 0))
            && (!v.range && v.value >= 0 ==> v.value == n)
  {
    hide Strtol, Strtoull, IsLayout, NoDigits, Spelled, Pow16;
    if NoDigits(line, l) && n == 0 {
      NothingRead(line, l);
    } else {
      ReadBack(line, l, n, cases);
    }
  }

  /** The scan once the line and its number are known. */
  lemma ScanBy(raw: seq<byte>, k: nat, v: Number)
    requires FindCrLf(raw) == k && k + 2 <= |raw| && Strtol(raw[..k]) == v
    ensures ScanChunk(raw) ==
            if k > 31 || k == 0 || v.range || v.value < 0 then Malformed
            else if v.value > 0x7FFF_FFFF_FFFF_FFFD then Overflows
            else if |raw| - (k + 2) < v.value + 2 then Incomplete
            else if raw[k + 2 + v.value] != 13 || raw[k + 2 + v.value + 1] != 10 then Malformed
            else if v.value == 0 && (raw[3] != 13 || raw[4] != 10) then Malformed
            else Complete(k + 2, v.value)
  {
    hide FindCrLf, Strtol;
  }

  /** What stands behind a line. */
  lemma BehindLine(line: seq<byte>, rest: seq<byte>, n: nat)
    ensures var raw, k := line + [13, 10] + rest, |line|;
            && |raw| == k + 2 + |rest| && raw[..k] == line
            && (|rest| >= n + 2 ==> raw[k + 2 + n] == rest[n] && raw[k + 2 + n + 1] == rest[n + 1]
                                    && (rest[n..n + 2] == [13, 10] <==> rest[n] == 13 && rest[n + 1] == 10))
  {
    if |rest| >= n + 2 {
      assert rest[n..n + 2] == [rest[n], rest[n + 1]];
    }
  }

  lemma {:induction false} ScanLine(line: seq<byte>, l: Layout, n: nat, cases: seq<bool>, rest: seq<byte>)
    requires IsLine(line) && ReadsAs(line, l, n, cases)
    ensures ScanChunk(line + [13, 10] + rest) == Scanned(line, n, IsNegative(line, l), rest)
  {
    hide IsLine, ReadsAs, IsNegative, ScanChunk, Strtol, FindCrLf;
    var raw, k, v := line + [13, 10] + rest, |line|, Strtol(line);
    LineFound(line, rest);
    NumberOf(line, l, n, cases);
    BehindLine(line, rest, n);
    ScanBy(raw, k, v);
    if n == 0 && k > 0 && |rest| >= 2 && rest[0..2] == [13, 10] {
      FourthByte(line, rest);
    }
  }

  /** Where the decoder looks for the end of the last chunk. */
  lemma FourthByte(line: seq<byte>, rest: seq<byte>)
    requires IsLine(line) && line != [] && |rest| >= 2 && rest[0..2] == [13, 10]
    ensures var raw := line + [13, 10] + rest;
            (raw[3] == 13 && raw[4] == 10) <==> |line| == 1 || |line| == 3
  {
    var raw, k := line + [13, 10] + rest, |line|;
    assert rest[0] == rest[0..2][0] && rest[1] == rest[0..2][1];
    if k == 1 {
      assert raw[3] == rest[0] && raw[4] == rest[1];
    } else if k == 2 {
      assert raw[3] == 10;
    } else if k == 3 {
      assert raw[3] == 13 && raw[4] == 10;
    } else if k == 4 {
      assert raw[4] == 13;
    } else {
      assert raw[3] == line[3] && raw[4] == line[4];
    }
  }

  /** Without a line end before any NUL the decoder waits. */
  lemma {:induction false} NoLine(raw: seq<byte>)
    requires forall i :: 0 <= i < |raw| - 1 && raw[i] == 13 && raw[i + 1] == 10 ==> NUL in raw[..i]
    ensures ScanChunk(raw) == Incomplete
  {
    assert FindCrLf(raw) < 0;
  }

  lemma {:induction false} CrFound(s: seq<byte>)
    ensures AppendDecoder.HasCr(s) <==> exists i :: 0 <= i < |s| && s[i] == 13 && NUL !in s[..i]
  {
    if s != [] {
      var tail := s[1..];
      CrFound(tail);
      if AppendDecoder.HasCr(s) {
        if s[0] == 13 {
          assert NUL !in s[..0];
        } else {
          var i :| 0 <= i < |tail| && tail[i] == 13 && NUL !in tail[..i];
          assert s[..i + 1] == [s[0]] + tail[..i] && s[i + 1] == 13;
        }
      } else if s[0] != NUL {
        forall i | 0 <= i < |s| && s[i] == 13
          ensures NUL in s[..i]
        {
          assert tail[i - 1] == 13 && s[..i] == [s[0]] + tail[..i - 1];
        }
      } else {
        forall i | 0 < i < |s|
          ensures NUL in s[..i]
        {
          assert s[..i][0] == NUL;
        }
      }
    }
  }

  /** The appending decoder on a number that takes `end` bytes and says `size`: it waits for that many bytes with header and
      trailer, and takes them whatever they are. */
  function Taken(raw: seq<byte>, end: nat, size: nat): AppendDecoder.Absorbed {
    var need := end + size + 4;
    if need >= 0x1_0000_0000_0000_0000 then
      AppendDecoder.Absorbed([], raw, false, if |raw| < need % 0x1_0000_0000_0000_0000 then AppendDecoder.Fine else AppendDecoder.Wraps)
    else if |raw| < need then AppendDecoder.Absorbed([], raw, false, AppendDecoder.Fine)
    else
      var more := AppendDecoder.Absorb(raw[need..]);
      AppendDecoder.Absorbed(raw[end + 2..end + 2 + size] + more.out, more.rest, size == 0 || more.ready, more.fault)
  }

  lemma TakenIs(raw: seq<byte>, end: nat, size: nat)
    requires AppendDecoder.HasCr(raw) && Strtoull(raw) == Number(size, end, false)
    ensures AppendDecoder.Absorb(raw) == Taken(raw, end, size)
  {
    hide AppendDecoder.Absorb, AppendDecoder.HasCr, Strtoull;
    AppendDecoder.AbsorbOne(raw);
  }

  /** The appending decoder on any bytes: it waits for a CR, and refuses a number that is too large. */
  lemma AbsorbLine(raw: seq<byte>, l: Layout, n: nat, cases: seq<bool>)
    requires ReadsAs(raw, l, n, cases)
    ensures !(exists i :: 0 <= i < |raw| && raw[i] == 13 && NUL !in raw[..i]) ==>
              AppendDecoder.Absorb(raw) == AppendDecoder.Absorbed([], raw, false, AppendDecoder.Fine)
    ensures (exists i :: 0 <= i < |raw| && raw[i] == 13 && NUL !in raw[..i]) ==>
              AppendDecoder.Absorb(raw) ==
              if n > 0xFFFF_FFFF_FFFF_FFFF then AppendDecoder.Absorbed([], raw, false, AppendDecoder.Rejected)
              else Taken(raw, if NoDigits(raw, l) && n == 0 then 0 else l.end,
                         if IsNegative(raw, l) && n > 0 then 0x1_0000_0000_0000_0000 - n else n)
  {
    hide AppendDecoder.Absorb, AppendDecoder.HasCr, Strtoull, Strtol, IsLayout, NoDigits, Spelled, Pow16, IsNegative, Taken;
    CrFound(raw);
    if NoDigits(raw, l) && n == 0 {
      NothingRead(raw, l);
    } else {
      ReadBack(raw, l, n, cases);
    }
    hide ReadsAs;
    if AppendDecoder.HasCr(raw) {
      var v := Strtoull(raw);
      if !v.range {
        TakenIs(raw, v.length, v.value);
      }
    }
    AppendDecoder.AbsorbOne(raw);
  }

  function Zeros(k: nat): (s: seq<byte>)
    ensures |s| == k && forall c :: c in s ==> c == 48
  {
    if k == 0 then [] else Zeros(k - 1) + [48]
  }

  lemma {:induction false} ZerosSpelled(k: nat) returns (cases: seq<bool>)
    ensures |cases| == k && Zeros(k) == Spelled(0, cases) && 0 < Pow16(k)
  {
    cases := [];
    if k > 0 {
      var before := ZerosSpelled(k - 1);
      cases := before + [false];
      assert cases[..k - 1] == before;
    }
  }

  lemma {:induction false} ZerosRead(k: nat)
    requires k > 0
    ensures (forall c :: c in Zeros(k) ==> IsHex(c)) && HexValue(Zeros(k)) == 0
    ensures IsLine(Zeros(k)) && Strtol(Zeros(k)) == Number(0, k, false)
  {
    hide Zeros, Spelled, Pow16, HexValue, Strtol, Strtoull, IsLine;
    var cases := ZerosSpelled(k);
    SpelledValue(0, cases);
    PlainDigits(Zeros(k), Zeros(k));
    OneLine(Zeros(k));
  }

  lemma OneLine(line: seq<byte>)
    requires forall c :: c in line ==> c == 48
    ensures IsLine(line)
  {
    assert forall i :: 0 <= i < |line| ==> line[i] in line;
  }

  lemma {:induction false} ScanZeros(k: nat)
    requires k > 0
    ensures var raw := Zeros(k) + [13, 10] + [13, 10];
            ScanChunk(raw) == if k == 1 || k == 3 then Complete(k + 2, 0) else Malformed
  {
    hide Zeros, IsLine, ScanChunk, Strtol, FindCrLf, HexValue;
    var line, rest := Zeros(k), [13, 10];
    ZerosRead(k);
    LineFound(line, rest);
    BehindLine(line, rest, 0);
    assert rest[0..2] == rest;
    FourthByte(line, rest);
    ScanBy(line + [13, 10] + rest, k, Number(0, k, false));
  }

  lemma {:induction false} AbsorbZeros(k: nat)
    requires 0 < k < LONG_MAX
    ensures AppendDecoder.Absorb(Zeros(k) + [13, 10] + [13, 10]) == AppendDecoder.Absorbed([], [], true, AppendDecoder.Fine)
  {
    hide Zeros, IsLine, HexValue, Strtol, Strtoull, AppendDecoder.Absorb, AppendDecoder.HasCr;
    var line := Zeros(k);
    ZerosRead(k);
    ZerosFound(line, line + [13, 10] + [13, 10]);
    TakenZeros(line + [13, 10] + [13, 10], k);
  }

  lemma {:induction false} ZerosFound(line: seq<byte>, raw: seq<byte>)
    requires line != [] && (forall c :: c in line ==> IsHex(c)) && HexValue(line) == 0 && raw == line + [13, 10] + [13, 10]
    ensures AppendDecoder.HasCr(raw) && Strtoull(raw) == Number(0, |line|, false)
  {
    hide IsHex, HexValue, Strtoull, AppendDecoder.HasCr;
    assert raw == line + ([13, 10] + [13, 10]);
    AppendDecoder.HasCrAfter(line, [13, 10] + [13, 10]);
    AppendDecoder.LongDigits(line, raw);
  }

  lemma {:induction false} TakenZeros(raw: seq<byte>, k: nat)
    requires AppendDecoder.HasCr(raw) && Strtoull(raw) == Number(0, k, false) && |raw| == k + 4 && k < LONG_MAX
    ensures AppendDecoder.Absorb(raw) == AppendDecoder.Absorbed([], [], true, AppendDecoder.Fine)
  {
    hide AppendDecoder.Absorb, AppendDecoder.HasCr, Strtoull;
    TakenIs(raw, k, 0);
    assert raw[k + 4..] == [] && raw[k + 2..k + 2] == [];
    AppendDecoder.AbsorbOne([]);
  }

  /** A last chunk may be written with any number of zeros. The appending decoder ends the body there whatever their number
      is, the in-place decoder only if there is one or three of them; it calls any other number malformed. */
  lemma {:induction false} LastChunkZeros(k: nat)
    requires 0 < k < LONG_MAX
    ensures var raw := Zeros(k) + [13, 10] + [13, 10];
            && Drain(raw) == (if k == 1 || k == 3 then Progress([], [], Ok) else Progress([], raw, Error))
            && AppendDecoder.Absorb(raw) == AppendDecoder.Absorbed([], [], true, AppendDecoder.Fine)
  {
    hide *;
    var raw := Zeros(k) + [13, 10] + [13, 10];
    ScanZeros(k);
    AbsorbZeros(k);
    DrainEnds(raw, k + 2);
  }

  lemma {:induction false} DrainEnds(raw: seq<byte>, h: nat)
    requires |raw| == h + 2
    ensures ScanChunk(raw) == Complete(h, 0) ==> Drain(raw) == Progress([], [], Ok)
    ensures ScanChunk(raw) == Malformed ==> Drain(raw) == Progress([], raw, Error)
  {
    hide ScanChunk, Drain;
    DrainOne(raw);
    assert raw[h + 2..] == [] && raw[h..h] == [];
  }
}
