/** Bytes as the C sources see them, and the control characters the parsers look for. */
module Bytes {
  type byte = b: int | 0 <= b < 256

  const NUL: byte := 0
  const LF: byte := 10
  const CR: byte := 13
  const SPACE: byte := 32
  const QUOTE: byte := 34
  const COMMA: byte := 44

  /** One more than the largest 32-bit number. */
  const UINT32: nat := 0x1_0000_0000

  datatype Option<T> = None | Some(value: T)

  function Min(a: int, b: int): (m: int)
    ensures m <= a && m <= b && (m == a || m == b)
  {
    if a < b then a else b
  }

  /** A string of seven-bit characters as bytes. */
  function Ascii(s: string): (b: seq<byte>)
    requires forall c :: c in s ==> c < 128 as char
    ensures |b| == |s| && forall i :: 0 <= i < |s| ==> b[i] == s[i] as int
  {
    if s == [] then []
    else
      assert s[0] in s && forall c :: c in s[1..] ==> c in s;
      var first: byte := s[0] as int;
      [first] + Ascii(s[1..])
  }

  lemma Characters()
    ensures Ascii("\0\n\r \",") == [NUL, LF, CR, SPACE, QUOTE, COMMA]
  {
  }

  /** The concatenation of a list of byte strings, first to last. */
  function Concat(parts: seq<seq<byte>>): (all: seq<byte>) {
    if parts == [] then [] else parts[0] + Concat(parts[1..])
  }

  lemma {:induction false} ConcatAppend(a: seq<seq<byte>>, b: seq<seq<byte>>)
    ensures Concat(a + b) == Concat(a) + Concat(b)
  {
    if a == [] {
      assert a + b == b;
    } else {
      assert (a + b)[1..] == a[1..] + b;
      ConcatAppend(a[1..], b);
    }
  }

  lemma Assoc<T>(a: seq<T>, b: seq<T>, c: seq<T>)
    ensures a + b + c == a + (b + c)
  {
  }

  /** The text of a C string: what stands before its first NUL. */
  function Text(s: seq<byte>): (t: seq<byte>)
    ensures t <= s && NUL !in t && (NUL !in s ==> t == s)
  {
    if s == [] || s[0] == NUL then [] else [s[0]] + Text(s[1..])
  }

  /** What is left of a stream after some of it was read. */
  predicate Suffix(stream: seq<byte>, rest: seq<byte>) {
    |rest| <= |stream| && rest == stream[|stream| - |rest|..]
  }

  lemma SuffixTail(stream: seq<byte>, rest: seq<byte>)
    requires Suffix(stream, rest) && rest != []
    ensures Suffix(stream, rest[1..])
  {
  }

  lemma SuffixSelf(stream: seq<byte>)
    ensures Suffix(stream, stream)
  {
  }

  /** What was read of it. */
  function Front(stream: seq<byte>, rest: seq<byte>): seq<byte> {
    if |rest| <= |stream| then stream[..|stream| - |rest|] else []
  }

  lemma FrontNone(a: seq<byte>, stream: seq<byte>)
    ensures Suffix(stream, stream) && a + Front(stream, stream) == a
  {
  }

  lemma FrontIs(stream: seq<byte>, n: nat)
    requires n <= |stream|
    ensures Suffix(stream, stream[n..]) && Front(stream, stream[n..]) == stream[..n]
  {
  }

  lemma FrontTwice(a: seq<byte>, stream: seq<byte>, mid: seq<byte>, rest: seq<byte>)
    requires Suffix(stream, mid) && Suffix(mid, rest)
    ensures Suffix(stream, rest) && |rest| <= |mid| <= |stream|
    ensures a + Front(stream, mid) + Front(mid, rest) == a + Front(stream, rest)
  {
    assert Front(stream, mid) + Front(mid, rest) == Front(stream, rest);
  }
}
