/** The stages of the stateful gzip decompressor, on values. */
module GzipStages {
  import opened Bytes
  import opened GzipCodec
  import GzipHeader

  const SUCCESS := 0
  const INSUFFICIENT_DATA := 0
  const FAILURE := -1
  const CORRUPTED_HEADER := -2

  datatype Stage = Broken | ExpectHeader | ExpectOptional | ExpectBody | ExpectFooter

  /** Where the decompressor stands: its stage, the ten header bytes it copied, the inflater and the bytes not yet read. */
  datatype Conf<S> = Conf(stage: Stage, header: seq<byte>, s: S, window: seq<byte>)

  datatype Turn<S> = Turn(conf: Conf<S>, status: int, out: seq<byte>)

  function Flags<S>(f: Conf<S>): byte {
    if |f.header| == 10 then f.header[3] else 0
  }

  predicate Has<S>(f: Conf<S>, bit: byte)
    requires bit != 0
  {
    GzipHeader.Has(Flags(f), bit)
  }

  // ----- bytes only ever leave the front of the window -----

  predicate Dropped(before: seq<byte>, after: seq<byte>) {
    |after| <= |before| && after == before[|before| - |after|..]
  }

  lemma DroppedTwice(a: seq<byte>, b: seq<byte>, c: seq<byte>)
    requires Dropped(a, b) && Dropped(b, c)
    ensures Dropped(a, c)
  {
    assert b[|b| - |c|..] == a[|a| - |c|..];
  }

  lemma DropsSome(a: seq<byte>, n: nat)
    requires n <= |a|
    ensures Dropped(a, a[n..]) && Dropped(a, a)
  {
  }

  // ----- the stages -----

  /** Drops `n` bytes of the window and clears a flag. */
  function Skip<S>(f: Conf<S>, n: nat, bit: byte): (g: Conf<S>)
    requires n <= |f.window| && bit != 0 && Has(f, bit)
    ensures |g.header| == |f.header| && g.stage == f.stage && Dropped(f.window, g.window)
  {
    DropsSome(f.window, n);
    f.(window := f.window[n..], header := f.header[3 := f.header[3] - bit])
  }

  function ProcessHeader<S>(f: Conf<S>): (t: Turn<S>)
    ensures Dropped(f.window, t.conf.window) && t.out == []
  {
    DropsSome(f.window, if |f.window| < 10 then 0 else 10);
    if |f.window| < 10 then Turn(f, INSUFFICIENT_DATA, []) else
    var g := f.(header := f.window[..10], window := f.window[10..]);
    if g.header[0] != 0x1F || g.header[1] != 0x8B || g.header[2] != 8 || g.header[3] >= 32
    then Turn(g.(stage := Broken), FAILURE, [])
    else Turn(g.(stage := ExpectOptional), SUCCESS, [])
  }

  /** A length in sixteen bits. */
  function Low16(n: nat): (k: nat)
    ensures k < 65536 && k <= n && (n < 65536 ==> k == n) && (n >= 65536 ==> k + 65536 <= n)
  {
    n % 65536
  }

  /** An optional field is done with, or waits for more bytes. */
  datatype Field<S> = Done(conf: Conf<S>) | Waits(conf: Conf<S>)

  function SkipExtra<S>(f: Conf<S>): (r: Field<S>)
    ensures r.conf.stage == f.stage && Dropped(f.window, r.conf.window)
  {
    DropsSome(f.window, 0);
    if !Has(f, 4) then Done(f)
    else if |f.window| <= 2 then Waits(f)
    else
      var xlen := Low16(2 + GzipHeader.ReadLe16(f.window, 0));
      if |f.window| < xlen then Waits(f) else Done(Skip(f, xlen, 4))
  }

  /** More flags to see to and nothing left to read. */
  predicate Starved<S>(f: Conf<S>) {
    Flags(f) != 0 && f.window == []
  }

  lemma SkipFits(text: nat, window: nat, extra: nat)
    requires text <= window && extra <= 1
    ensures Low16(text) != window ==> Low16(Low16(text) + extra) <= window
  {
    hide Low16;
  }

  /** A name or a comment: sixteen bits of the length of its text, and `extra` for its NUL. */
  function SkipText<S>(a: Field<S>, bit: byte, extra: nat): (r: Field<S>)
    requires bit != 0 && extra <= 1
    ensures r.conf.stage == a.conf.stage && Dropped(a.conf.window, r.conf.window)
  {
    var f := a.conf;
    DropsSome(f.window, 0);
    if a.Waits? || Starved(f) then Waits(f)
    else if !Has(f, bit) then Done(f)
    else
      var xlen := Low16(|Text(f.window)|);
      SkipFits(|Text(f.window)|, |f.window|, extra);
      if xlen == 0 || xlen == |f.window| then Waits(f) else Done(Skip(f, Low16(xlen + extra), bit))
  }

  function SkipFields<S>(f: Conf<S>): (r: Field<S>)
    ensures r.conf.stage == f.stage && Dropped(f.window, r.conf.window)
  {
    var a := SkipExtra(f);
    var b := SkipText(a, 8, 1);
    var d := SkipText(b, 16, 0);
    DroppedTwice(f.window, a.conf.window, b.conf.window);
    DroppedTwice(f.window, b.conf.window, d.conf.window);
    if Starved(d.conf) then Waits(d.conf) else d
  }

  /** The first field that waits stops the rest. */
  lemma FieldsStop<S>(f: Conf<S>)
    ensures var a := SkipExtra(f);
            var b := SkipText(a, 8, 1);
            var d := SkipText(b, 16, 0);
            && (a.Waits? ==> SkipFields(f) == a)
            && (b.Waits? ==> SkipFields(f) == b)
            && (d.Waits? || Starved(d.conf) ==> SkipFields(f) == Waits(d.conf))
            && (d.Done? && !Starved(d.conf) ==> SkipFields(f) == d)
  {
    hide Starved, SkipExtra, Skip, Has;
  }

  /** Compares the header checksum, if there is one, and starts the inflater. */
  function CheckCrc<S>(c: Codec<S>, g: Conf<S>): (t: Turn<S>)
    requires g.stage == ExpectOptional
    ensures Dropped(g.window, t.conf.window) && t.out == [] && (t.status < 0 <==> t.conf.stage == Broken)
  {
    DropsSome(g.window, 0);
    if !Has(g, 2) then Turn(g.(stage := ExpectBody, s := c.init), SUCCESS, [])
    else if |g.window| <= 2 then Turn(g, INSUFFICIENT_DATA, [])
    else if GzipHeader.ReadLe16(g.window, 0) != c.crc32(g.header) % 65536 then Turn(g.(stage := Broken), CORRUPTED_HEADER, [])
    else Turn(Skip(g, 2, 2).(stage := ExpectBody, s := c.init), SUCCESS, [])
  }

  function ProcessOptional<S>(c: Codec<S>, f: Conf<S>): (t: Turn<S>)
    requires f.stage == ExpectOptional
    ensures Dropped(f.window, t.conf.window) && t.out == [] && (t.status < 0 <==> t.conf.stage == Broken)
  {
    var r := SkipFields(f);
    if r.Waits? then Turn(r.conf, INSUFFICIENT_DATA, [])
    else
      var t := CheckCrc(c, r.conf);
      DroppedTwice(f.window, r.conf.window, t.conf.window);
      t
  }

  function ProcessBody<S>(c: Codec<S>, f: Conf<S>, room: nat): (t: Turn<S>)
    requires f.stage == ExpectBody
    ensures Dropped(f.window, t.conf.window) && t.status == if t.conf.stage == Broken then FAILURE else SUCCESS
  {
    DropsSome(f.window, 0);
    if room == 0 then Turn(f, SUCCESS, []) else
    var r := c.inflate(f.s, f.window, room);
    if r.status == Failed || r.taken > |f.window| then Turn(f.(stage := Broken), FAILURE, []) else
    DropsSome(f.window, r.taken);
    Turn(Conf(if r.status == StreamEnd then ExpectFooter else ExpectBody, f.header, r.state, f.window[r.taken..]), SUCCESS, r.out)
  }

  function ProcessFooter<S>(f: Conf<S>): (t: Turn<S>)
    requires f.stage == ExpectFooter
    ensures Dropped(f.window, t.conf.window) && t.out == [] && t.status == SUCCESS && t.conf.stage != Broken
  {
    DropsSome(f.window, if |f.window| < 8 then 0 else 8);
    if |f.window| < 8 then Turn(f, INSUFFICIENT_DATA, [])
    else Turn(f.(window := f.window[8..], stage := ExpectHeader), SUCCESS, [])
  }

  /** Header and optional headers, as far as the window reaches. */
  function Preamble<S>(c: Codec<S>, f: Conf<S>): (t: Turn<S>)
    ensures Dropped(f.window, t.conf.window) && t.out == [] && (f.stage != Broken ==> (t.status < 0 <==> t.conf.stage == Broken))
  {
    DropsSome(f.window, 0);
    var t := if f.stage == ExpectHeader then ProcessHeader(f) else Turn(f, SUCCESS, []);
    if t.status == SUCCESS && t.conf.stage == ExpectOptional then
      var u := ProcessOptional(c, t.conf);
      DroppedTwice(f.window, t.conf.window, u.conf.window);
      u
    else t
  }

  /** The body, and the footer if the body ends. */
  function Finish<S>(c: Codec<S>, f: Conf<S>, room: nat): (t: Turn<S>)
    ensures Dropped(f.window, t.conf.window) && (f.stage != Broken ==> (t.status < 0 <==> t.conf.stage == Broken))
  {
    DropsSome(f.window, 0);
    var u := if f.stage == ExpectBody then ProcessBody(c, f, room) else Turn(f, SUCCESS, []);
    if u.status == SUCCESS && u.conf.stage == ExpectFooter then
      var v := ProcessFooter(u.conf);
      DroppedTwice(f.window, u.conf.window, v.conf.window);
      Turn(v.conf, v.status, u.out)
    else u
  }

  /** One call: every stage whose turn it is. Having too little data has the same code as success, so it does not stop
      the stages; only the stage itself does. Whatever the bytes, a call reads from the front of the window and fails
      exactly when it breaks the context. */
  function Dispatch<S>(c: Codec<S>, f: Conf<S>, room: nat): (t: Turn<S>)
    ensures Dropped(f.window, t.conf.window) && (f.stage != Broken ==> (t.status < 0 <==> t.conf.stage == Broken))
  {
    var t := Preamble(c, f);
    if t.status != SUCCESS then t else
    var u := Finish(c, t.conf, room);
    DroppedTwice(f.window, t.conf.window, u.conf.window);
    u
  }
}
