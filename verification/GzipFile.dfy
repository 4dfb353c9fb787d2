/** Reading a gzip file in pieces, as the tail input does: fill the window, then decompress once. */
module GzipFile {
  import opened Bytes
  import opened GzipCodec
  import opened GzipStages
  import opened GzipStreaming
  import opened DecompressionWindow
  import GzipMembers

  lemma {:induction false} StreamAppend<S>(c: Codec<S>, a: seq<seq<byte>>, b: seq<seq<byte>>)
    ensures Stream(c, a + b) == Stream(c, a) + Stream(c, b)
  {
    hide Compress;
    if a == [] {
      assert a + b == b;
    } else {
      assert (a + b)[1..] == a[1..] + b;
      StreamAppend(c, a[1..], b);
    }
  }

  /** More bytes in the window, still those ahead. */
  lemma Filled<S>(c: Codec<S>, f: Conf<S>, plan: Plan, window: seq<byte>)
    requires Follows(c, f, plan) && window <= Ahead(c, plan)
    ensures Follows(c, f.(window := window), plan)
  {
    hide Ahead;
  }

  /** At the end of the file, and whenever the window cannot be filled, the next stage has all it needs. */
  lemma NotStuck<S>(c: Codec<S>, f: Conf<S>, plan: Plan, rest: seq<byte>, size: nat)
    requires Follows(c, f, plan) && Ahead(c, plan) == f.window + rest && f.window != []
    requires size >= 20 && (rest == [] || 2 * |f.window| >= size)
    ensures !Waiting(f)
  {
    hide Stream;
    if rest == [] && f.stage == ExpectHeader {
      GzipMembers.StreamLength(c, plan.ds);
      NonEmpty(c, plan.ds);
      assert Ahead(c, plan) == Stream(c, plan.ds);
    }
  }

  /** Nothing ahead means nothing owed. */
  lemma Finished<S>(c: Codec<S>, f: Conf<S>, plan: Plan)
    requires Follows(c, f, plan) && f.stage != ExpectOptional && Ahead(c, plan) == []
    ensures Owed(plan) == [] && f.stage == ExpectHeader
  {
    hide Stream;
    NonEmpty(c, plan.ds);
    assert |plan.foot| == 0 && Stream(c, plan.ds) == [];
  }

  /** Where a window of just a header ends. */
  lemma AfterHeader<S>(c: Codec<S>, f: Conf<S>, plan: Plan, ds: seq<seq<byte>>, pos: nat)
    requires Follows(c, f, plan) && f.stage == ExpectHeader && |f.window| == 10 && Later(ds, plan.ds)
    requires pos <= |Stream(c, ds)| && Ahead(c, plan) == f.window + Stream(c, ds)[pos..]
    ensures plan.ds != [] && Stream(c, ds)[..pos] == Stream(c, ds[..|ds| - |plan.ds|]) + PLAIN_HEADER
  {
    hide Stream;
    var k := |ds| - |plan.ds|;
    var file := Stream(c, ds);
    assert ds == ds[..k] + plan.ds;
    StreamAppend(c, ds[..k], plan.ds);
    assert Ahead(c, plan) == Stream(c, plan.ds);
    NonEmpty(c, plan.ds);
    StreamOpen(c, plan.ds);
    assert f.window == Stream(c, plan.ds)[..10] == PLAIN_HEADER;
    assert file[..pos] == Stream(c, ds[..k]) + Stream(c, plan.ds)[..10];
  }

  /** What holds between rounds. */
  ghost predicate Between<S>(c: Codec<S>, f: Conf<S>, plan: Plan, ds: seq<seq<byte>>, pos: nat, data: seq<byte>) {
    && pos <= |Stream(c, ds)|
    && Follows(c, f, plan) && f.stage != ExpectOptional && Later(ds, plan.ds)
    && Ahead(c, plan) == f.window + Stream(c, ds)[pos..]
    && data + Owed(plan) == Concat(ds)
  }

  lemma Start<S>(c: Codec<S>, f: Conf<S>, ds: seq<seq<byte>>)
    requires f.stage == ExpectHeader && f.window == []
    ensures Between(c, f, Plan([], [], [], ds), ds, 0, [])
  {
    var plan := Plan([], [], [], ds);
    assert Ahead(c, plan) == Stream(c, ds) && Owed(plan) == Concat(ds);
  }

  lemma Fills<S>(c: Codec<S>, f: Conf<S>, plan: Plan, ds: seq<seq<byte>>, pos: nat, data: seq<byte>, n: nat)
    requires Between(c, f, plan, ds, pos, data) && pos + n <= |Stream(c, ds)|
    ensures Between(c, f.(window := f.window + Stream(c, ds)[pos..pos + n]), plan, ds, pos + n, data)
  {
    hide Stream, Follows, Ahead, Owed;
    var file := Stream(c, ds);
    var w := f.window + file[pos..pos + n];
    assert file[pos..] == file[pos..pos + n] + file[pos + n..];
    assert Ahead(c, plan) == w + file[pos + n..];
    Filled(c, f, plan, w);
    assert f.(window := w).stage == f.stage;
  }

  /** A header is expected and the window holds its ten bytes and no more. */
  predicate JustHeader<S>(f: Conf<S>) {
    f.stage == ExpectHeader && |f.window| == 10
  }

  /** A round's call, on the plan. */
  lemma Calls<S(!new)>(c: Codec<S>, f: Conf<S>, plan: Plan, ds: seq<seq<byte>>, pos: nat, data: seq<byte>, room: nat)
    returns (next: Plan)
    requires Lawful(c) && Between(c, f, plan, ds, pos, data) && f.window != [] && room > 0
    ensures var t := Dispatch(c, f, room);
            if t.status < 0 then pos <= |Stream(c, ds)| && AtHeaderEnd(c, ds, pos) && JustHeader(f)
            else !JustHeader(f) && Between(c, t.conf, next, ds, pos, data + t.out)
                 && Rank(c, t.conf.stage, next) <= Rank(c, f.stage, plan)
                 && (!Waiting(f) ==> Rank(c, t.conf.stage, next) < Rank(c, f.stage, plan))
  {
    hide Stream, Follows, Ahead, Owed, Dispatch;
    next := DispatchMoves(c, f, plan, room);
    var t := Dispatch(c, f, room);
    if t.status < 0 {
      AfterHeader(c, f, plan, ds, pos);
    } else {
      MovesRank(c, f, plan, t, next);
      Joins(c, f, plan, ds, pos, data, t, next);
    }
  }

  lemma Joins<S>(c: Codec<S>, f: Conf<S>, plan: Plan, ds: seq<seq<byte>>, pos: nat, data: seq<byte>, t: Turn<S>, next: Plan)
    requires Between(c, f, plan, ds, pos, data) && Moves(c, f, plan, t, next) && Dropped(f.window, t.conf.window)
    requires t.conf.stage != ExpectOptional
    ensures Between(c, t.conf, next, ds, pos, data + t.out)
  {
    hide Stream, Follows, Ahead, Owed;
    var k := |f.window| - |t.conf.window|;
    var rest := Stream(c, ds)[pos..];
    assert f.window == f.window[..k] + t.conf.window;
    assert f.window[..k] + Ahead(c, next) == f.window[..k] + (t.conf.window + rest);
    Cancel(f.window[..k], Ahead(c, next), t.conf.window + rest);
    assert data + (t.out + Owed(next)) == data + t.out + Owed(next);
    assert next.ds == ds[|ds| - |next.ds|..];
  }

  lemma Cancel(a: seq<byte>, x: seq<byte>, y: seq<byte>)
    requires a + x == a + y
    ensures x == y
  {
    assert x == (a + x)[|a|..] == (a + y)[|a|..] == y;
  }

  /** The first `pos` bytes of the file end with the header of one of its members. */
  ghost predicate AtHeaderEnd<S>(c: Codec<S>, ds: seq<seq<byte>>, pos: nat)
    requires pos <= |Stream(c, ds)|
  {
    exists k :: 0 <= k < |ds| && Stream(c, ds)[..pos] == Stream(c, ds[..k]) + PLAIN_HEADER
  }

  // ----- rounds -----

  /** Where a run stands: the context, how far the file is read, the data given, and whether a call failed. */
  datatype Stand<S> = Stand(m: Machine<S>, pos: nat, data: seq<byte>, failed: bool)

  /** The next piece of the file that is asked for. */
  function Piece(file: seq<byte>, pos: nat, want: nat): seq<byte> {
    if pos <= |file| then file[pos..pos + Min(want, |file| - pos)] else []
  }

  /** One round: read what fits, then decompress once if there is anything in the window. */
  function RoundOf<S>(c: Codec<S>, size: nat, file: seq<byte>, st: Stand<S>, want: nat, room: nat): Stand<S> {
    if st.failed then st else
    var piece := Piece(file, st.pos, want);
    var m, pos := Appended(st.m, size, piece), st.pos + Accepts(st.m, size, piece);
    if m.conf.window == [] then Stand(m, pos, st.data, false)
    else
      var t := Dispatch(c, m.conf, room);
      Stand(Moved(m, t.conf), pos, if t.status < 0 then st.data else st.data + t.out, t.status < 0)
  }

  /** The next round would come to a header with ten bytes in the window. */
  predicate TenAhead<S>(size: nat, file: seq<byte>, st: Stand<S>, want: nat) {
    st.m.conf.stage == ExpectHeader && |st.m.conf.window| + Accepts(st.m, size, Piece(file, st.pos, want)) == 10
  }

  function Rounds<S>(c: Codec<S>, size: nat, file: seq<byte>, wants: nat -> nat, rooms: nat -> nat, first: Stand<S>, n: nat): Stand<S> {
    if n == 0 then first
    else RoundOf(c, size, file, Rounds(c, size, file, wants, rooms, first, n - 1), wants(n - 1), rooms(n - 1))
  }

  lemma RoundsNext<S>(c: Codec<S>, size: nat, file: seq<byte>, wants: nat -> nat, rooms: nat -> nat, first: Stand<S>, n: nat)
    ensures Rounds(c, size, file, wants, rooms, first, 0) == first
    ensures Rounds(c, size, file, wants, rooms, first, n + 1)
         == RoundOf(c, size, file, Rounds(c, size, file, wants, rooms, first, n), wants(n), rooms(n))
  {
    hide RoundOf;
  }

  /** All read and nothing in the window. */
  predicate Complete<S>(file: seq<byte>, st: Stand<S>) {
    !st.failed && st.pos == |file| && st.m.conf.window == []
  }

  lemma RoundComplete<S>(c: Codec<S>, size: nat, file: seq<byte>, st: Stand<S>, want: nat, room: nat)
    requires Complete(file, st)
    ensures Complete(file, RoundOf(c, size, file, st, want, room))
  {
    hide Dispatch, Moved;
    assert Piece(file, st.pos, want) == [];
    assert st.m.conf.window + [] == [];
  }

  lemma {:induction false} CompleteStays<S>(c: Codec<S>, size: nat, file: seq<byte>, wants: nat -> nat, rooms: nat -> nat,
                                            first: Stand<S>, k: nat, n: nat)
    requires k <= n && Complete(file, Rounds(c, size, file, wants, rooms, first, k))
    ensures Complete(file, Rounds(c, size, file, wants, rooms, first, n))
    decreases n
  {
    hide Rounds, RoundOf;
    if k < n {
      CompleteStays(c, size, file, wants, rooms, first, k, n - 1);
      RoundsNext(c, size, file, wants, rooms, first, n - 1);
      RoundComplete(c, size, file, Rounds(c, size, file, wants, rooms, first, n - 1), wants(n - 1), rooms(n - 1));
    }
  }

  /** None of the first `n` rounds started with ten bytes ahead. */
  ghost predicate NoTen<S>(c: Codec<S>, size: nat, file: seq<byte>, wants: nat -> nat, rooms: nat -> nat, first: Stand<S>, n: nat) {
    forall k: nat :: k < n ==> !TenAhead(size, file, Rounds(c, size, file, wants, rooms, first, k), wants(k))
  }

  /** A run that is complete after `n` rounds without ten bytes ahead has them in no round. */
  lemma NeverTen<S>(c: Codec<S>, size: nat, file: seq<byte>, wants: nat -> nat, rooms: nat -> nat, first: Stand<S>, n: nat, k: nat)
    requires Complete(file, Rounds(c, size, file, wants, rooms, first, n)) && NoTen(c, size, file, wants, rooms, first, n)
    ensures !TenAhead(size, file, Rounds(c, size, file, wants, rooms, first, k), wants(k))
  {
    hide Rounds;
    if k >= n {
      CompleteStays(c, size, file, wants, rooms, first, n, k);
    }
  }

  /** One round of the context is a round of the run. It fails exactly if a header is expected and the window then holds
      ten bytes; else it makes progress. In a buffer of more than twenty bytes a caller can tell beforehand. */
  method Round<S(!new)>(ctx: Context<S>, file: seq<byte>, at: nat, want: nat, room: nat,
                        ghost ds: seq<seq<byte>>, ghost before: Plan, ghost data: seq<byte>)
    returns (status: int, out: seq<byte>, pos: nat, ghost plan: Plan)
    requires Lawful(ctx.codec) && ctx.Valid() && ctx.buffer.Length >= 20 && want > 0 && room > 0
    requires file == Stream(ctx.codec, ds) && Between(ctx.codec, ctx.Standing(), before, ds, at, data)
    requires at < |file| || ctx.length > 0
    modifies ctx, ctx.buffer
    ensures ctx.Valid() && at <= pos <= |file|
    ensures Stand(ctx.Whole(), pos, if status < 0 then data else data + out, status < 0)
            == RoundOf(ctx.codec, ctx.buffer.Length, file, Stand(old(ctx.Whole()), at, data, false), want, room)
    ensures status < 0 <==> TenAhead(ctx.buffer.Length, file, Stand(old(ctx.Whole()), at, data, false), want)
    ensures status < 0 <==> old(ctx.stage) == ExpectHeader && old(ctx.length) + (pos - at) == 10
    ensures ctx.buffer.Length > 20 ==>
              (status < 0 <==> old(ctx.stage) == ExpectHeader && old(ctx.length) + Min(want, |file| - at) == 10)
    ensures ctx.buffer.Length > 20 && want > 10 ==> status >= 0
    ensures old(ctx.length) + want <= 10 ==> pos == at + Min(want, |file| - at)
    ensures status < 0 ==> AtHeaderEnd(ctx.codec, ds, pos)
    ensures status >= 0 ==>
              && Between(ctx.codec, ctx.Standing(), plan, ds, pos, data + out)
              && |file| - pos + Rank(ctx.codec, ctx.stage, plan) < |file| - at + Rank(ctx.codec, old(ctx.stage), before)
  {
    hide Between, Rank, Stream, Dispatch, Waiting, Sane, Lawful, AtHeaderEnd, Moved, Context.Window;
    BetweenBound(ctx.codec, ctx.Standing(), before, ds, at, data);
    var piece := Piece(file, at, want);
    FitsTen(ctx.Whole(), ctx.buffer.Length, piece);
    var n := ctx.Fill(piece);
    pos, plan := at + n, before;
    assert piece[..n] == file[at..pos];
    Fills(ctx.codec, old(ctx.Standing()), before, ds, at, data, n);
    ghost var f := ctx.Standing();
    assert f.window == [] <==> |f.window| == 0;
    if n == 0 {
      ReadyToCall(ctx.codec, f, before, ds, pos, data, ctx.buffer.Length);
    }
    NotAllTen(ctx.codec, f, before, ds, pos, data);
    status, out := 0, [];
    if ctx.length > 0 {
      plan := Calls(ctx.codec, f, before, ds, pos, data, room);
      status, out := ctx.Decompress(room);
    }
  }

  /** In a buffer of more than twenty bytes a window of up to ten can be filled up to ten and beyond. */
  lemma FitsTen<S>(m: Machine<S>, size: nat, data: seq<byte>)
    requires m.offset + |m.conf.window| <= size
    ensures size > 20 ==> |m.conf.window| + Accepts(m, size, data) >= Min(11, |m.conf.window| + |data|)
    ensures size == 20 ==> |m.conf.window| + Accepts(m, size, data) >= Min(10, |m.conf.window| + |data|)
  {
  }

  /** Ten bytes before a header are never the end of the file. */
  lemma NotAllTen<S>(c: Codec<S>, f: Conf<S>, plan: Plan, ds: seq<seq<byte>>, pos: nat, data: seq<byte>)
    requires Between(c, f, plan, ds, pos, data)
    ensures f.stage == ExpectHeader && |f.window| == 10 ==> pos < |Stream(c, ds)|
  {
    hide Stream, Owed;
    if f.stage == ExpectHeader && |f.window| == 10 {
      assert Ahead(c, plan) == Stream(c, plan.ds);
      NonEmpty(c, plan.ds);
      GzipMembers.StreamLength(c, plan.ds);
    }
  }

  lemma BetweenBound<S>(c: Codec<S>, f: Conf<S>, plan: Plan, ds: seq<seq<byte>>, pos: nat, data: seq<byte>)
    requires Between(c, f, plan, ds, pos, data)
    ensures pos <= |Stream(c, ds)| && f.stage != ExpectOptional && data <= Concat(ds)
  {
    hide Stream, Owed;
  }

  lemma ReadyToCall<S>(c: Codec<S>, f: Conf<S>, plan: Plan, ds: seq<seq<byte>>, pos: nat, data: seq<byte>, size: nat)
    requires Between(c, f, plan, ds, pos, data) && size >= 20 && f.window != []
    requires pos == |Stream(c, ds)| || 2 * |f.window| >= size
    ensures !Waiting(f)
  {
    hide Stream, Follows, Ahead;
    NotStuck(c, f, plan, Stream(c, ds)[pos..], size);
  }

  lemma Ended<S>(c: Codec<S>, f: Conf<S>, plan: Plan, ds: seq<seq<byte>>, pos: nat, data: seq<byte>)
    requires Between(c, f, plan, ds, pos, data) && pos == |Stream(c, ds)| && f.window == []
    ensures data == Concat(ds) && f.stage == ExpectHeader
  {
    hide Stream, Follows, Ahead, Owed;
    Finished(c, f, plan);
  }

  /** A file of compressed members, read in pieces of any sizes into a window of at least twenty bytes, decompressed
      into rooms of any sizes. The run ends. It gives the data of all the members in order if no round comes to a header
      with ten bytes, and stops behind the header of a member at the first that does. With more than twenty bytes and
      pieces of more than ten, none does. */
  method ReadFile<S(!new)>(ctx: Context<S>, file: seq<byte>, wants: nat -> nat, rooms: nat -> nat, ghost ds: seq<seq<byte>>)
    returns (ok: bool, data: seq<byte>, pos: nat, rounds: nat)
    requires Lawful(ctx.codec) && ctx.Valid() && ctx.buffer.Length >= 20
    requires ctx.stage == ExpectHeader && ctx.length == 0
    requires forall i :: wants(i) > 0 && rooms(i) > 0
    requires file == Stream(ctx.codec, ds)
    modifies ctx, ctx.buffer
    ensures ctx.Valid() && pos <= |file| && data <= Concat(ds)
    ensures Stand(ctx.Whole(), pos, data, !ok)
            == Rounds(ctx.codec, ctx.buffer.Length, file, wants, rooms, Stand(old(ctx.Whole()), 0, [], false), rounds)
    ensures ok <==> forall k: nat ::
                      !TenAhead(ctx.buffer.Length, file,
                                Rounds(ctx.codec, ctx.buffer.Length, file, wants, rooms, Stand(old(ctx.Whole()), 0, [], false), k), wants(k))
    ensures ok ==> pos == |file| && data == Concat(ds) && ctx.stage == ExpectHeader && ctx.length == 0
    ensures !ok ==> AtHeaderEnd(ctx.codec, ds, pos)
    ensures ctx.buffer.Length > 20 && (forall i :: wants(i) > 10) ==> ok
    ensures wants(0) == 10 && ds != [] ==> !ok
  {
    hide Between, Rank, Stream, Sane, Lawful, AtHeaderEnd, RoundOf, Rounds, TenAhead, Concat, Context.Window;
    ok, data, pos := true, [], 0;
    ghost var plan := Plan([], [], [], ds);
    assert ctx.Window() == [];
    Start(ctx.codec, ctx.Standing(), ds);
    GzipMembers.StreamLength(ctx.codec, ds);
    ghost var first := Stand(ctx.Whole(), 0, [], false);
    rounds := 0;
    RoundsNext(ctx.codec, ctx.buffer.Length, file, wants, rooms, first, 0);
    while pos < |file| || ctx.length > 0
      invariant ctx.Valid() && pos <= |file|
      invariant Stand(ctx.Whole(), pos, data, false) == Rounds(ctx.codec, ctx.buffer.Length, file, wants, rooms, first, rounds)
      invariant NoTen(ctx.codec, ctx.buffer.Length, file, wants, rooms, first, rounds)
      invariant rounds == 0 ==> pos == 0 && ctx.stage == ExpectHeader && ctx.length == 0
      invariant wants(0) == 10 && ds != [] ==> rounds == 0 && |file| >= 10
      invariant Between(ctx.codec, ctx.Standing(), plan, ds, pos, data)
      decreases |file| - pos + Rank(ctx.codec, ctx.stage, plan)
    {
      BetweenBound(ctx.codec, ctx.Standing(), plan, ds, pos, data);
      RoundsNext(ctx.codec, ctx.buffer.Length, file, wants, rooms, first, rounds);
      var status, out;
      status, out, pos, plan := Round(ctx, file, pos, wants(rounds), rooms(rounds), ds, plan, data);
      rounds := rounds + 1;
      if status < 0 {
        return false, data, pos, rounds;
      }
      data := data + out;
    }
    assert ctx.Window() == [];
    Ended(ctx.codec, ctx.Standing(), plan, ds, pos, data);
    forall k: nat
      ensures !TenAhead(ctx.buffer.Length, file, Rounds(ctx.codec, ctx.buffer.Length, file, wants, rooms, first, k), wants(k))
    {
      NeverTen(ctx.codec, ctx.buffer.Length, file, wants, rooms, first, rounds, k);
    }
  }
}
