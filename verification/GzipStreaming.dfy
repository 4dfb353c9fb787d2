/** The stateful decompressor on a stream of compressed members: what is ahead of it, and what it still owes. */
module GzipStreaming {
  import opened Bytes
  import opened GzipCodec
  import opened GzipStages

  /** The rest of the member under way, its body `z` carrying the data `d`, and the members behind it. */
  datatype Plan = Plan(z: seq<byte>, d: seq<byte>, foot: seq<byte>, ds: seq<seq<byte>>)

  /** The bytes not yet read. */
  function Ahead<S>(c: Codec<S>, plan: Plan): seq<byte> {
    plan.z + plan.foot + Stream(c, plan.ds)
  }

  /** The data not yet given. */
  function Owed(plan: Plan): seq<byte> {
    plan.d + Concat(plan.ds)
  }

  /** The decompressor stands where the plan says. */
  ghost predicate Follows<S>(c: Codec<S>, f: Conf<S>, plan: Plan) {
    && f.window <= Ahead(c, plan)
    && match f.stage
       case Broken => false
       case ExpectHeader => plan.z == [] && plan.d == [] && plan.foot == []
       case ExpectOptional => plan.z == c.deflate(plan.d) && |plan.foot| == 8 && Flags(f) == 0
       case ExpectBody => c.pending(f.s, plan.z, plan.d) && |plan.foot| == 8
       case ExpectFooter => plan.z == [] && plan.d == [] && |plan.foot| == 8
  }

  predicate Later(ds: seq<seq<byte>>, next: seq<seq<byte>>) {
    |next| <= |ds| && next == ds[|ds| - |next|..]
  }

  /** From one place to the next: the bytes read leave the front of what was ahead, the data given leaves the front of
      what was owed. */
  ghost predicate Moves<S>(c: Codec<S>, f: Conf<S>, plan: Plan, t: Turn<S>, next: Plan) {
    && Follows(c, t.conf, next)
    && |t.conf.window| <= |f.window|
    && Ahead(c, plan) == f.window[..|f.window| - |t.conf.window|] + Ahead(c, next)
    && Owed(plan) == t.out + Owed(next)
    && Later(plan.ds, next.ds)
  }

  lemma Stays<S>(c: Codec<S>, f: Conf<S>, plan: Plan)
    requires Follows(c, f, plan)
    ensures Moves(c, f, plan, Turn(f, SUCCESS, []), plan)
  {
    assert [] + Owed(plan) == Owed(plan);
    assert f.window[..0] + Ahead(c, plan) == Ahead(c, plan);
  }

  /** Reading `n` bytes that are ahead keeps the window a prefix of what is ahead. */
  lemma WindowMoves(window: seq<byte>, n: nat, ahead: seq<byte>, ahead': seq<byte>, head: seq<byte>)
    requires window <= ahead && n <= |window| && ahead == head + ahead' && |head| == n
    ensures window[n..] <= ahead' && window[..n] == head
  {
    assert ahead[..n] == head && ahead[n..] == ahead';
    assert window[n..] == ahead[n..][..|window| - n];
    assert window[..n] == ahead[..|window|][..n] == ahead[..n];
  }

  // ----- header -----

  lemma PastHeader<S(!new)>(c: Codec<S>, f: Conf<S>, plan: Plan) returns (next: Plan)
    requires Lawful(c) && Follows(c, f, plan) && f.stage == ExpectHeader
    ensures Moves(c, f, plan, ProcessHeader(f), next) && ProcessHeader(f).status == SUCCESS
    ensures ProcessHeader(f).conf.stage == if |f.window| < 10 then ExpectHeader else ExpectOptional
    ensures |f.window| >= 10 ==> f.window[..10] == PLAIN_HEADER && next.z != []
    ensures |f.window| < 10 ==> next == plan && ProcessHeader(f).conf == f
  {
    hide Stream, Concat, Ahead, Owed, ProcessHeader;
    next := plan;
    if |f.window| < 10 {
      HeaderWaits(f);
      Stays(c, f, plan);
    } else {
      next := OpensMember(c, plan, f.window);
      HeaderTaken(f);
    }
  }

  lemma HeaderWaits<S>(f: Conf<S>)
    requires |f.window| < 10
    ensures ProcessHeader(f) == Turn(f, SUCCESS, [])
  {
  }

  lemma HeaderTaken<S>(f: Conf<S>)
    requires |f.window| >= 10 && f.window[..10] == PLAIN_HEADER
    ensures ProcessHeader(f) == Turn(Conf(ExpectOptional, PLAIN_HEADER, f.s, f.window[10..]), SUCCESS, [])
  {
  }

  /** Behind the header of the first member stands its body. */
  lemma OpensMember<S(!new)>(c: Codec<S>, plan: Plan, window: seq<byte>) returns (next: Plan)
    requires Lawful(c) && window <= Ahead(c, plan) && |window| >= 10 && plan.z == plan.d == plan.foot == []
    ensures next.z == c.deflate(next.d) != [] && |next.foot| == 8 && Later(plan.ds, next.ds)
    ensures window[..10] == PLAIN_HEADER && window[10..] <= Ahead(c, next)
    ensures Ahead(c, plan) == PLAIN_HEADER + Ahead(c, next) && Owed(plan) == [] + Owed(next)
  {
    hide Stream, Footer, Concat, Sane, StepOk;
    NonEmpty(c, plan.ds);
    assert Ahead(c, plan) == Stream(c, plan.ds);
    var d, ds := plan.ds[0], plan.ds[1..];
    next := Plan(c.deflate(d), d, Footer(c, d), ds);
    StreamOpen(c, plan.ds);
    hide Lawful;
    WindowMoves(window, 10, Ahead(c, plan), Ahead(c, next), PLAIN_HEADER);
  }

  lemma NonEmpty<S>(c: Codec<S>, ds: seq<seq<byte>>)
    ensures |Stream(c, ds)| > 0 <==> ds != []
  {
  }

  lemma StreamOpen<S>(c: Codec<S>, ds: seq<seq<byte>>)
    requires ds != []
    ensures Stream(c, ds) == PLAIN_HEADER + (c.deflate(ds[0]) + Footer(c, ds[0]) + Stream(c, ds[1..]))
    ensures Concat(ds) == ds[0] + Concat(ds[1..])
  {
    hide Footer;
    var z, f, rest := c.deflate(ds[0]), Footer(c, ds[0]), Stream(c, ds[1..]);
    assert PLAIN_HEADER + z + f + rest == PLAIN_HEADER + (z + f + rest);
  }

  // ----- optional headers: none -----

  lemma PastOptional<S(!new)>(c: Codec<S>, f: Conf<S>, plan: Plan)
    requires Lawful(c) && Follows(c, f, plan) && f.stage == ExpectOptional
    ensures Moves(c, f, plan, ProcessOptional(c, f), plan) && ProcessOptional(c, f).status == SUCCESS
    ensures ProcessOptional(c, f).conf == f.(stage := ExpectBody, s := c.init)
  {
    hide Stream, Concat, Ahead, Owed, ProcessOptional;
    NoFlags(c, f);
    Stays(c, f, plan);
    assert c.pending(c.init, c.deflate(plan.d), plan.d);
  }

  lemma NoFlags<S>(c: Codec<S>, f: Conf<S>)
    requires Flags(f) == 0 && f.stage == ExpectOptional
    ensures ProcessOptional(c, f) == Turn(f.(stage := ExpectBody, s := c.init), SUCCESS, [])
  {
    assert !Has(f, 4) && !Has(f, 8) && !Has(f, 16) && !Has(f, 2);
    assert SkipExtra(f) == Done(f);
    assert SkipText(Done(f), 8, 1) == Done(f) && SkipText(Done(f), 16, 0) == Done(f);
  }

  // ----- body -----

  /** A body call moves the plan along, unless it is shown nothing while there is still something to read. */
  lemma PastBody<S(!new)>(c: Codec<S>, f: Conf<S>, plan: Plan, room: nat) returns (next: Plan)
    requires Lawful(c) && Follows(c, f, plan) && f.stage == ExpectBody && room > 0
    ensures ProcessBody(c, f, room).status < 0 <==> c.inflate(f.s, f.window, room).status == Failed
    ensures ProcessBody(c, f, room).status < 0 ==> f.window == [] && plan.z != []
    ensures ProcessBody(c, f, room).status >= 0 ==>
              var t := ProcessBody(c, f, room);
              Moves(c, f, plan, t, next) && t.conf.stage in {ExpectBody, ExpectFooter}
              && (f.window != [] ==> t.conf.stage == ExpectFooter || |t.conf.window| < |f.window| || t.out != [])
  {
    hide Stream, Concat, Ahead, Owed, StepOk, Dropped;
    var r := c.inflate(f.s, f.window, room);
    BodyStep(c, f, plan, room);
    next := plan;
    if r.status != Failed {
      next := BodyPlan(plan, r);
      BodyAhead(c, plan, r);
      WindowMoves(f.window, r.taken, Ahead(c, plan), Ahead(c, next), plan.z[..r.taken]);
    }
  }

  function BodyPlan<S>(plan: Plan, r: Inflated<S>): Plan
    requires r.taken <= |plan.z| && r.out <= plan.d
  {
    Plan(plan.z[r.taken..], plan.d[|r.out|..], plan.foot, plan.ds)
  }

  lemma BodyStep<S(!new)>(c: Codec<S>, f: Conf<S>, plan: Plan, room: nat)
    requires Lawful(c) && Follows(c, f, plan) && f.stage == ExpectBody && room > 0
    ensures var r := c.inflate(f.s, f.window, room);
            && (r.status == Failed ==> f.window == [] && plan.z != [])
            && (r.status != Failed ==> r.taken <= |plan.z| && r.taken <= |f.window| && r.out <= plan.d)
            && (r.status == Going ==> c.pending(r.state, plan.z[r.taken..], plan.d[|r.out|..])
                                      && (f.window != [] ==> r.taken > 0 || r.out != []))
            && (r.status == StreamEnd ==> r.taken == |plan.z| && r.out == plan.d)
  {
    hide Stream, Concat;
    var rest := plan.foot + Stream(c, plan.ds);
    assert Ahead(c, plan) == plan.z + rest;
    PrefixOfSum(f.window, plan.z, rest);
    assert StepOk(c, f.s, plan.z, plan.d, f.window, room);
  }

  lemma BodyAhead<S>(c: Codec<S>, plan: Plan, r: Inflated<S>)
    requires r.taken <= |plan.z| && r.out <= plan.d
    ensures Ahead(c, plan) == plan.z[..r.taken] + Ahead(c, BodyPlan(plan, r)) && Owed(plan) == r.out + Owed(BodyPlan(plan, r))
  {
    hide Stream, Concat;
    var next := BodyPlan(plan, r);
    assert plan.z == plan.z[..r.taken] + next.z && plan.d == r.out + next.d;
  }

  lemma PrefixOfSum(w: seq<byte>, a: seq<byte>, b: seq<byte>)
    requires w <= a + b
    ensures w <= a || a <= w
  {
    if |w| <= |a| {
      assert w == (a + b)[..|w|] == a[..|w|];
    } else {
      assert a == (a + b)[..|a|] == w[..|a|];
    }
  }

  // ----- footer -----

  lemma PastFooter<S>(c: Codec<S>, f: Conf<S>, plan: Plan) returns (next: Plan)
    requires Follows(c, f, plan) && f.stage == ExpectFooter
    ensures |f.window| < 8 ==> next == plan
    ensures Moves(c, f, plan, ProcessFooter(f), next)
    ensures ProcessFooter(f).conf.stage == if |f.window| < 8 then ExpectFooter else ExpectHeader
  {
    hide Stream, Concat;
    next := plan;
    if |f.window| < 8 {
      Stays(c, f, plan);
    } else {
      next := plan.(foot := []);
      assert Ahead(c, plan) == plan.foot + Ahead(c, next);
      WindowMoves(f.window, 8, Ahead(c, plan), Ahead(c, next), plan.foot);
      assert Owed(plan) == [] + Owed(next);
    }
  }

  // ----- a whole call -----

  lemma MovesTwice<S>(c: Codec<S>, f: Conf<S>, plan: Plan, t: Turn<S>, mid: Plan, u: Turn<S>, next: Plan)
    requires Moves(c, f, plan, t, mid) && Moves(c, t.conf, mid, u, next) && Dropped(f.window, t.conf.window)
    ensures Moves(c, f, plan, Turn(u.conf, u.status, t.out + u.out), next)
  {
    hide Ahead, Owed, Follows;
    var n, k := |f.window| - |t.conf.window|, |f.window| - |u.conf.window|;
    assert f.window[..k] == f.window[..n] + t.conf.window[..k - n];
    assert t.out + (u.out + Owed(next)) == t.out + u.out + Owed(next);
    assert f.window[..n] + (t.conf.window[..k - n] + Ahead(c, next)) == f.window[..k] + Ahead(c, next);
    assert next.ds == plan.ds[|plan.ds| - |next.ds|..];
  }

  /** Decreases with every call that does anything. */
  function Rank<S>(c: Codec<S>, stage: Stage, plan: Plan): nat {
    2 * (|Ahead(c, plan)| + |Owed(plan)|) + if stage in {ExpectOptional, ExpectBody} then 1 else 0
  }

  lemma MovesRank<S>(c: Codec<S>, f: Conf<S>, plan: Plan, t: Turn<S>, next: Plan)
    requires Moves(c, f, plan, t, next)
    ensures |Ahead(c, plan)| == |f.window| - |t.conf.window| + |Ahead(c, next)| && |Owed(plan)| == |t.out| + |Owed(next)|
    ensures |t.conf.window| < |f.window| || t.out != [] || (t.conf.stage !in {ExpectOptional, ExpectBody} && f.stage == ExpectBody) ==>
              Rank(c, t.conf.stage, next) < Rank(c, f.stage, plan)
    ensures f.stage in {ExpectOptional, ExpectBody} || t.conf.stage !in {ExpectOptional, ExpectBody} ==>
              Rank(c, t.conf.stage, next) <= Rank(c, f.stage, plan)
  {
    hide Ahead, Owed, Follows;
    assert t.out != [] ==> |t.out| > 0;
  }

  /** The stage cannot start before more bytes arrive. */
  predicate Waiting<S>(f: Conf<S>) {
    || (f.stage == ExpectHeader && |f.window| < 10)
    || (f.stage == ExpectFooter && |f.window| < 8)
  }

  /** A call that gets to the body with a fresh inflater: behind a header, or behind one read before. */
  predicate Opens<S>(f: Conf<S>) {
    f.stage == ExpectOptional || (f.stage == ExpectHeader && |f.window| >= 10)
  }

  /** Up to the body. */
  lemma PastPreamble<S(!new)>(c: Codec<S>, f: Conf<S>, plan: Plan) returns (next: Plan)
    requires Lawful(c) && Follows(c, f, plan)
    ensures var t := Preamble(c, f);
            && Moves(c, f, plan, t, next) && t.status == SUCCESS && t.conf.stage != ExpectOptional && t.out == []
            && (!Opens(f) ==> t.conf == f && next == plan)
            && (Opens(f) ==> t.conf.stage == ExpectBody && t.conf.s == c.init && next.z != []
                             && |t.conf.window| == |f.window| - if f.stage == ExpectHeader then 10 else 0)
  {
    hide Ahead, Owed, ProcessHeader, ProcessOptional, Sane, Dropped;
    next := plan;
    if f.stage == ExpectHeader {
      next := PastHeader(c, f, plan);
      var t := ProcessHeader(f);
      if |f.window| >= 10 {
        HeaderDropsTen(f);
        PastOptional(c, t.conf, next);
        MovesTwice(c, f, plan, t, next, ProcessOptional(c, t.conf), next);
      }
    } else if f.stage == ExpectOptional {
      PastOptional(c, f, plan);
      assert c.deflate(plan.d) != [];
    } else {
      Stays(c, f, plan);
    }
  }

  lemma HeaderDropsTen<S>(f: Conf<S>)
    requires |f.window| >= 10
    ensures |ProcessHeader(f).conf.window| == |f.window| - 10
  {
  }

  lemma FinishBody<S(!new)>(c: Codec<S>, f: Conf<S>, plan: Plan, room: nat) returns (next: Plan)
    requires Lawful(c) && Follows(c, f, plan) && f.stage == ExpectBody && room > 0
    ensures Finish(c, f, room).status < 0 <==> c.inflate(f.s, f.window, room).status == Failed
    ensures Finish(c, f, room).status < 0 ==> f.window == [] && plan.z != []
    ensures Finish(c, f, room).status >= 0 ==>
              var t := Finish(c, f, room);
              && Moves(c, f, plan, t, next) && t.conf.stage != ExpectOptional
              && (f.window != [] ==> |t.conf.window| < |f.window| || t.out != [] || t.conf.stage != ExpectBody)
  {
    hide Follows, Ahead, Owed, ProcessBody, ProcessFooter, Moves, Lawful, Sane, Dropped;
    next := PastBody(c, f, plan, room);
    var t := ProcessBody(c, f, room);
    if t.conf.stage == ExpectFooter {
      var mid := next;
      next := FromFooter(c, f, plan, t, mid);
    }
  }

  lemma FromFooter<S>(c: Codec<S>, f: Conf<S>, plan: Plan, t: Turn<S>, mid: Plan) returns (next: Plan)
    requires Moves(c, f, plan, t, mid) && t.conf.stage == ExpectFooter && Dropped(f.window, t.conf.window)
    ensures Moves(c, f, plan, Turn(ProcessFooter(t.conf).conf, SUCCESS, t.out), next)
    ensures ProcessFooter(t.conf).conf.stage in {ExpectFooter, ExpectHeader}
    ensures |t.conf.window| < 8 ==> next == mid
  {
    hide Follows, Ahead, Owed, ProcessFooter;
    next := PastFooter(c, t.conf, mid);
    var u := ProcessFooter(t.conf);
    MovesTwice(c, f, plan, t, mid, u, next);
    assert t.out + u.out == t.out;
  }

  /** From the body on. */
  lemma FinishMoves<S(!new)>(c: Codec<S>, f: Conf<S>, plan: Plan, room: nat) returns (next: Plan)
    requires Lawful(c) && Follows(c, f, plan) && f.stage != ExpectOptional
    ensures Finish(c, f, room).status < 0 <==> room > 0 && f.stage == ExpectBody && c.inflate(f.s, f.window, room).status == Failed
    ensures Finish(c, f, room).status < 0 ==> f.window == [] && plan.z != []
    ensures Finish(c, f, room).status >= 0 ==>
              var t := Finish(c, f, room);
              && Moves(c, f, plan, t, next) && t.conf.stage != ExpectOptional
              && (f.stage == ExpectHeader || Waiting(f) ==> t.conf == f && t.out == [] && next == plan)
              && Rank(c, t.conf.stage, next) <= Rank(c, f.stage, plan)
              && (f.window != [] && room > 0 && f.stage != ExpectHeader && !Waiting(f) ==>
                    Rank(c, t.conf.stage, next) < Rank(c, f.stage, plan))
  {
    hide Ahead, Owed, ProcessFooter, Moves, Rank, Lawful, Sane, Dropped;
    next := plan;
    Stays(c, f, plan);
    if f.stage == ExpectBody && room > 0 {
      next := FinishBody(c, f, plan, room);
    } else if f.stage == ExpectFooter {
      DropsSome(f.window, 0);
      next := FromFooter(c, f, plan, Turn(f, SUCCESS, []), plan);
      FooterDrops(f);
    }
    hide ProcessBody;
    var t := Finish(c, f, room);
    if t.status >= 0 {
      MovesRank(c, f, plan, t, next);
    }
  }

  lemma FooterDrops<S>(f: Conf<S>)
    requires f.stage == ExpectFooter
    ensures var t := ProcessFooter(f);
            if |f.window| < 8 then t.conf == f else |t.conf.window| == |f.window| - 8 && t.conf.stage == ExpectHeader
  {
  }

  /** The call gets to the body with nothing to show to an inflater that cannot do without. */
  predicate Starves<S>(c: Codec<S>, f: Conf<S>, room: nat) {
    || (f.stage == ExpectHeader && |f.window| == 10)
    || (f.stage == ExpectOptional && f.window == [])
    || (f.stage == ExpectBody && f.window == [] && c.inflate(f.s, [], room).status == Failed)
  }

  /** Any call anywhere in a stream of members. It fails exactly when there is room and the call starves. Otherwise it
      moves along the plan; a waiting stage does nothing, and any other call with bytes and room does something. */
  lemma DispatchMoves<S(!new)>(c: Codec<S>, f: Conf<S>, plan: Plan, room: nat) returns (next: Plan)
    requires Lawful(c) && Follows(c, f, plan)
    ensures Dispatch(c, f, room).status < 0 <==> room > 0 && Starves(c, f, room)
    ensures Dispatch(c, f, room).status >= 0 ==>
              var t := Dispatch(c, f, room);
              && Moves(c, f, plan, t, next) && t.conf.stage != ExpectOptional
              && (Waiting(f) ==> t.conf == f && t.out == [])
              && (!Waiting(f) && f.window != [] && room > 0 ==> Rank(c, t.conf.stage, next) < Rank(c, f.stage, plan))
  {
    hide Preamble, Finish, Moves, Rank, Lawful, Sane, Dropped, Follows;
    var mid := PastPreamble(c, f, plan);
    var t := Preamble(c, f);
    MovesFollows(c, f, plan, t, mid);
    MovesRank(c, f, plan, t, mid);
    if room > 0 {
      FreshFails(c, room);
    }
    assert |t.conf.window| == 0 <==> t.conf.window == [];
    next := FinishMoves(c, t.conf, mid, room);
    var u := Finish(c, t.conf, room);
    if u.status >= 0 {
      MovesTwice(c, f, plan, t, mid, u, next);
      assert t.out + u.out == u.out;
    }
  }

  lemma MovesFollows<S>(c: Codec<S>, f: Conf<S>, plan: Plan, t: Turn<S>, next: Plan)
    requires Moves(c, f, plan, t, next)
    ensures Follows(c, t.conf, next)
  {
  }

  lemma FreshFails<S(!new)>(c: Codec<S>, room: nat)
    requires Lawful(c) && room > 0
    ensures c.inflate(c.init, [], room).status == Failed
  {
  }

  /** So the same bytes are decompressed or refused depending on where a read ends: the ten header bytes alone break
      the context, the ten and one more do not. */
  lemma HeaderAloneBreaks<S(!new)>(c: Codec<S>, d: seq<byte>, room: nat, n: nat)
    requires Lawful(c) && room > 0 && 0 < n <= |Compress(c, d)|
    ensures Dispatch(c, Conf(ExpectHeader, [], c.init, Compress(c, d)[..n]), room).status == FAILURE <==> n == 10
  {
    var plan := Plan([], [], [], [d]);
    assert Stream(c, [d]) == Compress(c, d) + Stream(c, []) == Compress(c, d);
    assert Ahead(c, plan) == Compress(c, d);
    var f := Conf(ExpectHeader, [], c.init, Compress(c, d)[..n]);
    assert |f.window| == n;
    var next := DispatchMoves(c, f, plan, room);
    if n == 10 {
      HeaderTurn(c, f, plan, room);
    }
  }

  /** A call with nothing in the window is not stopped either: a header taken without room for output leaves the
      context before the body, and the next call, with nothing new to show, breaks it. */
  lemma EmptyWindowBreaks<S(!new)>(c: Codec<S>, d: seq<byte>, room: nat)
    requires Lawful(c) && room > 0
    ensures var t := Dispatch(c, Conf(ExpectHeader, [], c.init, Compress(c, d)[..10]), 0);
            && t.status == SUCCESS && t.conf.stage == ExpectBody && t.conf.window == []
            && Dispatch(c, t.conf, room).status == FAILURE
  {
    var plan := Plan([], [], [], [d]);
    assert Stream(c, [d]) == Compress(c, d) + Stream(c, []) == Compress(c, d);
    assert Ahead(c, plan) == Compress(c, d);
    var f := Conf(ExpectHeader, [], c.init, Compress(c, d)[..10]);
    assert |f.window| == 10;
    var mid := PastPreamble(c, f, plan);
    FreshFails(c, room);
    hide Preamble;
    var t := Preamble(c, f);
    assert t.conf.window == [];
    assert Finish(c, t.conf, 0) == t;
    BodyPreamble(c, t.conf);
  }

  lemma BodyPreamble<S>(c: Codec<S>, f: Conf<S>)
    requires f.stage == ExpectBody
    ensures Preamble(c, f) == Turn(f, SUCCESS, [])
  {
  }

  lemma HeaderTurn<S(!new)>(c: Codec<S>, f: Conf<S>, plan: Plan, room: nat)
    requires Lawful(c) && Follows(c, f, plan) && f.stage == ExpectHeader && |f.window| == 10 && room > 0
    ensures Dispatch(c, f, room).status == FAILURE
  {
    hide Follows, Moves, Preamble;
    var mid := PastPreamble(c, f, plan);
    FreshFails(c, room);
    assert Preamble(c, f).conf.window == [];
  }
}
