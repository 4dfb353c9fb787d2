/**
  The life of incoming connections as interleaved steps: accept coroutines start and return, sweeps
  look for timed-out connections and free doomed ones, and owners release what they were given.
 */
module ConnectionProtocol {

  /** FLB_INVALID_SOCKET. */
  const NO_SOCKET := -1

  /** A connection object; `hadSocket` and `closes` count what happened to its socket. */
  datatype Conn = Conn(fd: int, busy: bool, tsConnect: int, tsIo: int, hadSocket: bool, closes: nat)

  datatype Net = Net(acceptTimeout: int, ioTimeout: int)

  /** The live objects, the two queues, the accepts under way, and the objects as they were when freed. */
  datatype State<Id(==)> = State(conns: map<Id, Conn>, busyQueue: seq<Id>, destroyQueue: seq<Id>,
                                 accepting: set<Id>, freed: map<Id, Conn>)

  datatype Step<Id(==)> =
    | AcceptStart(id: Id, socket: int, now: int)
    | AcceptEnd(id: Id, ok: bool, now: int)
    | TimeoutSweep(now: int)
    | Traffic(id: Id, now: int)
    | Release(id: Id)
    | DestroySweep

  /** `mk_list_del`. */
  function Without<Id(==)>(q: seq<Id>, id: Id): seq<Id> {
    if q == [] then [] else (if q[0] == id then [] else [q[0]]) + Without(q[1..], id)
  }

  /** `prepare_destroy_conn`: closes the socket if it is open and moves the connection to the destroy queue. */
  function Doom<Id(==)>(s: State<Id>, id: Id): State<Id>
    requires id in s.conns
  {
    var c := s.conns[id];
    var closed := if c.fd != NO_SOCKET then c.(fd := NO_SOCKET, closes := c.closes + 1) else c;
    s.(conns := s.conns[id := closed],
       busyQueue := Without(s.busyQueue, id),
       destroyQueue := Without(s.destroyQueue, id) + [id])
  }

  function Start<Id(==)>(net: Net, s: State<Id>, id: Id, socket: int, now: int): State<Id> {
    var c := Conn(socket, true, if net.acceptTimeout > 0 then now + net.acceptTimeout else -1, -1, socket != NO_SOCKET, 0);
    s.(conns := s.conns[id := c], busyQueue := s.busyQueue + [id], accepting := s.accepting + {id})
  }

  function Retimed<Id(==)>(s: State<Id>, id: Id, tsConnect: int, tsIo: int): State<Id>
    requires id in s.conns
  {
    s.(conns := s.conns[id := s.conns[id].(tsConnect := tsConnect, tsIo := tsIo)])
  }

  /** The accept has returned: the busy flag is cleared. */
  function Idle<Id(==)>(s: State<Id>, id: Id): State<Id>
    requires id in s.conns
  {
    s.(conns := s.conns[id := s.conns[id].(busy := false)], accepting := s.accepting - {id})
  }

  function End<Id(==)>(net: Net, s: State<Id>, id: Id, ok: bool, now: int): State<Id>
    requires id in s.conns
  {
    var c := s.conns[id];
    if ok then Idle(Retimed(s, id, -1, if net.ioTimeout > 0 then now + net.ioTimeout else c.tsIo), id)
    else
      var t := Retimed(s, id, if net.acceptTimeout > 0 then now + net.acceptTimeout else c.tsConnect, c.tsIo);
      Idle(Doom(t, id), id)
  }

  /** Bytes were read or written: the I/O deadline moves. */
  function Active<Id(==)>(net: Net, s: State<Id>, id: Id, now: int): State<Id>
    requires id in s.conns
  {
    Retimed(s, id, s.conns[id].tsConnect, if net.ioTimeout > 0 then now + net.ioTimeout else s.conns[id].tsIo)
  }

  predicate Due(net: Net, c: Conn, now: int) {
    || (net.acceptTimeout > 0 && 0 < c.tsConnect <= now)
    || (net.ioTimeout > 0 && 0 < c.tsIo <= now)
  }

  function SweepTimeouts<Id(==)>(net: Net, s: State<Id>, ids: seq<Id>, now: int): State<Id>
    decreases |ids|
  {
    if ids == [] then s
    else
      var t := if ids[0] in s.conns && Due(net, s.conns[ids[0]], now) then Doom(s, ids[0]) else s;
      SweepTimeouts(net, t, ids[1..], now)
  }

  /** `destroy_conn`: a connection whose accept is under way is left for a later sweep. */
  function Free<Id(==)>(s: State<Id>, id: Id): State<Id>
    requires id in s.conns
  {
    if s.conns[id].busy then s
    else s.(conns := s.conns - {id}, destroyQueue := Without(s.destroyQueue, id), freed := s.freed[id := s.conns[id]])
  }

  function SweepDestroy<Id(==)>(s: State<Id>, ids: seq<Id>): State<Id>
    decreases |ids|
  {
    if ids == [] then s
    else SweepDestroy(if ids[0] in s.conns then Free(s, ids[0]) else s, ids[1..])
  }

  lemma SweepNone<Id>(s: State<Id>)
    ensures SweepDestroy(s, []) == s
  {
  }

  lemma SweepStep<Id>(s: State<Id>, ids: seq<Id>)
    requires ids != [] && ids[0] in s.conns
    ensures SweepDestroy(s, ids) == SweepDestroy(Free(s, ids[0]), ids[1..])
  {
  }

  /** Accepts start on new objects and return once, owners hold live objects, and a closed socket neither accepts nor moves
      bytes. */
  predicate Enabled<Id(==)>(s: State<Id>, step: Step<Id>) {
    match step
    case AcceptStart(id, socket, _) => id !in s.conns && id !in s.freed && socket >= NO_SOCKET
    case AcceptEnd(id, ok, _) => id in s.accepting && id in s.conns && (ok ==> s.conns[id].fd != NO_SOCKET)
    case Traffic(id, _) => id in s.conns && id !in s.accepting && s.conns[id].fd != NO_SOCKET
    case Release(id) => id in s.conns && id !in s.accepting
    case _ => true
  }

  function Next<Id(==)>(net: Net, s: State<Id>, step: Step<Id>): State<Id>
    requires Enabled(s, step)
  {
    match step
    case AcceptStart(id, socket, now) => Start(net, s, id, socket, now)
    case AcceptEnd(id, ok, now) => End(net, s, id, ok, now)
    case TimeoutSweep(now) => SweepTimeouts(net, s, s.busyQueue, now)
    case Traffic(id, now) => Active(net, s, id, now)
    case Release(id) => Doom(s, id)
    case DestroySweep => SweepDestroy(s, s.destroyQueue)
  }

  // ----- the invariant -----

  ghost function Members<Id>(q: seq<Id>): set<Id> {
    set id | id in q
  }

  predicate NoRepeats<Id(==)>(q: seq<Id>) {
    forall i, j :: 0 <= i < j < |q| ==> q[i] != q[j]
  }

  /** A socket is closed at most once, and only after it was opened. */
  predicate SocketOk(c: Conn) {
    && (c.fd != NO_SOCKET ==> c.hadSocket && c.closes == 0)
    && (c.fd == NO_SOCKET ==> c.closes == if c.hadSocket then 1 else 0)
  }

  /** Every live connection is in exactly one queue, once. */
  ghost predicate Queued<Id>(s: State<Id>) {
    && NoRepeats(s.busyQueue) && NoRepeats(s.destroyQueue)
    && s.conns.Keys == Members(s.busyQueue) + Members(s.destroyQueue)
    && Members(s.busyQueue) !! Members(s.destroyQueue)
  }

  /** Sockets are closed at most once, and always before their connection is doomed, let alone freed. */
  ghost predicate SocketsOk<Id>(s: State<Id>) {
    && (forall id :: id in s.conns ==> SocketOk(s.conns[id]))
    && (forall id :: id in s.conns && id in s.destroyQueue ==> s.conns[id].fd == NO_SOCKET)
    && (forall id :: id in s.freed ==> s.freed[id].fd == NO_SOCKET && SocketOk(s.freed[id]))
  }

  /** The accepts under way are those of the live connections marked busy, and nothing live has been freed. */
  ghost predicate AcceptsOk<Id>(s: State<Id>) {
    && (forall id :: id in s.accepting ==> id in s.conns)
    && (forall id :: id in s.conns ==> (s.conns[id].busy <==> id in s.accepting))
    && s.freed.Keys !! s.conns.Keys
  }

  ghost predicate Inv<Id>(s: State<Id>) {
    Queued(s) && SocketsOk(s) && AcceptsOk(s)
  }

  lemma {:induction false} WithoutHas<Id>(q: seq<Id>, id: Id)
    ensures Members(Without(q, id)) == Members(q) - {id}
    ensures NoRepeats(q) ==> NoRepeats(Without(q, id))
    ensures id !in q ==> Without(q, id) == q
  {
    if q != [] {
      WithoutHas(q[1..], id);
      assert q == [q[0]] + q[1..];
      assert Members(q) == {q[0]} + Members(q[1..]);
      assert Members(Without(q, id)) == (if q[0] == id then {} else {q[0]}) + Members(Without(q[1..], id));
      if NoRepeats(q) {
        assert NoRepeats(q[1..]) && q[0] !in Members(q[1..]);
        assert q[0] !in Members(Without(q[1..], id));
      }
    }
  }

  lemma DoomQueued<Id>(s: State<Id>, id: Id)
    requires Queued(s) && id in s.conns
    ensures Queued(Doom(s, id)) && Members(Doom(s, id).destroyQueue) == Members(s.destroyQueue) + {id}
  {
    hide Without;
    var t := Doom(s, id);
    WithoutHas(s.busyQueue, id);
    WithoutHas(s.destroyQueue, id);
    assert id !in Members(Without(s.destroyQueue, id));
    assert Members(t.destroyQueue) == Members(Without(s.destroyQueue, id)) + {id};
    assert t.conns.Keys == s.conns.Keys;
  }

  lemma DoomSockets<Id>(s: State<Id>, id: Id)
    requires SocketsOk(s) && id in s.conns
    requires Members(Doom(s, id).destroyQueue) == Members(s.destroyQueue) + {id}
    ensures SocketsOk(Doom(s, id))
  {
    hide Without;
    var t := Doom(s, id);
    forall k | k in t.conns
      ensures SocketOk(t.conns[k]) && (k in t.destroyQueue ==> t.conns[k].fd == NO_SOCKET)
    {
      assert k in t.destroyQueue <==> k in Members(t.destroyQueue);
      assert k in s.destroyQueue <==> k in Members(s.destroyQueue);
      assert k in s.conns && (k != id ==> t.conns[k] == s.conns[k]);
    }
  }

  lemma DoomAccepts<Id>(s: State<Id>, id: Id)
    requires AcceptsOk(s) && id in s.conns
    ensures AcceptsOk(Doom(s, id))
  {
    hide Without;
    var t := Doom(s, id);
    assert t.conns.Keys == s.conns.Keys;
    forall k | k in t.conns
      ensures t.conns[k].busy == s.conns[k].busy
    {
    }
  }

  /** Dooming a live connection keeps the invariant: it is in the destroy queue, its socket closed once. */
  lemma DoomInv<Id>(s: State<Id>, id: Id)
    requires Inv(s) && id in s.conns
    ensures Inv(Doom(s, id))
  {
    hide Queued, SocketsOk, AcceptsOk, Without;
    DoomQueued(s, id);
    DoomSockets(s, id);
    DoomAccepts(s, id);
  }

  lemma RetimedSame<Id>(s: State<Id>, id: Id)
    requires id in s.conns
    ensures Retimed(s, id, s.conns[id].tsConnect, s.conns[id].tsIo) == s
  {
    assert s.conns[id := s.conns[id]] == s.conns;
  }

  lemma RetimedInv<Id>(s: State<Id>, id: Id, tsConnect: int, tsIo: int)
    requires Inv(s) && id in s.conns
    ensures Inv(Retimed(s, id, tsConnect, tsIo))
  {
    var t := Retimed(s, id, tsConnect, tsIo);
    assert t.conns.Keys == s.conns.Keys;
  }

  lemma IdleInv<Id>(s: State<Id>, id: Id)
    requires Inv(s) && id in s.conns
    ensures Inv(Idle(s, id))
  {
    var t := Idle(s, id);
    assert t.conns.Keys == s.conns.Keys;
  }

  lemma StartInv<Id>(net: Net, s: State<Id>, id: Id, socket: int, now: int)
    requires Inv(s) && id !in s.conns && id !in s.freed
    ensures Inv(Start(net, s, id, socket, now))
  {
    var t := Start(net, s, id, socket, now);
    assert id !in Members(s.busyQueue) && id !in Members(s.destroyQueue);
    assert Members(t.busyQueue) == Members(s.busyQueue) + {id};
    assert t.conns.Keys == s.conns.Keys + {id};
  }

  lemma EndInv<Id>(net: Net, s: State<Id>, id: Id, ok: bool, now: int)
    requires Inv(s) && id in s.conns
    ensures Inv(End(net, s, id, ok, now))
  {
    hide Inv, Doom;
    var c := s.conns[id];
    if ok {
      var io := if net.ioTimeout > 0 then now + net.ioTimeout else c.tsIo;
      RetimedInv(s, id, -1, io);
      IdleInv(Retimed(s, id, -1, io), id);
    } else {
      var connect := if net.acceptTimeout > 0 then now + net.acceptTimeout else c.tsConnect;
      RetimedInv(s, id, connect, c.tsIo);
      DoomInv(Retimed(s, id, connect, c.tsIo), id);
      DoomLive(Retimed(s, id, connect, c.tsIo), id);
      IdleInv(Doom(Retimed(s, id, connect, c.tsIo), id), id);
    }
  }

  lemma DoomLive<Id>(s: State<Id>, id: Id)
    requires id in s.conns
    ensures Doom(s, id).conns.Keys == s.conns.Keys
  {
  }

  lemma FreeInv<Id>(s: State<Id>, id: Id)
    requires Inv(s) && id in s.conns && id in s.destroyQueue
    ensures Inv(Free(s, id))
  {
    hide Without;
    var t := Free(s, id);
    WithoutHas(s.destroyQueue, id);
    assert id in Members(s.destroyQueue);
    if !s.conns[id].busy {
      assert t.conns.Keys == s.conns.Keys - {id};
      assert forall k :: k in t.destroyQueue ==> k in Members(t.destroyQueue) && k in Members(s.destroyQueue);
    }
  }

  lemma {:induction false} SweepTimeoutsInv<Id>(net: Net, s: State<Id>, ids: seq<Id>, now: int)
    requires Inv(s)
    ensures Inv(SweepTimeouts(net, s, ids, now))
    decreases |ids|
  {
    hide Inv, Doom;
    if ids != [] {
      var due := ids[0] in s.conns && Due(net, s.conns[ids[0]], now);
      if due {
        DoomInv(s, ids[0]);
      }
      SweepTimeoutsInv(net, if due then Doom(s, ids[0]) else s, ids[1..], now);
    }
  }

  lemma {:induction false} SweepDestroyInv<Id>(s: State<Id>, ids: seq<Id>)
    requires Inv(s) && NoRepeats(ids) && forall i :: 0 <= i < |ids| ==> ids[i] in s.destroyQueue
    ensures Inv(SweepDestroy(s, ids))
    decreases |ids|
  {
    hide Without;
    if ids != [] {
      assert ids[0] in Members(s.destroyQueue);
      FreeInv(s, ids[0]);
      var t := Free(s, ids[0]);
      WithoutHas(s.destroyQueue, ids[0]);
      forall i | 0 <= i < |ids[1..]|
        ensures ids[1..][i] in t.destroyQueue
      {
        assert ids[1..][i] == ids[i + 1] != ids[0] && ids[i + 1] in Members(s.destroyQueue);
        assert ids[i + 1] in Members(t.destroyQueue);
      }
      SweepDestroyInv(t, ids[1..]);
    }
  }

  /** Every step keeps the invariant. */
  lemma NextInv<Id>(net: Net, s: State<Id>, step: Step<Id>)
    requires Inv(s) && Enabled(s, step)
    ensures Inv(Next(net, s, step))
  {
    assert NoRepeats(s.destroyQueue);
    hide Inv, Doom, Start, End, SweepTimeouts, SweepDestroy;
    match step
    case AcceptStart(id, socket, now) => StartInv(net, s, id, socket, now);
    case AcceptEnd(id, ok, now) => EndInv(net, s, id, ok, now);
    case TimeoutSweep(now) => SweepTimeoutsInv(net, s, s.busyQueue, now);
    case Traffic(id, now) =>
      RetimedInv(s, id, s.conns[id].tsConnect, if net.ioTimeout > 0 then now + net.ioTimeout else s.conns[id].tsIo);
    case Release(id) => DoomInv(s, id);
    case DestroySweep => SweepDestroyInv(s, s.destroyQueue);
  }

  // ----- whole runs -----

  predicate Runnable<Id(==)>(net: Net, s: State<Id>, steps: seq<Step<Id>>)
    decreases |steps|
  {
    steps == [] || (Enabled(s, steps[0]) && Runnable(net, Next(net, s, steps[0]), steps[1..]))
  }

  function Run<Id(==)>(net: Net, s: State<Id>, steps: seq<Step<Id>>): State<Id>
    requires Runnable(net, s, steps)
    decreases |steps|
  {
    if steps == [] then s else Run(net, Next(net, s, steps[0]), steps[1..])
  }

  /** In every interleaving every live connection is in exactly one queue, none is freed during its accept, and
      each socket is closed at most once and before its object is freed. */
  lemma {:induction false} RunInv<Id>(net: Net, s: State<Id>, steps: seq<Step<Id>>)
    requires Inv(s) && Runnable(net, s, steps)
    ensures Inv(Run(net, s, steps))
    decreases |steps|
  {
    hide Inv, Next;
    if steps != [] {
      NextInv(net, s, steps[0]);
      RunInv(net, Next(net, s, steps[0]), steps[1..]);
    }
  }

  lemma {:induction false} SweepTimeoutsKeeps<Id>(net: Net, s: State<Id>, ids: seq<Id>, now: int)
    requires Inv(s)
    ensures var t := SweepTimeouts(net, s, ids, now);
            t.accepting == s.accepting && t.freed == s.freed && Members(s.destroyQueue) <= Members(t.destroyQueue)
    decreases |ids|
  {
    if ids != [] {
      var due := ids[0] in s.conns && Due(net, s.conns[ids[0]], now);
      if due {
        DoomInv(s, ids[0]);
        DoomQueued(s, ids[0]);
      }
      hide Inv, Without;
      SweepTimeoutsKeeps(net, if due then Doom(s, ids[0]) else s, ids[1..], now);
    }
  }

  /** What dooming one connection does to it and to the others. */
  lemma DoomOne<Id>(s: State<Id>, id: Id, k: Id)
    requires Queued(s) && id in s.conns && k in s.conns
    ensures var t := Doom(s, id);
            && t.conns.Keys == s.conns.Keys
            && t.conns[k].tsConnect == s.conns[k].tsConnect && t.conns[k].tsIo == s.conns[k].tsIo
            && (k == id ==> k in t.destroyQueue && k !in t.busyQueue && t.conns[k].fd == NO_SOCKET)
            && (k != id ==> t.conns[k] == s.conns[k]
                            && (k in t.busyQueue <==> k in s.busyQueue) && (k in t.destroyQueue <==> k in s.destroyQueue))
  {
    hide Without;
    DoomLive(s, id);
    WithoutHas(s.busyQueue, id);
    WithoutHas(s.destroyQueue, id);
    var t := Doom(s, id);
    assert k in s.busyQueue <==> k in Members(s.busyQueue);
    assert k in t.busyQueue <==> k in Members(t.busyQueue);
    assert k in s.destroyQueue <==> k in Members(s.destroyQueue);
    assert k in Without(s.destroyQueue, id) <==> k in Members(Without(s.destroyQueue, id));
  }

  /** Timed out: in the destroy queue only, its socket closed. */
  ghost predicate Doomed<Id>(s: State<Id>, id: Id) {
    id in s.conns && id in s.destroyQueue && id !in s.busyQueue && s.conns[id].fd == NO_SOCKET
  }

  /** As it was: the same record in the same queue. */
  ghost predicate Untouched<Id>(s: State<Id>, t: State<Id>, id: Id) {
    && id in s.conns && id in t.conns && t.conns[id] == s.conns[id]
    && (id in t.busyQueue <==> id in s.busyQueue)
    && (id in t.destroyQueue <==> id in s.destroyQueue)
  }

  /** A timeout sweep dooms exactly the connections it looks at that are due, and leaves every other one alone. */
  lemma {:induction false} SweepTimeoutsDooms<Id>(net: Net, s: State<Id>, ids: seq<Id>, now: int, id: Id)
    requires Inv(s) && id in s.conns
    ensures var t := SweepTimeouts(net, s, ids, now);
            if id in ids && Due(net, s.conns[id], now) then Doomed(t, id) else Untouched(s, t, id)
    ensures var t := SweepTimeouts(net, s, ids, now);
            id in t.conns && t.conns[id].tsConnect == s.conns[id].tsConnect
    decreases |ids|
  {
    if ids != [] {
      assert Queued(s) && (id in ids <==> id == ids[0] || id in ids[1..]);
      var t := s;
      if ids[0] in s.conns && Due(net, s.conns[ids[0]], now) {
        t := Doom(s, ids[0]);
        DoomInv(s, ids[0]);
        DoomOne(s, ids[0], id);
      }
      hide Inv, Doom;
      SweepTimeoutsDooms(net, t, ids[1..], now, id);
    }
  }

  /** A destroy sweep frees every doomed connection whose accept has returned, and none during its accept. */
  lemma {:induction false} SweepDestroyFrees<Id>(s: State<Id>, ids: seq<Id>, id: Id)
    requires Inv(s) && NoRepeats(ids) && forall i :: 0 <= i < |ids| ==> ids[i] in s.destroyQueue
    ensures var t := SweepDestroy(s, ids);
            && t.accepting == s.accepting
            && (id in s.freed ==> id in t.freed)
            && (id in s.destroyQueue && id in s.accepting ==> id in t.destroyQueue)
            && (id in ids && id !in s.accepting ==> id in t.freed)
            && (id in s.accepting ==> id in s.conns && id in t.conns && t.conns[id] == s.conns[id])
    decreases |ids|
  {
    if ids != [] {
      assert ids[0] in Members(s.destroyQueue);
      FreeInv(s, ids[0]);
      FreeOne(s, ids[0], id);
      var t := Free(s, ids[0]);
      assert AcceptsOk(s);
      forall i | 0 <= i < |ids[1..]|
        ensures ids[1..][i] in t.destroyQueue
      {
        assert ids[1..][i] == ids[i + 1] != ids[0];
        FreeOne(s, ids[0], ids[i + 1]);
      }
      hide Inv, Without, Free;
      SweepDestroyFrees(t, ids[1..], id);
      assert id in ids ==> id == ids[0] || id in ids[1..];
    }
  }

  /** Freed as it was, and gone. */
  ghost predicate Gone<Id>(s: State<Id>, t: State<Id>, id: Id) {
    id in s.conns && id !in t.conns && id in t.freed && t.freed[id] == s.conns[id]
  }

  lemma FreeEach<Id>(s: State<Id>, id: Id, k: Id)
    requires Inv(s) && id in s.conns && k in s.conns
    ensures var t := Free(s, id);
            && (k == id && id !in s.accepting ==> Gone(s, t, k))
            && (k != id || id in s.accepting ==> Untouched(s, t, k) && k !in t.freed)
            && t.accepting == s.accepting
    ensures forall g :: g in s.freed ==> g in Free(s, id).freed && Free(s, id).freed[g] == s.freed[g]
  {
    hide Without;
    assert AcceptsOk(s);
    WithoutHas(s.destroyQueue, id);
    assert k in s.destroyQueue <==> k in Members(s.destroyQueue);
    assert k in Without(s.destroyQueue, id) <==> k in Members(Without(s.destroyQueue, id));
  }

  /** What is freed stays freed as it is. */
  lemma {:induction false} SweepFreedStays<Id>(s: State<Id>, ids: seq<Id>, id: Id)
    requires Inv(s) && NoRepeats(ids) && (forall i :: 0 <= i < |ids| ==> ids[i] in s.destroyQueue) && id in s.freed
    ensures var t := SweepDestroy(s, ids); id in t.freed && t.freed[id] == s.freed[id] && id !in t.conns
    decreases |ids|
  {
    assert AcceptsOk(s) && Queued(s);
    if ids != [] {
      var t := SweptFirst(s, ids);
      FreeEach(s, ids[0], ids[0]);
      hide Inv, Free;
      SweepFreedStays(t, ids[1..], id);
    }
  }

  /** The sweep after its first connection. */
  lemma SweptFirst<Id>(s: State<Id>, ids: seq<Id>) returns (t: State<Id>)
    requires Inv(s) && ids != [] && NoRepeats(ids) && forall i :: 0 <= i < |ids| ==> ids[i] in s.destroyQueue
    ensures ids[0] in s.conns && t == Free(s, ids[0]) && SweepDestroy(s, ids) == SweepDestroy(t, ids[1..])
    ensures Inv(t) && NoRepeats(ids[1..]) && forall i :: 0 <= i < |ids[1..]| ==> ids[1..][i] in t.destroyQueue
  {
    assert Queued(s) && ids[0] in Members(s.destroyQueue);
    t := Free(s, ids[0]);
    FreeInv(s, ids[0]);
    forall i | 0 <= i < |ids[1..]|
      ensures ids[1..][i] in t.destroyQueue
    {
      assert ids[1..][i] == ids[i + 1] != ids[0];
      FreeOne(s, ids[0], ids[i + 1]);
    }
  }

  /** A destroy sweep frees exactly the doomed connections it looks at whose accepts have returned, and leaves every other
      one alone. */
  lemma {:induction false} SweepDestroyExact<Id>(s: State<Id>, ids: seq<Id>, id: Id)
    requires Inv(s) && NoRepeats(ids) && (forall i :: 0 <= i < |ids| ==> ids[i] in s.destroyQueue) && id in s.conns
    ensures var t := SweepDestroy(s, ids);
            if id in ids && id !in s.accepting then Gone(s, t, id) else Untouched(s, t, id) && id !in t.freed
    decreases |ids|
  {
    assert AcceptsOk(s);
    if ids != [] {
      assert id in ids <==> id == ids[0] || id in ids[1..];
      assert forall i :: 0 < i < |ids| ==> ids[i] != ids[0];
      var t := SweptFirst(s, ids);
      FreeEach(s, ids[0], id);
      hide Inv, Free, SweepDestroy;
      if id in t.conns {
        SweepDestroyExact(t, ids[1..], id);
      } else {
        SweepFreedStays(t, ids[1..], id);
      }
    }
  }

  lemma FreeOne<Id>(s: State<Id>, id: Id, k: Id)
    requires id in s.conns
    ensures k != id && k in s.destroyQueue ==> k in Free(s, id).destroyQueue
    ensures s.conns[id].busy ==> Free(s, id) == s
    ensures !s.conns[id].busy ==> id in Free(s, id).freed && s.freed.Keys <= Free(s, id).freed.Keys
  {
    hide Without;
    WithoutHas(s.destroyQueue, id);
    assert k in s.destroyQueue <==> k in Members(s.destroyQueue);
    assert k in Without(s.destroyQueue, id) <==> k in Members(Without(s.destroyQueue, id));
  }

  lemma DoomKeeps<Id>(s: State<Id>, k: Id, id: Id)
    requires Queued(s) && k in s.conns
    ensures id in s.destroyQueue ==> id in Doom(s, k).destroyQueue
    ensures Doom(s, k).accepting == s.accepting
  {
    DoomQueued(s, k);
    hide Without;
    assert id in s.destroyQueue ==> id in Members(s.destroyQueue);
  }

  /** A doomed connection stays doomed; only a destroy sweep after its accept takes it away, by freeing it. */
  lemma StepDoomed<Id>(net: Net, s: State<Id>, step: Step<Id>, id: Id)
    requires Inv(s) && Enabled(s, step) && id in s.destroyQueue
    ensures var t := Next(net, s, step);
            && (!step.DestroySweep? || id in s.accepting ==> id in t.destroyQueue)
            && (step.DestroySweep? && id !in s.accepting ==> id in t.freed)
            && (!(step.AcceptEnd? && step.id == id) ==> (id in t.accepting <==> id in s.accepting))
            && (step.AcceptEnd? && step.id == id ==> id !in t.accepting)
  {
    assert Queued(s) && NoRepeats(s.destroyQueue);
    assert id in Members(s.destroyQueue) && id in s.conns;
    match step
    case AcceptStart(_, _, _) =>
    case AcceptEnd(k, ok, now) =>
      var c := s.conns[k];
      var r := Retimed(s, k, if net.acceptTimeout > 0 then now + net.acceptTimeout else c.tsConnect, c.tsIo);
      assert r.conns.Keys == s.conns.Keys;
      DoomKeeps(r, k, id);
      DoomLive(r, k);
    case TimeoutSweep(now) =>
      SweepTimeoutsKeeps(net, s, s.busyQueue, now);
      assert id in Members(Next(net, s, step).destroyQueue);
    case Traffic(_, _) =>
    case Release(k) =>
      DoomKeeps(s, k, id);
    case DestroySweep =>
      SweepDestroyFrees(s, s.destroyQueue, id);
  }

  /** While its accept is under way a connection stays live and keeps its deadline. */
  lemma StepPending<Id>(net: Net, s: State<Id>, step: Step<Id>, id: Id)
    requires Inv(s) && Enabled(s, step) && id in s.accepting && !(step.AcceptEnd? && step.id == id)
    ensures var t := Next(net, s, step);
            id in s.conns && id in t.conns && id in t.accepting && t.conns[id].tsConnect == s.conns[id].tsConnect
  {
    assert Queued(s) && AcceptsOk(s);
    match step
    case AcceptStart(_, _, _) =>
    case AcceptEnd(k, ok, now) =>
      var c := s.conns[k];
      DoomLive(Retimed(s, k, if net.acceptTimeout > 0 then now + net.acceptTimeout else c.tsConnect, c.tsIo), k);
    case TimeoutSweep(now) =>
      SweepTimeoutsKeeps(net, s, s.busyQueue, now);
      SweepTimeoutsDooms(net, s, s.busyQueue, now, id);
    case Traffic(_, _) =>
    case Release(k) =>
      DoomOne(s, k, id);
    case DestroySweep =>
      SweepDestroyFrees(s, s.destroyQueue, id);
  }

  lemma {:induction false} RunPending<Id>(net: Net, s: State<Id>, steps: seq<Step<Id>>, id: Id)
    requires Inv(s) && Runnable(net, s, steps) && id in s.accepting
    requires forall i :: 0 <= i < |steps| ==> !(steps[i].AcceptEnd? && steps[i].id == id)
    ensures var t := Run(net, s, steps);
            Inv(t) && id in s.conns && id in t.conns && id in t.accepting && t.conns[id].tsConnect == s.conns[id].tsConnect
    decreases |steps|
  {
    assert AcceptsOk(s);
    hide Inv, Next;
    if steps != [] {
      NextInv(net, s, steps[0]);
      StepPending(net, s, steps[0], id);
      RunPending(net, Next(net, s, steps[0]), steps[1..], id);
    }
  }

  /** An accept that has not returned by its deadline is timed out by every sweep from then on, if not before. */
  lemma AcceptDeadline<Id>(net: Net, s: State<Id>, id: Id, socket: int, start: int, steps: seq<Step<Id>>, now: int)
    requires Inv(s) && Enabled(s, AcceptStart(id, socket, start))
    requires net.acceptTimeout > 0 && 0 < start + net.acceptTimeout <= now
    requires Runnable(net, Start(net, s, id, socket, start), steps)
    requires forall i :: 0 <= i < |steps| ==> !(steps[i].AcceptEnd? && steps[i].id == id)
    ensures var t := Next(net, Run(net, Start(net, s, id, socket, start), steps), TimeoutSweep(now));
            Inv(t) && Doomed(t, id) && id in t.accepting
  {
    var first := Start(net, s, id, socket, start);
    StartInv(net, s, id, socket, start);
    hide Inv;
    RunPending(net, first, steps, id);
    var t := Run(net, first, steps);
    assert Due(net, t.conns[id], now);
    if id in t.busyQueue {
      TimesOut(net, t, now, id);
    } else {
      AlreadyDoomed(net, t, now, id);
    }
  }

  lemma AlreadyDoomed<Id>(net: Net, s: State<Id>, now: int, id: Id)
    requires Inv(s) && id in s.accepting && id in s.conns && id !in s.busyQueue
    ensures var t := Next(net, s, TimeoutSweep(now)); Inv(t) && Doomed(t, id) && id in t.accepting
  {
    assert Queued(s) && SocketsOk(s) && (id in s.busyQueue <==> id in Members(s.busyQueue));
    assert id in Members(s.destroyQueue);
    NextInv(net, s, TimeoutSweep(now));
    SweepTimeoutsKeeps(net, s, s.busyQueue, now);
    hide Inv, SweepTimeouts;
    SweepTimeoutsDooms(net, s, s.busyQueue, now, id);
  }

  /** A timeout during the accept: the connection is doomed and its accept still under way. */
  lemma TimesOut<Id>(net: Net, s: State<Id>, now: int, id: Id)
    requires Inv(s) && id in s.accepting && id in s.busyQueue && id in s.conns && Due(net, s.conns[id], now)
    ensures var t := Next(net, s, TimeoutSweep(now)); Inv(t) && Doomed(t, id) && id in t.accepting
  {
    NextInv(net, s, TimeoutSweep(now));
    SweepTimeoutsKeeps(net, s, s.busyQueue, now);
    hide Inv, SweepTimeouts;
    SweepTimeoutsDooms(net, s, s.busyQueue, now, id);
  }

  /** Until its accept returns, a doomed connection waits in the destroy queue, through every sweep. */
  lemma {:induction false} DoomedWaits<Id>(net: Net, s: State<Id>, steps: seq<Step<Id>>, id: Id)
    requires Inv(s) && Runnable(net, s, steps) && id in s.accepting && id in s.destroyQueue
    requires forall i :: 0 <= i < |steps| ==> !(steps[i].AcceptEnd? && steps[i].id == id)
    ensures var t := Run(net, s, steps); Inv(t) && id in t.accepting && id in t.destroyQueue
    decreases |steps|
  {
    hide Inv, Next;
    if steps != [] {
      NextInv(net, s, steps[0]);
      StepDoomed(net, s, steps[0], id);
      DoomedWaits(net, Next(net, s, steps[0]), steps[1..], id);
    }
  }

  /** A connection timed out during its accept stays live until the accept returns, its socket closed, whatever happens. */
  lemma WaitsForAccept<Id>(net: Net, s: State<Id>, now: int, steps: seq<Step<Id>>, id: Id)
    requires Inv(s) && id in s.accepting && id in s.busyQueue && id in s.conns && Due(net, s.conns[id], now)
    requires Runnable(net, Next(net, s, TimeoutSweep(now)), steps)
    requires forall i :: 0 <= i < |steps| ==> !(steps[i].AcceptEnd? && steps[i].id == id)
    ensures var t := Run(net, Next(net, s, TimeoutSweep(now)), steps);
            Inv(t) && Doomed(t, id) && id in t.accepting && id !in t.freed
  {
    TimesOut(net, s, now, id);
    hide Next;
    DoomedWaits(net, Next(net, s, TimeoutSweep(now)), steps, id);
    var t := Run(net, Next(net, s, TimeoutSweep(now)), steps);
    assert AcceptsOk(t) && SocketsOk(t) && Queued(t);
    assert id in Members(t.destroyQueue) && (id in t.busyQueue ==> id in Members(t.busyQueue));
  }

  /** A doomed connection that no accept holds waits in the destroy queue for the next destroy sweep. */
  lemma {:induction false} WaitsForSweep<Id>(net: Net, s: State<Id>, steps: seq<Step<Id>>, id: Id)
    requires Inv(s) && Runnable(net, s, steps) && id !in s.accepting && id in s.destroyQueue
    requires forall i :: 0 <= i < |steps| ==> !steps[i].DestroySweep?
    ensures var t := Run(net, s, steps); Inv(t) && id !in t.accepting && id in t.destroyQueue
    decreases |steps|
  {
    hide Inv, Next;
    if steps != [] {
      NextInv(net, s, steps[0]);
      StepDoomed(net, s, steps[0], id);
      WaitsForSweep(net, Next(net, s, steps[0]), steps[1..], id);
    }
  }

  /**
    A connection that is due at a timeout sweep during its accept is freed by the first destroy sweep
    after the accept returns, which it can only do by failing, and not before; whatever else happens in between.
   */
  lemma FreedAfterAccept<Id>(net: Net, s: State<Id>, due: int, waiting: seq<Step<Id>>, now: int, after: seq<Step<Id>>, id: Id)
    requires Inv(s) && id in s.accepting && id in s.busyQueue && id in s.conns && Due(net, s.conns[id], due)
    requires Runnable(net, Next(net, s, TimeoutSweep(due)), waiting)
    requires forall i :: 0 <= i < |waiting| ==> !(waiting[i].AcceptEnd? && waiting[i].id == id)
    ensures var t := Run(net, Next(net, s, TimeoutSweep(due)), waiting);
            && !Enabled(t, AcceptEnd(id, true, now))
            && Enabled(t, AcceptEnd(id, false, now))
            && var u := Next(net, t, AcceptEnd(id, false, now));
               Runnable(net, u, after) && (forall i :: 0 <= i < |after| ==> !after[i].DestroySweep?) ==>
                 id !in Run(net, u, after).freed && id in Next(net, Run(net, u, after), DestroySweep).freed
  {
    WaitsForAccept(net, s, due, waiting, id);
    var t := Run(net, Next(net, s, TimeoutSweep(due)), waiting);
    var u := Next(net, t, AcceptEnd(id, false, now));
    NextInv(net, t, AcceptEnd(id, false, now));
    StepDoomed(net, t, AcceptEnd(id, false, now), id);
    hide Inv, Next;
    if Runnable(net, u, after) && forall i :: 0 <= i < |after| ==> !after[i].DestroySweep? {
      WaitsForSweep(net, u, after, id);
      DoomedNotFreed(Run(net, u, after), id);
      StepDoomed(net, Run(net, u, after), DestroySweep, id);
    }
  }

  lemma DoomedNotFreed<Id>(s: State<Id>, id: Id)
    requires Inv(s) && id in s.destroyQueue
    ensures id !in s.freed
  {
    assert Queued(s) && AcceptsOk(s) && id in Members(s.destroyQueue);
  }

  // ----- deadlines, told from the steps -----

  /** A sweep at `now` comes after a deadline of `timeout` from `since`; no timeout, no deadline. */
  predicate Past(timeout: int, since: int, now: int) {
    timeout > 0 && 0 < since + timeout <= now
  }

  /** A connection whose owner or accept does nothing, and that no sweep finds due, stays as it is. */
  lemma StepUntouched<Id>(net: Net, s: State<Id>, step: Step<Id>, id: Id)
    requires Inv(s) && Enabled(s, step) && id in s.busyQueue && id in s.conns
    requires step.AcceptEnd? || step.Traffic? || step.Release? ==> step.id != id
    requires step.TimeoutSweep? ==> !Due(net, s.conns[id], step.now)
    ensures var t := Next(net, s, step); Untouched(s, t, id) && (id in t.accepting <==> id in s.accepting)
  {
    assert Queued(s) && AcceptsOk(s) && NoRepeats(s.destroyQueue);
    assert id in Members(s.busyQueue) && (id in s.destroyQueue ==> id in Members(s.destroyQueue));
    match step
    case AcceptStart(_, _, _) =>
    case AcceptEnd(k, ok, now) =>
      EndOther(net, s, k, ok, now, id);
    case TimeoutSweep(now) =>
      SweepTimeoutsKeeps(net, s, s.busyQueue, now);
      SweepTimeoutsDooms(net, s, s.busyQueue, now, id);
    case Traffic(_, _) =>
    case Release(k) =>
      DoomOne(s, k, id);
    case DestroySweep =>
      SweepDestroyFrees(s, s.destroyQueue, id);
      SweepDestroyExact(s, s.destroyQueue, id);
  }

  lemma EndOther<Id>(net: Net, s: State<Id>, k: Id, ok: bool, now: int, id: Id)
    requires Inv(s) && k in s.conns && id in s.conns && id != k
    ensures var t := End(net, s, k, ok, now); Untouched(s, t, id) && (id in t.accepting <==> id in s.accepting)
  {
    if !ok {
      var c := s.conns[k];
      var connect := if net.acceptTimeout > 0 then now + net.acceptTimeout else c.tsConnect;
      var r := Retimed(s, k, connect, c.tsIo);
      RetimedInv(s, k, connect, c.tsIo);
      assert Queued(r);
      hide Inv, Doom;
      DoomOne(r, k, id);
      assert Doom(r, k).accepting == r.accepting by { DoomKeeps(r, k, id); }
    }
  }

  lemma {:induction false} RunUntouched<Id>(net: Net, s: State<Id>, steps: seq<Step<Id>>, id: Id)
    requires Inv(s) && Runnable(net, s, steps) && id in s.busyQueue && id in s.conns && id in s.accepting
    requires forall i :: 0 <= i < |steps| ==> !(steps[i].AcceptEnd? && steps[i].id == id)
    requires forall i :: 0 <= i < |steps| && steps[i].TimeoutSweep? ==> !Due(net, s.conns[id], steps[i].now)
    ensures var t := Run(net, s, steps); Inv(t) && Untouched(s, t, id) && id in t.accepting
    decreases |steps|
  {
    hide Inv, Next;
    if steps != [] {
      NextInv(net, s, steps[0]);
      StepUntouched(net, s, steps[0], id);
      RunUntouched(net, Next(net, s, steps[0]), steps[1..], id);
    }
  }

  /** An accept under way is left alone by every step before a sweep past its deadline, and timed out by that sweep. */
  lemma PendingExactly<Id>(net: Net, s: State<Id>, id: Id, socket: int, start: int, steps: seq<Step<Id>>, now: int)
    requires Inv(s) && Enabled(s, AcceptStart(id, socket, start))
    requires Runnable(net, Start(net, s, id, socket, start), steps)
    requires forall i :: 0 <= i < |steps| ==> !(steps[i].AcceptEnd? && steps[i].id == id)
    requires forall i :: 0 <= i < |steps| && steps[i].TimeoutSweep? ==> !Past(net.acceptTimeout, start, steps[i].now)
    ensures var first := Start(net, s, id, socket, start);
            var t := Run(net, first, steps); var u := Next(net, t, TimeoutSweep(now));
            && Untouched(first, t, id)
            && if Past(net.acceptTimeout, start, now) then Doomed(u, id) else Untouched(t, u, id)
  {
    var first := Start(net, s, id, socket, start);
    StartInv(net, s, id, socket, start);
    hide Inv;
    RunUntouched(net, first, steps, id);
    var t := Run(net, first, steps);
    SweepTimeoutsDooms(net, t, t.busyQueue, now, id);
  }

  /** The time of the last traffic on a connection, of old `since`. */
  function LastActive<Id(==)>(since: int, steps: seq<Step<Id>>, id: Id): int
    decreases |steps|
  {
    if steps == [] then since
    else LastActive(if steps[0].Traffic? && steps[0].id == id then steps[0].now else since, steps[1..], id)
  }

  /** Neither does the owner release the connection, nor does a sweep come past its I/O deadline. */
  predicate Kept<Id(==)>(net: Net, since: int, steps: seq<Step<Id>>, id: Id)
    decreases |steps|
  {
    steps == [] ||
    match steps[0]
    case Release(k) => k != id && Kept(net, since, steps[1..], id)
    case TimeoutSweep(now) => !Past(net.ioTimeout, since, now) && Kept(net, since, steps[1..], id)
    case Traffic(k, now) => Kept(net, if k == id then now else since, steps[1..], id)
    case _ => Kept(net, since, steps[1..], id)
  }

  /** Accepted and in its owner's hands, with traffic last at `since`: no accept deadline is left. */
  ghost predicate Established<Id>(net: Net, s: State<Id>, id: Id, socket: int, since: int) {
    && id in s.conns && id in s.busyQueue && id !in s.accepting && s.conns[id].fd == socket
    && s.conns[id].tsConnect == -1
    && s.conns[id].tsIo == if net.ioTimeout > 0 then since + net.ioTimeout else -1
  }

  /** Out of its owner's hands: doomed, or freed already. */
  ghost predicate Dropped<Id>(s: State<Id>, id: Id) {
    id !in s.accepting && (Doomed(s, id) || id in s.freed)
  }

  lemma StepEstablished<Id>(net: Net, s: State<Id>, step: Step<Id>, id: Id, socket: int, since: int)
    requires Inv(s) && Enabled(s, step) && Established(net, s, id, socket, since) && Kept(net, since, [step], id)
    ensures Established(net, Next(net, s, step), id, socket, LastActive(since, [step], id))
  {
    assert [step][1..] == [];
    if step.Traffic? && step.id == id {
    } else {
      assert step.AcceptEnd? ==> step.id != id;
      StepUntouched(net, s, step, id);
    }
  }

  lemma StepDrops<Id>(net: Net, s: State<Id>, step: Step<Id>, id: Id, socket: int, since: int)
    requires Inv(s) && Enabled(s, step) && Established(net, s, id, socket, since) && !Kept(net, since, [step], id)
    ensures Dropped(Next(net, s, step), id)
  {
    assert [step][1..] == [];
    assert Queued(s);
    if step.Release? {
      DoomOne(s, id, id);
    } else {
      SweepTimeoutsKeeps(net, s, s.busyQueue, step.now);
      SweepTimeoutsDooms(net, s, s.busyQueue, step.now, id);
    }
  }

  /** What is dropped stays dropped. */
  lemma StepDropped<Id>(net: Net, s: State<Id>, step: Step<Id>, id: Id)
    requires Inv(s) && Enabled(s, step) && Dropped(s, id)
    ensures Dropped(Next(net, s, step), id)
  {
    var t := Next(net, s, step);
    NextInv(net, s, step);
    if id in s.freed {
      StepFreed(net, s, step, id);
      assert AcceptsOk(t);
    } else {
      StepDoomed(net, s, step, id);
      assert AcceptsOk(s) && Queued(t) && SocketsOk(t);
      assert id in t.destroyQueue ==> id in Members(t.destroyQueue);
      assert id in t.busyQueue ==> id in Members(t.busyQueue);
    }
  }

  lemma StepFreed<Id>(net: Net, s: State<Id>, step: Step<Id>, id: Id)
    requires Inv(s) && Enabled(s, step) && id in s.freed
    ensures id in Next(net, s, step).freed
  {
    assert NoRepeats(s.destroyQueue);
    match step
    case AcceptStart(_, _, _) =>
    case AcceptEnd(_, _, _) =>
    case TimeoutSweep(now) => SweepTimeoutsKeeps(net, s, s.busyQueue, now);
    case Traffic(_, _) =>
    case Release(_) =>
    case DestroySweep => SweepDestroyFrees(s, s.destroyQueue, id);
  }

  lemma {:induction false} RunDropped<Id>(net: Net, s: State<Id>, steps: seq<Step<Id>>, id: Id)
    requires Inv(s) && Runnable(net, s, steps) && Dropped(s, id)
    ensures Dropped(Run(net, s, steps), id)
    decreases |steps|
  {
    hide Inv, Next, Dropped;
    if steps != [] {
      NextInv(net, s, steps[0]);
      StepDropped(net, s, steps[0], id);
      RunDropped(net, Next(net, s, steps[0]), steps[1..], id);
    }
  }

  /** One step at a time. */
  lemma KeptFirst<Id>(net: Net, since: int, steps: seq<Step<Id>>, id: Id)
    requires steps != []
    ensures var next := LastActive(since, [steps[0]], id);
            && LastActive(since, steps, id) == LastActive(next, steps[1..], id)
            && (Kept(net, since, steps, id) <==> Kept(net, since, [steps[0]], id) && Kept(net, next, steps[1..], id))
  {
    assert [steps[0]][1..] == [];
  }

  lemma {:induction false} RunEstablished<Id>(net: Net, s: State<Id>, steps: seq<Step<Id>>, id: Id, socket: int, since: int)
    requires Inv(s) && Runnable(net, s, steps) && Established(net, s, id, socket, since)
    ensures var t := Run(net, s, steps);
            && Inv(t)
            && if Kept(net, since, steps, id) then Established(net, t, id, socket, LastActive(since, steps, id)) else Dropped(t, id)
    decreases |steps|
  {
    hide Inv, Next, Dropped, Established;
    if steps != [] {
      var t, next := Next(net, s, steps[0]), LastActive(since, [steps[0]], id);
      NextInv(net, s, steps[0]);
      KeptFirst(net, since, steps, id);
      hide Kept, LastActive;
      if Kept(net, since, [steps[0]], id) {
        StepEstablished(net, s, steps[0], id, socket, since);
        RunEstablished(net, t, steps[1..], id, socket, next);
      } else {
        StepDrops(net, s, steps[0], id, socket, since);
        RunInv(net, t, steps[1..]);
        RunDropped(net, t, steps[1..], id);
      }
    }
  }

  /** While its accept is under way, a connection is as it was or its socket is closed. */
  lemma {:induction false} RunOpen<Id>(net: Net, s: State<Id>, steps: seq<Step<Id>>, id: Id)
    requires Inv(s) && Runnable(net, s, steps) && id in s.busyQueue && id in s.conns && id in s.accepting
    requires forall i :: 0 <= i < |steps| ==> !(steps[i].AcceptEnd? && steps[i].id == id)
    ensures var t := Run(net, s, steps);
            Inv(t) && id in t.accepting && id in t.conns && (t.conns[id].fd != NO_SOCKET ==> Untouched(s, t, id))
    decreases |steps|
  {
    if steps != [] {
      var t := Next(net, s, steps[0]);
      NextInv(net, s, steps[0]);
      if steps[0].TimeoutSweep? && Due(net, s.conns[id], steps[0].now) {
        TimesOut(net, s, steps[0].now, id);
        hide Next;
        DoomedWaits(net, t, steps[1..], id);
        DoomedClosed(Run(net, t, steps[1..]), id);
      } else {
        StepUntouched(net, s, steps[0], id);
        hide Inv, Next;
        RunOpen(net, t, steps[1..], id);
      }
    }
  }

  lemma DoomedClosed<Id>(s: State<Id>, id: Id)
    requires Inv(s) && id in s.destroyQueue
    ensures id in s.conns && s.conns[id].fd == NO_SOCKET
  {
    assert Queued(s) && SocketsOk(s) && id in Members(s.destroyQueue);
  }

  /** An accept that returns well leaves nothing of its own deadline. */
  lemma AcceptsWell<Id>(net: Net, s: State<Id>, id: Id, socket: int, start: int, pending: seq<Step<Id>>, now: int)
    requires Inv(s) && Enabled(s, AcceptStart(id, socket, start))
    requires Runnable(net, Start(net, s, id, socket, start), pending)
    requires forall i :: 0 <= i < |pending| ==> !(pending[i].AcceptEnd? && pending[i].id == id)
    requires Enabled(Run(net, Start(net, s, id, socket, start), pending), AcceptEnd(id, true, now))
    ensures var e := Next(net, Run(net, Start(net, s, id, socket, start), pending), AcceptEnd(id, true, now));
            Inv(e) && Established(net, e, id, socket, now)
  {
    var first := Start(net, s, id, socket, start);
    StartInv(net, s, id, socket, start);
    assert id in first.accepting;
    hide Next, Start;
    RunOpen(net, first, pending, id);
    NextInv(net, Run(net, first, pending), AcceptEnd(id, true, now));
  }

  /** A connection whose accept has returned well is its owner's until released or until a sweep past the I/O deadline,
      which traffic moves; from then on it is doomed or freed. The accept deadline plays no part any more. */
  lemma EstablishedExactly<Id>(net: Net, s: State<Id>, id: Id, socket: int, start: int, pending: seq<Step<Id>>, now: int,
                               steps: seq<Step<Id>>)
    requires Inv(s) && Enabled(s, AcceptStart(id, socket, start))
    requires Runnable(net, Start(net, s, id, socket, start), pending)
    requires forall i :: 0 <= i < |pending| ==> !(pending[i].AcceptEnd? && pending[i].id == id)
    requires var p := Run(net, Start(net, s, id, socket, start), pending);
             Enabled(p, AcceptEnd(id, true, now)) && Runnable(net, Next(net, p, AcceptEnd(id, true, now)), steps)
    ensures var p := Run(net, Start(net, s, id, socket, start), pending);
            var t := Run(net, Next(net, p, AcceptEnd(id, true, now)), steps);
            && Inv(t)
            && if Kept(net, now, steps, id) then Established(net, t, id, socket, LastActive(now, steps, id)) else Dropped(t, id)
  {
    AcceptsWell(net, s, id, socket, start, pending, now);
    hide Inv, Next, Established, Kept, LastActive, Dropped;
    RunEstablished(net, Next(net, Run(net, Start(net, s, id, socket, start), pending), AcceptEnd(id, true, now)), steps, id, socket, now);
  }

  /** The next sweep dooms it exactly if it comes past the I/O deadline, and else leaves it alone. */
  lemma IdleExactly<Id>(net: Net, s: State<Id>, id: Id, socket: int, start: int, pending: seq<Step<Id>>, now: int,
                        steps: seq<Step<Id>>, sweep: int)
    requires Inv(s) && Enabled(s, AcceptStart(id, socket, start))
    requires Runnable(net, Start(net, s, id, socket, start), pending)
    requires forall i :: 0 <= i < |pending| ==> !(pending[i].AcceptEnd? && pending[i].id == id)
    requires var p := Run(net, Start(net, s, id, socket, start), pending);
             Enabled(p, AcceptEnd(id, true, now)) && Runnable(net, Next(net, p, AcceptEnd(id, true, now)), steps)
    requires Kept(net, now, steps, id)
    ensures var p := Run(net, Start(net, s, id, socket, start), pending);
            var t := Run(net, Next(net, p, AcceptEnd(id, true, now)), steps);
            var u := Next(net, t, TimeoutSweep(sweep));
            if Past(net.ioTimeout, LastActive(now, steps, id), sweep) then Doomed(u, id) else Untouched(t, u, id)
  {
    EstablishedExactly(net, s, id, socket, start, pending, now, steps);
    hide Inv, Start, Run, Kept, LastActive;
    var t := Run(net, Next(net, Run(net, Start(net, s, id, socket, start), pending), AcceptEnd(id, true, now)), steps);
    SweepTimeoutsDooms(net, t, t.busyQueue, sweep, id);
  }
}
