/** The connection queues of flb_downstream.c, a refinement of ConnectionProtocol. */
module Downstream {
  import opened ConnectionProtocol

  class Connection {
    var fd: int
    var busyFlag: bool
    var tsConnectTimeout: int
    var tsIoTimeout: int
    /** Whether a socket was ever attached, and how often it was closed. */
    ghost var hadSocket: bool
    ghost var closes: nat

    constructor ()
      ensures fd == NO_SOCKET && !busyFlag && tsConnectTimeout == -1 && tsIoTimeout == -1
      ensures !hadSocket && closes == 0
    {
      fd, busyFlag, tsConnectTimeout, tsIoTimeout := NO_SOCKET, false, -1, -1;
      hadSocket, closes := false, 0;
    }

    ghost function Record(): Conn
      reads this
    {
      Conn(fd, busyFlag, tsConnectTimeout, tsIoTimeout, hadSocket, closes)
    }

    method ResetConnectionTimeout(net: Net, now: int)
      modifies this`tsConnectTimeout
      ensures tsConnectTimeout == if net.acceptTimeout > 0 then now + net.acceptTimeout else old(tsConnectTimeout)
    {
      if net.acceptTimeout > 0 {
        tsConnectTimeout := now + net.acceptTimeout;
      }
    }

    /** `flb_socket_close`. */
    method CloseSocket()
      modifies this`fd, this`closes
      ensures fd == NO_SOCKET && closes == old(closes) + 1
    {
      fd := NO_SOCKET;
      closes := closes + 1;
    }
  }

  class Stream {
    const net: Net
    var paused: bool
    var busyQueue: seq<Connection>
    var destroyQueue: seq<Connection>
    ghost var accepting: set<Connection>
    ghost var freed: map<Connection, Conn>

    ghost function Live(): set<Connection>
      reads this
    {
      Members(busyQueue) + Members(destroyQueue)
    }

    ghost function View(): State<Connection>
      reads this, Live()
    {
      State(map c | c in Live() :: c.Record(), busyQueue, destroyQueue, accepting, freed)
    }

    ghost predicate Valid()
      reads this, Live()
    {
      Inv(View())
    }

    constructor (net: Net)
      ensures this.net == net && View() == State(map[], [], [], {}, map[]) && Valid()
    {
      this.net, paused, busyQueue, destroyQueue, accepting, freed := net, false, [], [], {}, map[];
      new;
      assert View() == State(map[], [], [], {}, map[]);
    }

    /** Moves a connection from whichever queue it is in to the end of the destroy queue. */
    method Requeue(c: Connection)
      requires c in Live()
      modifies this`busyQueue, this`destroyQueue
      ensures Live() == old(Live())
      ensures View() == old(View()).(busyQueue := Without(old(busyQueue), c),
                                     destroyQueue := Without(old(destroyQueue), c) + [c])
    {
      hide Without;
      WithoutHas(busyQueue, c);
      WithoutHas(destroyQueue, c);
      busyQueue := Without(busyQueue, c);
      destroyQueue := Without(destroyQueue, c) + [c];
      assert Members(destroyQueue) == Members(old(destroyQueue)) - {c} + {c};
    }

    /** Closes the socket if it is open and moves the connection to the destroy queue. */
    method PrepareDestroy(c: Connection)
      requires c in Live()
      modifies this`busyQueue, this`destroyQueue, c
      ensures Live() == old(Live())
      ensures View() == Doom(old(View()), c)
    {
      hide Without;
      if c.fd != NO_SOCKET {
        c.CloseSocket();
      }
      assert View().conns == Doom(old(View()), c).conns;
      Requeue(c);
    }

    /** Links a new connection to the busy queue while its accept runs. */
    method LinkBusy(conn: Connection)
      requires conn !in Live()
      modifies this`busyQueue, this`accepting
      ensures View() == old(View()).(conns := old(View()).conns[conn := conn.Record()],
                                     busyQueue := old(busyQueue) + [conn], accepting := old(accepting) + {conn})
    {
      busyQueue := busyQueue + [conn];
      accepting := accepting + {conn};
      assert Members(busyQueue) == Members(old(busyQueue)) + {conn};
      assert View().conns == old(View()).conns[conn := conn.Record()];
    }

    /** An accept coroutine starts: a paused stream turns the client away and creates nothing. */
    method ConnGetStart(socket: int, now: int) returns (c: Connection?)
      requires Valid() && socket >= NO_SOCKET
      modifies this`busyQueue, this`accepting
      ensures paused ==> c == null && View() == old(View())
      ensures !paused ==> c != null && fresh(c) && Enabled(old(View()), AcceptStart(c, socket, now))
                          && View() == Start(net, old(View()), c, socket, now)
      ensures Valid()
    {
      hide Inv;
      if paused {
        return null;
      }
      var conn := Accepting(socket, now);
      assert conn !in Live() && conn !in freed;
      StartInv(net, View(), conn, socket, now);
      LinkBusy(conn);
      c := conn;
    }

    /** A new connection for a socket, its accept under way. */
    method Accepting(socket: int, now: int) returns (conn: Connection)
      ensures fresh(conn) && View() == old(View())
      ensures conn.Record() == Conn(socket, true, if net.acceptTimeout > 0 then now + net.acceptTimeout else -1, -1,
                                    socket != NO_SOCKET, 0)
    {
      conn := new Connection();
      conn.busyFlag := true;
      conn.ResetConnectionTimeout(net, now);
      conn.fd := socket;
      conn.hadSocket := socket != NO_SOCKET;
    }

    method SetTimes(c: Connection, tsConnect: int, tsIo: int)
      requires c in Live()
      modifies c`tsConnectTimeout, c`tsIoTimeout
      ensures View() == Retimed(old(View()), c, tsConnect, tsIo)
    {
      c.tsConnectTimeout := tsConnect;
      c.tsIoTimeout := tsIo;
      assert View().conns == Retimed(old(View()), c, tsConnect, tsIo).conns;
    }

    method ClearBusy(c: Connection)
      requires c in Live()
      modifies c`busyFlag, this`accepting
      ensures View() == Idle(old(View()), c)
    {
      c.busyFlag := false;
      accepting := accepting - {c};
      assert View().conns == Idle(old(View()), c).conns;
    }

    method AcceptFailed(c: Connection, now: int)
      requires c in Live()
      modifies this`busyQueue, this`destroyQueue, this`accepting, c
      ensures View() == End(net, old(View()), c, false, now)
    {
      hide Doom, Idle, Retimed;
      SetTimes(c, if net.acceptTimeout > 0 then now + net.acceptTimeout else c.tsConnectTimeout, c.tsIoTimeout);
      PrepareDestroy(c);
      ClearBusy(c);
    }

    method AcceptSucceeded(c: Connection, now: int)
      requires c in Live()
      modifies this`accepting, c
      ensures View() == End(net, old(View()), c, true, now)
    {
      hide Idle, Retimed;
      SetTimes(c, -1, if net.ioTimeout > 0 then now + net.ioTimeout else c.tsIoTimeout);
      ClearBusy(c);
    }

    /** The accept of a connection returns. */
    method ConnGetEnd(c: Connection, ok: bool, now: int) returns (result: Connection?)
      requires Valid() && Enabled(View(), AcceptEnd(c, ok, now))
      modifies this`busyQueue, this`destroyQueue, this`accepting, c
      ensures View() == End(net, old(View()), c, ok, now) && Valid()
      ensures result == if ok then c else null
    {
      EndInv(net, View(), c, ok, now);
      hide Inv, End;
      if !ok {
        AcceptFailed(c, now);
        result := null;
      } else {
        AcceptSucceeded(c, now);
        result := c;
      }
    }

    /** The owner has read or written bytes. */
    method ResetIoTimeout(c: Connection, now: int)
      requires Valid() && Enabled(View(), Traffic(c, now))
      modifies c
      ensures View() == Active(net, old(View()), c, now) && Valid()
    {
      NextInv(net, View(), Traffic(c, now));
      hide Inv, Retimed;
      if net.ioTimeout > 0 {
        SetTimes(c, c.tsConnectTimeout, now + net.ioTimeout);
      } else {
        RetimedSame(View(), c);
      }
    }

    /** The owner gives a connection up. */
    method ConnRelease(c: Connection)
      requires Valid() && Enabled(View(), Release(c))
      modifies this`busyQueue, this`destroyQueue, c
      ensures View() == Doom(old(View()), c) && Valid()
    {
      DoomInv(View(), c);
      hide Inv, Doom;
      PrepareDestroy(c);
    }

    /** The connections of the busy queue that are due are doomed, all others are left as they are. */
    method ConnTimeouts(now: int)
      requires Valid()
      modifies this`busyQueue, this`destroyQueue, busyQueue
      ensures View() == SweepTimeouts(net, old(View()), old(busyQueue), now) && Valid()
      ensures forall c :: c in old(Live()) ==>
                if c in old(busyQueue) && Due(net, old(View()).conns[c], now) then Doomed(View(), c)
                else Untouched(old(View()), View(), c)
    {
      SweepTimeoutsInv(net, View(), busyQueue, now);
      forall c | c in Live()
        ensures var t := SweepTimeouts(net, View(), busyQueue, now);
                if c in busyQueue && Due(net, View().conns[c], now) then Doomed(t, c) else Untouched(View(), t, c)
      {
        SweepTimeoutsDooms(net, View(), busyQueue, now, c);
      }
      hide Inv, SweepTimeouts, Doomed, Untouched, Due;
      SweepBusy(now);
    }

    method SweepBusy(now: int)
      modifies this`busyQueue, this`destroyQueue, busyQueue
      ensures View() == SweepTimeouts(net, old(View()), old(busyQueue), now)
    {
      hide Inv, Doom;
      var queue := busyQueue;
      assert queue[0..] == queue;
      for i := 0 to |queue|
        invariant Live() == old(Live())
        invariant SweepTimeouts(net, View(), queue[i..], now) == SweepTimeouts(net, old(View()), queue, now)
      {
        var c := queue[i];
        assert c in Members(queue) && queue[i..][1..] == queue[i + 1..];
        var drop := false;
        if net.acceptTimeout > 0 && c.tsConnectTimeout > 0 && c.tsConnectTimeout <= now {
          drop := true;
        } else if net.ioTimeout > 0 && c.tsIoTimeout > 0 && c.tsIoTimeout <= now {
          drop := true;
        }
        if drop {
          PrepareDestroy(c);
        }
      }
    }

    /** Frees a doomed connection unless its accept is still under way. */
    method DestroyConn(c: Connection)
      requires c in Live() && c !in busyQueue
      modifies this`destroyQueue, this`freed
      ensures View() == Free(old(View()), c)
    {
      if c.busyFlag {
        return;
      }
      hide Without;
      WithoutHas(destroyQueue, c);
      destroyQueue := Without(destroyQueue, c);
      freed := freed[c := c.Record()];
      assert c !in Members(busyQueue);
      assert Live() == old(Live()) - {c};
      assert View().conns == Free(old(View()), c).conns;
    }

    /** One step of the sweep: the rest of the queue stays queued. */
    method DestroyNext(queue: seq<Connection>, i: nat)
      requires i < |queue| && NoRepeats(queue) && queue[i] !in busyQueue
      requires forall k :: i <= k < |queue| ==> queue[k] in destroyQueue
      modifies this`destroyQueue, this`freed
      ensures queue[i] in old(View()).conns && View() == Free(old(View()), queue[i])
      ensures forall k :: i < k < |queue| ==> queue[k] in destroyQueue
    {
      ghost var before := View();
      assert queue[i] in Members(destroyQueue);
      DestroyConn(queue[i]);
      hide Free;
      forall k | i < k < |queue|
        ensures queue[k] in destroyQueue
      {
        FreeOne(before, queue[i], queue[k]);
      }
    }

    /** Frees every doomed connection that no accept holds, and leaves all others as they are. */
    method ConnPendingDestroy()
      requires Valid()
      modifies this`destroyQueue, this`freed
      ensures View() == SweepDestroy(old(View()), old(destroyQueue)) && Valid()
      ensures forall c :: c in old(Live()) ==>
                if c in old(destroyQueue) && c !in old(accepting) then Gone(old(View()), View(), c)
                else Untouched(old(View()), View(), c) && c !in freed
    {
      SweepDestroyInv(View(), destroyQueue);
      assert NoRepeats(destroyQueue) && Members(busyQueue) !! Members(destroyQueue);
      forall c | c in Live()
        ensures var t := SweepDestroy(View(), destroyQueue);
                if c in destroyQueue && c !in accepting then Gone(View(), t, c) else Untouched(View(), t, c) && c !in t.freed
      {
        SweepDestroyExact(View(), destroyQueue, c);
      }
      hide Inv, SweepDestroy, Gone, Untouched;
      SweepDoomed();
    }

    method SweepDoomed()
      requires NoRepeats(destroyQueue) && Members(busyQueue) !! Members(destroyQueue)
      modifies this`destroyQueue, this`freed
      ensures View() == SweepDestroy(old(View()), old(destroyQueue))
    {
      hide SweepDestroy;
      var queue := destroyQueue;
      assert queue[0..] == queue;
      for i := 0 to |queue|
        invariant busyQueue == old(busyQueue)
        invariant forall k :: i <= k < |queue| ==> queue[k] in destroyQueue
        invariant SweepDestroy(View(), queue[i..]) == SweepDestroy(old(View()), queue)
      {
        assert queue[i] in Members(queue) && queue[i] in Members(destroyQueue) && queue[i..][1..] == queue[i + 1..];
        SweepStep(View(), queue[i..]);
        DestroyNext(queue, i);
      }
      assert queue[|queue|..] == [];
      SweepNone(View());
    }
  }
}
