/**
 * Server: the public side of the tunnel.
 *
 * Users connect to the proxy port; the tunnel client ("virtual client")
 * connects to the tunnel port. Each user is announced over the tunnel with
 * `c:<id>#`, its data is forwarded as `m:<id>;<length>#<data>`, and its
 * departure as `d:<id>#`. Frames coming back over the tunnel are decoded
 * into the event queue, which `handleEvent` drains once per tick.
 *
 * Sockets are names, not connections: the tunnel socket is `Tunnel(n)` for
 * the n-th tunnel connection, a user socket is `User(id)` with the id the
 * server prints for it. What the server does to sockets is recorded in an
 * outbox of writes and aborts. Aborting a registered user runs its
 * disconnect callback at once, as the socket layer does; a socket whose
 * callback was cleared first is aborted silently.
 */
module Server {
  import opened Bytes
  import opened FrameCodec

  datatype Option<T> = None | Some(value: T)

  datatype Sock = Tunnel(n: nat) | User(id: Bytes)

  datatype Output = Write(to: Sock, data: Bytes) | Abort(sock: Sock)

  /** The user map and the outputs produced while serving events. */
  datatype Served = Served(users: set<Bytes>, out: seq<Output>)

  /** The `d:<id>#` echo that tells the tunnel a user is gone, when there is a tunnel to tell. */
  function Echo(tunnel: Option<nat>, id: Bytes): (r: seq<Output>)
    ensures tunnel.None? ==> r == []
    ensures tunnel.Some? ==> r == [Write(Tunnel(tunnel.value), DisconnectFrame(id))]
  {
    if tunnel.Some? then [Write(Tunnel(tunnel.value), DisconnectFrame(id))] else []
  }

  /**
   * handleEvent for one queued event: data for a registered user is
   * written to it; a disconnect for a registered user aborts it, and its
   * disconnect callback removes it and echoes `d:<id>#`; everything else
   * (unknown ids, Alive, Connect) does nothing.
   */
  function ServeOne(users: set<Bytes>, tunnel: Option<nat>, e: Event): Served
  {
    match e
    case Message(id, data) =>
      if id in users then Served(users, [Write(User(id), data)]) else Served(users, [])
    case Disconnect(id) =>
      if id in users then Served(users - {id}, [Abort(User(id))] + Echo(tunnel, id)) else Served(users, [])
    case _ => Served(users, [])
  }

  /** handleEvent for the whole queue, in order. */
  function ServeAll(users: set<Bytes>, tunnel: Option<nat>, es: seq<Event>): Served
    decreases |es|
  {
    if |es| == 0 then Served(users, [])
    else
      var before := ServeAll(users, tunnel, es[..|es| - 1]);
      var last := ServeOne(before.users, tunnel, es[|es| - 1]);
      Served(last.users, before.out + last.out)
  }

  /** Aborting the listed users one after another. */
  function Aborts(ids: seq<Bytes>): (r: seq<Output>)
    ensures |r| == |ids|
    decreases |ids|
  {
    if |ids| == 0 then [] else Aborts(ids[..|ids| - 1]) + [Abort(User(ids[|ids| - 1]))]
  }

  /** The k-th abort is for the k-th listed user. */
  lemma {:induction false} AbortsEach(ids: seq<Bytes>)
    ensures forall k :: 0 <= k < |ids| ==> Aborts(ids)[k] == Abort(User(ids[k]))
    decreases |ids|
  {
    if |ids| > 0 {
      AbortsEach(ids[..|ids| - 1]);
    }
  }

  lemma AbortsAppend(ids: seq<Bytes>, id: Bytes)
    ensures Aborts(ids + [id]) == Aborts(ids) + [Abort(User(id))]
    ensures Members(ids + [id]) == Members(ids) + {id}
  {
    assert (ids + [id])[..|ids|] == ids;
  }

  /** The ids the queue disconnects. */
  function DisconnectedIds(es: seq<Event>): set<Bytes>
  {
    set k | 0 <= k < |es| && es[k].Disconnect? :: es[k].id
  }

  /** An output addressed to one of the given users, or to a tunnel. */
  predicate AddressedWithin(o: Output, users: set<Bytes>)
  {
    match o
    case Write(to, _) => to.User? ==> to.id in users
    case Abort(s) => s.User? ==> s.id in users
  }

  /** Serving the queue removes exactly the users it disconnects. */
  lemma {:induction false} ServeAllUsers(users: set<Bytes>, tunnel: Option<nat>, es: seq<Event>)
    ensures ServeAll(users, tunnel, es).users == users - DisconnectedIds(es)
    decreases |es|
  {
    if |es| > 0 {
      var init := es[..|es| - 1];
      ServeAllUsers(users, tunnel, init);
      assert DisconnectedIds(es) == DisconnectedIds(init) + (if es[|es| - 1].Disconnect? then {es[|es| - 1].id} else {}) by {
        forall x ensures x in DisconnectedIds(es) <==> x in DisconnectedIds(init) || (es[|es| - 1].Disconnect? && x == es[|es| - 1].id) {
          if x in DisconnectedIds(es) {
            var k :| 0 <= k < |es| && es[k].Disconnect? && es[k].id == x;
            if k < |es| - 1 {
              assert init[k] == es[k];
            }
          }
          if x in DisconnectedIds(init) {
            var k :| 0 <= k < |init| && init[k].Disconnect? && init[k].id == x;
            assert es[k] == init[k];
          }
        }
      }
    }
  }

  /** Every write and abort of handleEvent goes to a user that was registered, or to the tunnel. */
  lemma {:induction false} ServeAllAddressed(users: set<Bytes>, tunnel: Option<nat>, es: seq<Event>)
    ensures forall k :: 0 <= k < |ServeAll(users, tunnel, es).out| ==> AddressedWithin(ServeAll(users, tunnel, es).out[k], users)
    decreases |es|
  {
    if |es| > 0 {
      var init := es[..|es| - 1];
      ServeAllAddressed(users, tunnel, init);
      ServeAllUsers(users, tunnel, init);
      var before := ServeAll(users, tunnel, init);
      var last := ServeOne(before.users, tunnel, es[|es| - 1]);
      forall k | 0 <= k < |last.out| ensures AddressedWithin(last.out[k], users) {
      }
    }
  }

  /** The writes to users that a queue without disconnects produces: each message for a registered user, in order. */
  function Deliveries(users: set<Bytes>, es: seq<Event>): seq<Output>
    decreases |es|
  {
    if |es| == 0 then []
    else
      var rest := Deliveries(users, es[..|es| - 1]);
      var e := es[|es| - 1];
      if e.Message? && e.id in users then rest + [Write(User(e.id), e.data)] else rest
  }

  /** Without disconnects, handleEvent writes exactly the deliveries. */
  lemma {:induction false} ServeAllDelivers(users: set<Bytes>, tunnel: Option<nat>, es: seq<Event>)
    requires forall k :: 0 <= k < |es| ==> !es[k].Disconnect?
    ensures ServeAll(users, tunnel, es) == Served(users, Deliveries(users, es))
    decreases |es|
  {
    if |es| > 0 {
      var init := es[..|es| - 1];
      ServeAllDelivers(users, tunnel, init);
      var e := es[|es| - 1];
      if !(e.Message? && e.id in users) {
        assert ServeOne(users, tunnel, e).out == [];
        assert Deliveries(users, init) + [] == Deliveries(users, init);
      }
    }
  }

  /**
   * End to end: a data frame for a registered user, read by a tunnel
   * decoder between frames and then served, is written to that user, byte
   * for byte, and to nobody else.
   */
  lemma TunnelToUser(users: set<Bytes>, tunnel: Option<nat>, d: Decoder, id: Bytes, data: Bytes)
    requires Ready(d) && Encodable(Message(id, data)) && id in users
    ensures ServeAll(users, tunnel, Run(d, Encode(Message(id, data))).events) == Served(users, [Write(User(id), data)])
  {
    RoundTrip(d, Message(id, data));
    var es := [Message(id, data)];
    assert es[..0] == [];
  }

  /**
   * The server's globals: the user table, the tunnel, the kill flag set by
   * the manager port, the decoder with its queue, and what the server has
   * done to its sockets.
   */
  class TunnelServer {
    /** The keys of `users`; the socket of each is `User(id)`. */
    var users: set<Bytes>
    /** `virtualClient`: the current tunnel connection, if any. */
    var tunnel: Option<nat>
    var beKilled: bool
    var outbox: seq<Output>
    const reader: FrameReader

    /** The decoder is sane, and users are registered only while a tunnel is attached. */
    predicate Valid()
      reads this, reader
    {
      reader.Valid() && (tunnel.None? ==> users == {})
    }

    constructor ()
      ensures Valid() && fresh(reader)
      ensures users == {} && tunnel == None && !beKilled && outbox == []
      ensures Ready(reader.State()) && reader.messages == []
    {
      users, tunnel, beKilled, outbox := {}, None, false, [];
      reader := new FrameReader();
    }

    /**
     * onNewConnecting on the tunnel port: a previous tunnel is aborted
     * with its disconnect callback cleared, so the users stay; the new
     * connection becomes the tunnel.
     */
    method OnTunnelConnecting(t: nat)
      requires Valid()
      modifies this
      ensures Valid()
      ensures tunnel == Some(t) && users == old(users) && beKilled == old(beKilled)
      ensures outbox == old(outbox) + (if old(tunnel).Some? then [Abort(Tunnel(old(tunnel).value))] else [])
    {
      if tunnel.Some? {
        outbox := outbox + [Abort(Tunnel(tunnel.value))];
      }
      tunnel := Some(t);
    }

    /**
     * onNewConnecting on the proxy port: without a tunnel the user is
     * aborted (no callback is set yet) and never registered; otherwise it
     * is registered and announced with `c:<id>#`.
     */
    method OnUserConnecting(id: Bytes)
      requires Valid() && id !in users
      modifies this
      ensures Valid()
      ensures tunnel == old(tunnel) && beKilled == old(beKilled)
      ensures old(tunnel).None? ==> users == old(users) && outbox == old(outbox) + [Abort(User(id))]
      ensures old(tunnel).Some? ==> (users == old(users) + {id} &&
        outbox == old(outbox) + [Write(Tunnel(old(tunnel).value), ConnectFrame(id))])
    {
      if tunnel.Some? {
        users := users + {id};
        outbox := outbox + [Write(Tunnel(tunnel.value), ConnectFrame(id))];
      } else {
        outbox := outbox + [Abort(User(id))];
      }
    }

    /**
     * onDisconnected for the tunnel: the tunnel is forgotten and every
     * user is aborted with its callback cleared and erased, leaving the
     * table empty. The decoder state is kept as it is.
     */
    method OnTunnelDisconnected() returns (ghost order: seq<Bytes>)
      requires Valid() && tunnel.Some?
      modifies this
      ensures Valid()
      ensures tunnel == None && users == {} && beKilled == old(beKilled)
      ensures outbox == old(outbox) + Aborts(order)
      ensures Members(order) == old(users) && |order| == |old(users)|
    {
      var remaining, aborts := users, [];
      ghost var killed: set<Bytes> := {};
      order := [];
      while remaining != {}
        modifies {}
        invariant killed !! remaining && killed + remaining == users
        invariant Members(order) == killed && |order| == |killed|
        invariant aborts == Aborts(order)
        decreases |remaining|
      {
        var id :| id in remaining;
        AbortsAppend(order, id);
        aborts := aborts + [Abort(User(id))];
        remaining := remaining - {id};
        order := order + [id];
        killed := killed + {id};
      }
      tunnel, users, outbox := None, {}, outbox + aborts;
    }

    /**
     * onDisconnected for a registered user: it is erased and, while there
     * is a tunnel, `d:<id>#` is sent over it. (The source erases
     * `users.find(id)` without checking it, so the user must be there.)
     */
    method OnUserDisconnected(id: Bytes)
      requires Valid() && id in users
      modifies this
      ensures Valid()
      ensures users == old(users) - {id} && tunnel == old(tunnel) && beKilled == old(beKilled)
      ensures outbox == old(outbox) + Echo(old(tunnel), id)
    {
      users := users - {id};
      if tunnel.Some? {
        outbox := outbox + [Write(Tunnel(tunnel.value), DisconnectFrame(id))];
      }
    }

    /** onRead from the tunnel: the bytes go to the decoder. */
    method OnTunnelRead(data: Bytes)
      requires Valid()
      modifies reader
      ensures Valid()
      ensures reader.State() == Run(old(reader.State()), data).dec
      ensures reader.messages == old(reader.messages) + Run(old(reader.State()), data).events
    {
      reader.MessageRead(data);
    }

    /** onRead from a user: its bytes are framed as `m:<id>;<length>#<data>` and sent over the tunnel, if any. */
    method OnUserRead(id: Bytes, data: Bytes)
      requires Valid()
      modifies this
      ensures Valid()
      ensures users == old(users) && tunnel == old(tunnel) && beKilled == old(beKilled)
      ensures outbox == old(outbox) + (if tunnel.Some? then [Write(Tunnel(tunnel.value), MessageFrame(id, data))] else [])
    {
      if tunnel.Some? {
        outbox := outbox + [Write(Tunnel(tunnel.value), MessageFrame(id, data))];
      }
    }

    /** onRead from a manager connection: any bytes at all ask the server to stop. */
    method OnManagerRead()
      requires Valid()
      modifies this
      ensures Valid()
      ensures beKilled && users == old(users) && tunnel == old(tunnel) && outbox == old(outbox)
    {
      beKilled := true;
    }

    /**
     * handleEvent: the queue is served in order and then cleared; the
     * result says whether the main loop goes on, false once a manager
     * connection has spoken.
     */
    method HandleEvent() returns (goOn: bool)
      requires Valid()
      modifies this, reader
      ensures Valid()
      ensures reader.messages == [] && reader.State() == old(reader.State())
      ensures var s := ServeAll(old(users), old(tunnel), old(reader.messages));
              users == s.users && outbox == old(outbox) + s.out
      ensures tunnel == old(tunnel) && beKilled == old(beKilled)
      ensures goOn == !beKilled
    {
      var queue := reader.messages;
      var i := 0;
      while i < |queue|
        invariant 0 <= i <= |queue| && Valid()
        invariant reader.messages == queue && reader.State() == old(reader.State())
        invariant tunnel == old(tunnel) && beKilled == old(beKilled)
        invariant users == ServeAll(old(users), tunnel, queue[..i]).users
        invariant outbox == old(outbox) + ServeAll(old(users), tunnel, queue[..i]).out
      {
        assert queue[..i + 1][..i] == queue[..i];
        ghost var sent := outbox;
        var m := queue[i];
        match m {
          case Message(id, data) =>
            if id in users {
              outbox := outbox + [Write(User(id), data)];
            }
          case Disconnect(id) =>
            if id in users {
              outbox := outbox + [Abort(User(id))];
              OnUserDisconnected(id);
            }
          case _ =>
        }
        assert outbox == sent + ServeOne(ServeAll(old(users), tunnel, queue[..i]).users, tunnel, queue[i]).out;
        i := i + 1;
      }
      assert queue[..|queue|] == queue;
      reader.messages := [];
      goOn := !beKilled;
    }
  }
}
