/**
 * Client: the private side of the tunnel.
 *
 * The client keeps one connection to the server's tunnel port ("virtual
 * server"). A `c:<id>#` frame makes it open a backend connection to the
 * real server for that user; data frames are written to the user's backend
 * connection; whatever a backend sends comes back as a data frame; a
 * backend that disconnects is reported with `d:<id>#`. While the tunnel is
 * up, an `a#` heartbeat goes out every `heart * 1000` ticks.
 *
 * Backend sockets are named by the order in which they are created: the
 * n-th `new TcpSocket()` is socket n. Whether a backend connection
 * succeeds is not decided here: each connect comes with an `Attempt`
 * saying whether the connect call failed at once and after how many ticks
 * the connection would be up.
 */
module Client {
  import opened Bytes
  import opened FrameCodec

  datatype Output =
    | ToTunnel(data: Bytes)          // a write to the tunnel connection
    | ToBackend(sock: nat, data: Bytes)
    | Drop(sock: nat)                // `delete` of a backend socket, which closes it
    | Reconnect                      // `connectToHost` again on the tunnel socket

  /** How one backend connect goes: refused at once, or up after `readyAfter` ticks. */
  datatype Attempt = Attempt(refused: bool, readyAfter: nat)

  /** `users` (id to socket), `users_` (socket to id) and the next socket name. */
  datatype Table = Table(users: map<Bytes, nat>, back: map<nat, Bytes>, next: nat)

  datatype Served = Served(table: Table, out: seq<Output>)

  /** Every socket the table names was created before `next`. */
  predicate Named(t: Table)
  {
    (forall id :: id in t.users ==> t.users[id] < t.next) && (forall n :: n in t.back ==> n < t.next)
  }

  /** The two maps are each other's inverse. */
  predicate Inverse(t: Table)
  {
    (forall id :: id in t.users ==> t.users[id] in t.back && t.back[t.users[id]] == id) &&
    (forall n :: n in t.back ==> t.back[n] in t.users && t.users[t.back[n]] == n)
  }

  /**
   * The countdown after a backend connect: the connection counts as made
   * only if it is up while some of the `limit` ticks are still left.
   */
  predicate Registers(a: Attempt, limit: nat)
  {
    !a.refused && a.readyAfter < limit
  }

  /**
   * The countdown loop of handleEvent: it waits while the socket is not
   * connected and ticks are left, and returns the ticks left.
   */
  method AwaitConnect(readyAfter: nat, limit: nat) returns (timeout: nat)
    ensures timeout <= limit
    ensures timeout == 0 <==> readyAfter >= limit
    ensures timeout > 0 ==> limit - timeout == readyAfter
  {
    timeout := limit;
    while limit - timeout < readyAfter && timeout > 0
      invariant timeout <= limit && limit - timeout <= readyAfter
    {
      timeout := timeout - 1;
    }
  }

  /**
   * handleEvent for one queued event.
   *  - Connect: a new socket is created; if the connect is refused or does
   *    not complete in time, `d:<id>#` goes back and the socket is deleted,
   *    otherwise both maps get the new entry (overwriting `users[id]`).
   *  - Disconnect of a known id: both entries go and the socket is deleted.
   *  - Message for a known id: the data is written to its socket.
   */
  function ServeOne(t: Table, limit: nat, e: Event, a: Attempt): Served
  {
    match e
    case Connect(id) =>
      if Registers(a, limit) then Served(Table(t.users[id := t.next], t.back[t.next := id], t.next + 1), [])
      else Served(t.(next := t.next + 1), [ToTunnel(DisconnectFrame(id)), Drop(t.next)])
    case Disconnect(id) =>
      if id in t.users then Served(Table(t.users - {id}, t.back - {t.users[id]}, t.next), [Drop(t.users[id])])
      else Served(t, [])
    case Message(id, data) =>
      if id in t.users then Served(t, [ToBackend(t.users[id], data)]) else Served(t, [])
    case Alive => Served(t, [])
  }

  /** handleEvent for the whole queue; `plan[k]` is how a connect asked for by `es[k]` goes. */
  function ServeAll(t: Table, limit: nat, es: seq<Event>, plan: seq<Attempt>): Served
    requires |plan| == |es|
    decreases |es|
  {
    if |es| == 0 then Served(t, [])
    else
      var before := ServeAll(t, limit, es[..|es| - 1], plan[..|es| - 1]);
      var last := ServeOne(before.table, limit, es[|es| - 1], plan[|es| - 1]);
      Served(last.table, before.out + last.out)
  }

  /** No connect in the queue is for an id that is registered when the connect is served. */
  predicate FreshConnects(t: Table, limit: nat, es: seq<Event>, plan: seq<Attempt>)
    requires |plan| == |es|
    decreases |es|
  {
    |es| == 0 ||
    (FreshConnects(t, limit, es[..|es| - 1], plan[..|es| - 1]) &&
     (es[|es| - 1].Connect? ==> es[|es| - 1].id !in ServeAll(t, limit, es[..|es| - 1], plan[..|es| - 1]).table.users))
  }

  /** Serving an event names only sockets created before the new `next`, and never reuses a name. */
  lemma ServeOneNamed(t: Table, limit: nat, e: Event, a: Attempt)
    requires Named(t)
    ensures Named(ServeOne(t, limit, e, a).table)
    ensures ServeOne(t, limit, e, a).table.next == t.next + (if e.Connect? then 1 else 0)
  {
  }

  /** A connect for an id that is not registered keeps the maps inverse; so do all other events. */
  lemma ServeOneInverse(t: Table, limit: nat, e: Event, a: Attempt)
    requires Named(t) && Inverse(t)
    requires e.Connect? ==> e.id !in t.users
    ensures Inverse(ServeOne(t, limit, e, a).table)
  {
    var r := ServeOne(t, limit, e, a).table;
    if e.Disconnect? && e.id in t.users {
      forall n | n in r.back ensures r.back[n] in r.users && r.users[r.back[n]] == n {
        assert t.back[n] != e.id;
      }
    }
  }

  lemma {:induction false} ServeAllNamed(t: Table, limit: nat, es: seq<Event>, plan: seq<Attempt>)
    requires |plan| == |es| && Named(t)
    ensures Named(ServeAll(t, limit, es, plan).table)
    ensures ServeAll(t, limit, es, plan).table.next >= t.next
    decreases |es|
  {
    if |es| > 0 {
      ServeAllNamed(t, limit, es[..|es| - 1], plan[..|es| - 1]);
      ServeOneNamed(ServeAll(t, limit, es[..|es| - 1], plan[..|es| - 1]).table, limit, es[|es| - 1], plan[|es| - 1]);
    }
  }

  /** The maps stay each other's inverse over a queue without a connect for a registered id. */
  lemma {:induction false} ServeAllInverse(t: Table, limit: nat, es: seq<Event>, plan: seq<Attempt>)
    requires |plan| == |es| && Named(t) && Inverse(t)
    requires FreshConnects(t, limit, es, plan)
    ensures Inverse(ServeAll(t, limit, es, plan).table)
    decreases |es|
  {
    if |es| > 0 {
      var init, p := es[..|es| - 1], plan[..|es| - 1];
      ServeAllInverse(t, limit, init, p);
      ServeAllNamed(t, limit, init, p);
      ServeOneInverse(ServeAll(t, limit, init, p).table, limit, es[|es| - 1], plan[|es| - 1]);
    }
  }

  /** A second connect for a registered id leaves the first socket mapped to an id that no longer maps back to it. */
  lemma DuplicateConnectBreaksInverse()
    ensures var t := Table(map["u" := 0], map[0 := "u"], 1);
            Inverse(t) && !Inverse(ServeOne(t, 1, Connect("u"), Attempt(false, 0)).table)
  {
    var t := Table(map["u" := 0], map[0 := "u"], 1);
    var r := ServeOne(t, 1, Connect("u"), Attempt(false, 0)).table;
    assert 0 in r.back && r.users[r.back[0]] == 1;
  }

  /** A connect registers the new socket exactly when the attempt succeeds in time, and answers `d:<id>#` otherwise. */
  lemma ConnectOutcome(t: Table, limit: nat, id: Bytes, a: Attempt)
    ensures var r := ServeOne(t, limit, Connect(id), a);
            (Registers(a, limit) ==> r.table.users == t.users[id := t.next] && r.table.back == t.back[t.next := id] && r.out == []) &&
            (!Registers(a, limit) ==>
              (r.table.users == t.users && r.table.back == t.back && r.out == [ToTunnel(DisconnectFrame(id)), Drop(t.next)]))
    ensures id in ServeOne(t, limit, Connect(id), a).table.users <==> Registers(a, limit) || id in t.users
  {
  }

  /** With no time to wait, every backend connect is answered with `d:<id>#`. */
  lemma ZeroTimeoutRefuses(t: Table, id: Bytes, a: Attempt)
    ensures ServeOne(t, 0, Connect(id), a).out == [ToTunnel(DisconnectFrame(id)), Drop(t.next)]
  {
  }

  /** The writes to backends a queue of data frames produces: each frame for a registered id, in order. */
  function Deliveries(users: map<Bytes, nat>, es: seq<Event>): seq<Output>
    decreases |es|
  {
    if |es| == 0 then []
    else
      var rest := Deliveries(users, es[..|es| - 1]);
      var e := es[|es| - 1];
      if e.Message? && e.id in users then rest + [ToBackend(users[e.id], e.data)] else rest
  }

  /** A queue of data frames leaves the table alone and writes exactly the deliveries. */
  lemma {:induction false} ServeAllDelivers(t: Table, limit: nat, es: seq<Event>, plan: seq<Attempt>)
    requires |plan| == |es|
    requires forall k :: 0 <= k < |es| ==> es[k].Message?
    ensures ServeAll(t, limit, es, plan) == Served(t, Deliveries(t.users, es))
    decreases |es|
  {
    if |es| > 0 {
      ServeAllDelivers(t, limit, es[..|es| - 1], plan[..|es| - 1]);
      var e := es[|es| - 1];
      if e.id !in t.users {
        assert Deliveries(t.users, es[..|es| - 1]) + [] == Deliveries(t.users, es[..|es| - 1]);
      }
    }
  }

  /** End to end: a user's data frame read by a decoder between frames reaches that user's backend socket intact. */
  lemma TunnelToBackend(t: Table, limit: nat, d: Decoder, id: Bytes, data: Bytes, a: Attempt)
    requires Ready(d) && Encodable(Message(id, data)) && id in t.users
    ensures var es := Run(d, Encode(Message(id, data))).events;
            |es| == 1 && ServeAll(t, limit, es, [a]) == Served(t, [ToBackend(t.users[id], data)])
  {
    RoundTrip(d, Message(id, data));
    var es := [Message(id, data)];
    assert es[..0] == [];
  }

  /** `heart*1000` is computed in 32-bit unsigned arithmetic before it is widened. */
  function Period(heart: nat): (r: nat)
    requires heart < 0x1_0000_0000
    ensures r < 0x1_0000_0000
    ensures heart < 4294968 ==> r == heart * 1000
  {
    (heart * 1000) % 0x1_0000_0000
  }

  /** The heartbeat counter for one tick: reset while the tunnel is down; otherwise count down, or beat and reset. */
  function Beat(heartRest: nat, up: bool, period: nat): (r: (nat, bool))
    ensures r.1 ==> up && heartRest == 0
    ensures r.1 || !up ==> r.0 == period
  {
    if !up then (period, false)
    else if heartRest > 0 then (heartRest - 1, false)
    else (period, true)
  }

  /** The number of `a#` frames sent in `k` ticks with the tunnel up, starting from `heartRest`. */
  function Beats(heartRest: nat, period: nat, k: nat): nat
    decreases k
  {
    if k == 0 then 0
    else
      var (rest, sent) := Beat(heartRest, true, period);
      (if sent then 1 else 0) + Beats(rest, period, k - 1)
  }

  /** Nothing is sent while the counter runs down; after it, the count goes on as from zero. */
  lemma {:induction false} BeatsDelay(heartRest: nat, period: nat, k: nat)
    ensures k <= heartRest ==> Beats(heartRest, period, k) == 0
    ensures Beats(heartRest, period, heartRest + k) == Beats(0, period, k)
    decreases heartRest
  {
    if heartRest > 0 {
      BeatsDelay(heartRest - 1, period, k);
      if k > 0 {
        BeatsDelay(heartRest - 1, period, k - 1);
      }
    }
  }

  /** From zero, a beat goes out at once and the counter restarts at `period`. */
  lemma BeatsPeriod(period: nat, k: nat)
    ensures Beats(0, period, period + 1 + k) == 1 + Beats(0, period, k)
  {
    BeatsDelay(period, period, k);
  }

  /** With the tunnel up, exactly one heartbeat goes out in every `period + 1` ticks. */
  lemma {:induction false} BeatsEvery(period: nat, m: nat)
    ensures Beats(0, period, m * (period + 1)) == m
    decreases m
  {
    if m > 0 {
      BeatsEvery(period, m - 1);
      assert m * (period + 1) == period + 1 + (m - 1) * (period + 1);
      BeatsPeriod(period, (m - 1) * (period + 1));
    }
  }

  /** The order-dependent part of dropping every backend: one `Drop` per listed id. */
  function Drops(users: map<Bytes, nat>, ids: seq<Bytes>): (r: seq<Output>)
    requires forall k :: 0 <= k < |ids| ==> ids[k] in users
    ensures |r| == |ids|
    decreases |ids|
  {
    if |ids| == 0 then [] else Drops(users, ids[..|ids| - 1]) + [Drop(users[ids[|ids| - 1]])]
  }

  lemma {:induction false} DropsEach(users: map<Bytes, nat>, ids: seq<Bytes>)
    requires forall k :: 0 <= k < |ids| ==> ids[k] in users
    ensures forall k :: 0 <= k < |ids| ==> Drops(users, ids)[k] == Drop(users[ids[k]])
    decreases |ids|
  {
    if |ids| > 0 {
      DropsEach(users, ids[..|ids| - 1]);
    }
  }

  lemma DropsAppend(users: map<Bytes, nat>, ids: seq<Bytes>, id: Bytes)
    requires forall k :: 0 <= k < |ids| ==> ids[k] in users
    requires id in users
    ensures Drops(users, ids + [id]) == Drops(users, ids) + [Drop(users[id])]
    ensures Members(ids + [id]) == Members(ids) + {id}
  {
    assert (ids + [id])[..|ids|] == ids;
  }

  /** The loop of onDisconnected over the users, in whatever order it visits them. */
  method DropAll(users: map<Bytes, nat>) returns (drops: seq<Output>, ghost order: seq<Bytes>)
    ensures Members(order) == users.Keys && |order| == |users|
    ensures forall k :: 0 <= k < |order| ==> order[k] in users
    ensures drops == Drops(users, order)
  {
    var remaining := users.Keys;
    ghost var dropped: set<Bytes> := {};
    drops, order := [], [];
    while remaining != {}
      invariant dropped !! remaining && dropped + remaining == users.Keys
      invariant Members(order) == dropped && |order| == |dropped|
      invariant forall k :: 0 <= k < |order| ==> order[k] in users
      invariant drops == Drops(users, order)
      decreases |remaining|
    {
      var id :| id in remaining;
      DropsAppend(users, order, id);
      drops := drops + [Drop(users[id])];
      remaining := remaining - {id};
      order := order + [id];
      dropped := dropped + {id};
    }
  }

  /** The sockets the id map names. */
  function Sockets(users: map<Bytes, nat>): set<nat>
  {
    set id | id in users :: users[id]
  }

  /** When the maps are inverse, the sockets `users` names are all the keys of `users_`. */
  lemma InverseSockets(t: Table)
    requires Inverse(t)
    ensures t.back.Keys == Sockets(t.users)
    ensures t.back - Sockets(t.users) == map[]
  {
    forall n | n in t.back ensures n in Sockets(t.users) {
      assert t.users[t.back[n]] == n;
    }
  }

  /**
   * The client's globals: the id maps, the decoder with its queue, the
   * heartbeat counter and what the client has done to its sockets. The
   * connect timeout and the heartbeat interval are configuration.
   */
  class TunnelClient {
    var users: map<Bytes, nat>
    var back: map<nat, Bytes>
    var next: nat
    var heartRest: nat
    var outbox: seq<Output>
    const reader: FrameReader
    const connectTimeout: nat
    const heart: nat

    function Tables(): Table
      reads this
    {
      Table(users, back, next)
    }

    predicate Valid()
      reads this, reader
    {
      reader.Valid() && Named(Tables()) && heart < 0x1_0000_0000
    }

    constructor (connectTimeout: nat, heart: nat)
      requires heart < 0x1_0000_0000
      ensures Valid() && fresh(reader) && Inverse(Tables())
      ensures this.connectTimeout == connectTimeout && this.heart == heart
      ensures users == map[] && back == map[] && next == 0 && heartRest == 0 && outbox == []
      ensures Ready(reader.State()) && reader.messages == []
    {
      users, back, next, heartRest, outbox := map[], map[], 0, 0, [];
      reader := new FrameReader();
      this.connectTimeout, this.heart := connectTimeout, heart;
    }

    /**
     * onDisconnected for the tunnel: every backend socket is deleted with
     * its callback cleared and both its entries erased, then the tunnel
     * reconnects. Inverse maps end up both empty.
     */
    method OnTunnelDisconnected() returns (ghost order: seq<Bytes>)
      requires Valid()
      modifies this
      ensures Valid()
      ensures users == map[] && back == old(back) - Sockets(old(users)) && next == old(next) && heartRest == old(heartRest)
      ensures Inverse(old(Tables())) ==> back == map[]
      ensures Members(order) == old(users).Keys && |order| == |old(users)|
      ensures forall k :: 0 <= k < |order| ==> order[k] in old(users)
      ensures outbox == old(outbox) + Drops(old(users), order) + [Reconnect]
    {
      var drops;
      drops, order := DropAll(users);
      if Inverse(Tables()) {
        InverseSockets(Tables());
      }
      back := back - Sockets(users);
      users := map[];
      outbox := outbox + drops + [Reconnect];
    }

    /**
     * onDisconnected for backend socket n: if it is mapped, `d:<id>#` is
     * sent and both entries are erased; the socket is deleted either way.
     */
    method OnBackendDisconnected(n: nat)
      requires Valid()
      modifies this
      ensures Valid()
      ensures n in old(back) ==> (users == old(users) - {old(back)[n]} && back == old(back) - {n} &&
        outbox == old(outbox) + [ToTunnel(DisconnectFrame(old(back)[n])), Drop(n)])
      ensures n !in old(back) ==> users == old(users) && back == old(back) && outbox == old(outbox) + [Drop(n)]
      ensures next == old(next) && heartRest == old(heartRest)
      ensures Inverse(old(Tables())) ==> Inverse(Tables())
    {
      if n in back {
        var id := back[n];
        outbox := outbox + [ToTunnel(DisconnectFrame(id))];
        users := users - {id};
        back := back - {n};
      }
      outbox := outbox + [Drop(n)];
    }

    /** onRead from the tunnel: the bytes go to the decoder. */
    method OnTunnelRead(data: Bytes)
      requires Valid()
      modifies reader
      ensures Valid()
      ensures reader.State() == Run(old(reader.State()), data).dec
      ensures reader.messages == old(reader.messages) + Run(old(reader.State()), data).events
    {
      reader.MessageRead(data);
    }

    /** onRead from backend socket n: its bytes go over the tunnel as a data frame for its user, if it has one. */
    method OnBackendRead(n: nat, data: Bytes)
      requires Valid()
      modifies this
      ensures Valid() && Tables() == old(Tables()) && heartRest == old(heartRest)
      ensures outbox == old(outbox) + (if n in back then [ToTunnel(MessageFrame(back[n], data))] else [])
    {
      if n in back {
        outbox := outbox + [ToTunnel(MessageFrame(back[n], data))];
      }
    }

    /** One queued event, as `ServeOne` says; a connect runs the countdown. */
    method ServeEvent(e: Event, a: Attempt)
      requires Valid()
      modifies this
      ensures Valid() && heartRest == old(heartRest)
      ensures var s := ServeOne(old(Tables()), connectTimeout, e, a);
              Tables() == s.table && outbox == old(outbox) + s.out
    {
      ServeOneNamed(Tables(), connectTimeout, e, a);
      match e {
        case Connect(id) =>
          var target := next;
          next := next + 1;
          var timeout := 0;
          if !a.refused {
            timeout := AwaitConnect(a.readyAfter, connectTimeout);
          }
          if timeout == 0 {
            outbox := outbox + [ToTunnel(DisconnectFrame(id)), Drop(target)];
          } else {
            users := users[id := target];
            back := back[target := id];
          }
        case Disconnect(id) =>
          if id in users {
            var target := users[id];
            back := back - {target};
            outbox := outbox + [Drop(target)];
            users := users - {id};
          }
        case Message(id, data) =>
          if id in users {
            outbox := outbox + [ToBackend(users[id], data)];
          }
        case Alive =>
      }
    }

    /**
     * handleEvent: the queue is served in order and cleared, then the
     * heartbeat counter ticks, sending `a#` when it runs out while the
     * tunnel is up. `tunnelUp` is the tunnel socket's connect status.
     */
    method HandleEvent(plan: seq<Attempt>, tunnelUp: bool)
      requires Valid() && |plan| == |reader.messages|
      modifies this, reader
      ensures Valid()
      ensures reader.messages == [] && reader.State() == old(reader.State())
      ensures var s := ServeAll(old(Tables()), connectTimeout, old(reader.messages), plan);
              var b := Beat(old(heartRest), tunnelUp, Period(heart));
              Tables() == s.table && heartRest == b.0 &&
              outbox == old(outbox) + s.out + (if b.1 then [ToTunnel(AliveFrame())] else [])
    {
      var queue := reader.messages;
      var i := 0;
      while i < |queue|
        invariant 0 <= i <= |queue| && Valid()
        invariant reader.messages == queue && reader.State() == old(reader.State())
        invariant heartRest == old(heartRest)
        invariant Tables() == ServeAll(old(Tables()), connectTimeout, queue[..i], plan[..i]).table
        invariant outbox == old(outbox) + ServeAll(old(Tables()), connectTimeout, queue[..i], plan[..i]).out
      {
        assert queue[..i + 1][..i] == queue[..i] && plan[..i + 1][..i] == plan[..i];
        ServeEvent(queue[i], plan[i]);
        i := i + 1;
      }
      assert queue[..|queue|] == queue && plan[..|queue|] == plan;
      reader.messages := [];
      if !tunnelUp {
        heartRest := Period(heart);
      } else if heartRest > 0 {
        heartRest := heartRest - 1;
      } else {
        outbox := outbox + [ToTunnel(AliveFrame())];
        heartRest := Period(heart);
      }
    }
  }
}
