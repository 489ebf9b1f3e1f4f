/** The websocket broadcast hub of the handlers package: the client set, and the
    per-event transition its coordinating loop performs for a register, an
    unregister or a broadcast event. The loop, the channels and the `select`
    are concurrency and are not modelled; each event is one atomic step. */
module Handlers {

  /** An opaque handle to one upgraded websocket connection. */
  datatype Conn = Conn(handle: nat)

  /** The bytes of one text frame pushed to every client. */
  type Message = string

  /** The whole wire vocabulary: sent after a room is created ... */
  const NewRoom: Message := "new-room"
  /** ... and after a chat is posted. */
  const NewChat: Message := "new-chat"

  /** What the hub's loop receives on its three channels. */
  datatype Event = Register(conn: Conn) | Unregister(conn: Conn) | Broadcast(message: Message)

  /** One attempted `WriteMessage`, and whether it succeeded. */
  datatype Write = Write(conn: Conn, message: Message, ok: bool)

  /** The observable state of a hub: its client set, the connections it has
      closed (in order, one entry per `Close` call) and every write it attempted. */
  datatype HubState = HubState(clients: set<Conn>, closes: seq<Conn>, writes: seq<Write>)

  const Initial: HubState := HubState({}, [], [])

  predicate NoDup(s: seq<Conn>)
  {
    forall i, j :: 0 <= i < j < |s| ==> s[i] != s[j]
  }

  /** `order` lists every member of `s` exactly once: one run of `range` over the map. */
  ghost predicate IsEnumeration(order: seq<Conn>, s: set<Conn>)
  {
    NoDup(order) && forall c :: c in order <==> c in s
  }

  function Elems(s: seq<Conn>): set<Conn>
  {
    set c | c in s
  }

  /** How many times `c` occurs in `s`. */
  function Count(s: seq<Conn>, c: Conn): nat
  {
    if s == [] then 0 else (if s[0] == c then 1 else 0) + Count(s[1..], c)
  }

  /** One iteration of the broadcast loop: write to `c`; on failure close it
      and drop it from the client set. `failing` is the write-failure oracle. */
  function Attempt(s: HubState, m: Message, failing: set<Conn>, c: Conn): HubState
  {
    if c in failing then
      HubState(s.clients - {c}, s.closes + [c], s.writes + [Write(c, m, false)])
    else
      s.(writes := s.writes + [Write(c, m, true)])
  }

  /** The broadcast loop run over the members in the order `order`. */
  function Deliver(s: HubState, m: Message, failing: set<Conn>, order: seq<Conn>): HubState
    decreases |order|
  {
    if order == [] then s else Deliver(Attempt(s, m, failing, order[0]), m, failing, order[1..])
  }

  /** The hub's reaction to one event. For a broadcast, `order` is the order in
      which the loop visits the clients; it is ignored for the other events. */
  function Apply(s: HubState, ev: Event, failing: set<Conn>, order: seq<Conn>): HubState
  {
    match ev
    case Register(c) => s.(clients := s.clients + {c})
    case Unregister(c) =>
      if c in s.clients then s.(clients := s.clients - {c}, closes := s.closes + [c]) else s
    case Broadcast(m) => Deliver(s, m, failing, order)
  }

  /** The writes a broadcast attempts, one per visited connection, in visiting order. */
  function Attempts(order: seq<Conn>, m: Message, failing: set<Conn>): seq<Write>
  {
    if order == [] then [] else [Write(order[0], m, order[0] !in failing)] + Attempts(order[1..], m, failing)
  }

  /** The `i`-th attempted write goes to the `i`-th visited connection, carries
      the message, and succeeds exactly when that connection is not failing. */
  lemma {:induction false} AttemptsAt(order: seq<Conn>, m: Message, failing: set<Conn>)
    ensures |Attempts(order, m, failing)| == |order|
    ensures forall i :: 0 <= i < |order| ==> Attempts(order, m, failing)[i] == Write(order[i], m, order[i] !in failing)
    decreases |order|
  {
    if order != [] {
      AttemptsAt(order[1..], m, failing);
      var w := Attempts(order, m, failing);
      assert w == [Write(order[0], m, order[0] !in failing)] + Attempts(order[1..], m, failing);
      forall i | 1 <= i < |order| ensures w[i] == Write(order[i], m, order[i] !in failing) {
        assert w[i] == Attempts(order[1..], m, failing)[i - 1];
        assert order[1..][i - 1] == order[i];
      }
    }
  }

  /** The visited connections whose write fails, in visiting order. */
  function Failed(order: seq<Conn>, failing: set<Conn>): (r: seq<Conn>)
    ensures forall c :: c in r <==> c in order && c in failing
    ensures NoDup(order) ==> NoDup(r)
  {
    if order == [] then []
    else if order[0] in failing then [order[0]] + Failed(order[1..], failing)
    else Failed(order[1..], failing)
  }

  /** The connections that received `m`: the successful writes of `m` in `w`. */
  function Delivered(w: seq<Write>, m: Message): set<Conn>
  {
    set i | 0 <= i < |w| && w[i].ok && w[i].message == m :: w[i].conn
  }

  /** No connection has been closed twice, and no member of the client set is closed. */
  ghost predicate Sound(s: HubState)
  {
    NoDup(s.closes) && forall c :: c in s.clients ==> c !in s.closes
  }

  /** The event does not hand the hub a connection it has already closed: the
      upgrade path registers a new connection each time. */
  predicate Admissible(s: HubState, ev: Event)
  {
    match ev
    case Register(c) => c !in s.closes
    case _ => true
  }

  /** Running the loop over one more connection is one more `Attempt`. */
  lemma {:induction false} DeliverSnoc(s: HubState, m: Message, failing: set<Conn>, order: seq<Conn>, c: Conn)
    ensures Deliver(s, m, failing, order + [c]) == Attempt(Deliver(s, m, failing, order), m, failing, c)
    decreases |order|
  {
    if order == [] {
      assert (order + [c])[1..] == [];
    } else {
      assert (order + [c])[1..] == order[1..] + [c];
      DeliverSnoc(Attempt(s, m, failing, order[0]), m, failing, order[1..], c);
    }
  }

  /** The broadcast loop equals its closed form: the failed connections are
      removed from the client set, ... */
  lemma {:induction false} DeliverClients(s: HubState, m: Message, failing: set<Conn>, order: seq<Conn>)
    ensures Deliver(s, m, failing, order).clients == s.clients - (Elems(order) * failing)
    decreases |order|
  {
    if order == [] {
      assert Elems(order) == {};
    } else {
      var c := order[0];
      var rest := order[1..];
      DeliverClients(Attempt(s, m, failing, c), m, failing, rest);
      assert Elems(order) == {c} + Elems(rest) by {
        assert order == [c] + rest;
      }
    }
  }

  /** ... closed once each, in visiting order, ... */
  lemma {:induction false} DeliverCloses(s: HubState, m: Message, failing: set<Conn>, order: seq<Conn>)
    ensures Deliver(s, m, failing, order).closes == s.closes + Failed(order, failing)
    decreases |order|
  {
    if order != [] {
      var c := order[0];
      var rest := order[1..];
      DeliverCloses(Attempt(s, m, failing, c), m, failing, rest);
      if c in failing {
        assert s.closes + Failed(order, failing) == (s.closes + [c]) + Failed(rest, failing);
      }
    }
  }

  /** ... and every visited connection gets exactly one write attempt, in visiting order. */
  lemma {:induction false} DeliverWrites(s: HubState, m: Message, failing: set<Conn>, order: seq<Conn>)
    ensures Deliver(s, m, failing, order).writes == s.writes + Attempts(order, m, failing)
    decreases |order|
  {
    if order != [] {
      var c := order[0];
      var rest := order[1..];
      DeliverWrites(Attempt(s, m, failing, c), m, failing, rest);
      assert s.writes + Attempts(order, m, failing) == (s.writes + [Write(c, m, c !in failing)]) + Attempts(rest, m, failing);
    }
  }

  /** A broadcast writes exactly `m`, exactly once, to every connection that
      was a client when the event arrived, and to no other; the new client set
      is the old one minus the failing connections; exactly the failing clients
      are closed, once each; the earlier logs are kept. */
  lemma BroadcastOutcome(s: HubState, m: Message, failing: set<Conn>, order: seq<Conn>)
    requires IsEnumeration(order, s.clients)
    ensures var t := Apply(s, Broadcast(m), failing, order);
      && t.clients == s.clients - failing
      && |order| == |s.clients|
      && |t.writes| == |s.writes| + |order|
      && t.writes[..|s.writes|] == s.writes
      && (forall i :: 0 <= i < |order| ==> t.writes[|s.writes| + i] == Write(order[i], m, order[i] !in failing))
      && |t.closes| >= |s.closes|
      && t.closes[..|s.closes|] == s.closes
      && IsEnumeration(t.closes[|s.closes|..], s.clients * failing)
  {
    DeliverClients(s, m, failing, order);
    DeliverCloses(s, m, failing, order);
    DeliverWrites(s, m, failing, order);
    AttemptsAt(order, m, failing);
    assert Elems(order) == s.clients;
    var t := Apply(s, Broadcast(m), failing, order);
    assert t.closes[|s.closes|..] == Failed(order, failing);
    NoDupCardinality(order, s.clients);
  }

  /** A duplicate-free listing of a set is as long as the set is large. */
  lemma {:induction false} NoDupCardinality(order: seq<Conn>, s: set<Conn>)
    requires IsEnumeration(order, s)
    ensures |order| == |s|
    decreases |order|
  {
    if order != [] {
      var c := order[0];
      assert IsEnumeration(order[1..], s - {c}) by {
        forall x ensures x in order[1..] <==> x in s - {c} {
          if x in order[1..] {
            var k :| 0 <= k < |order[1..]| && order[1..][k] == x;
            assert order[k + 1] == x && order[0] != order[k + 1];
          }
          if x in s - {c} {
            var k :| 0 <= k < |order| && order[k] == x;
            assert k != 0 && order[1..][k - 1] == x;
          }
        }
      }
      NoDupCardinality(order[1..], s - {c});
    } else {
      assert forall c :: c !in s;
      assert s == {};
    }
  }

  /** Partial-failure isolation: one broadcast delivers `m` to exactly the
      clients whose write does not fail, however many writes fail and in
      whatever order the clients are visited. */
  lemma BroadcastIsolation(s: HubState, m: Message, failing: set<Conn>, order: seq<Conn>)
    requires IsEnumeration(order, s.clients)
    ensures var t := Apply(s, Broadcast(m), failing, order);
      |t.writes| >= |s.writes| && Delivered(t.writes[|s.writes|..], m) == s.clients - failing
  {
    BroadcastOutcome(s, m, failing, order);
    var t := Apply(s, Broadcast(m), failing, order);
    var w := t.writes[|s.writes|..];
    assert |w| == |order|;
    forall c ensures c in Delivered(w, m) <==> c in s.clients - failing {
      if c in s.clients - failing {
        var i :| 0 <= i < |order| && order[i] == c;
        assert w[i] == t.writes[|s.writes| + i] == Write(c, m, true);
        assert 0 <= i < |w| && w[i].ok && w[i].message == m && w[i].conn == c;
      }
      if c in Delivered(w, m) {
        var i :| 0 <= i < |w| && w[i].ok && w[i].message == m && w[i].conn == c;
        assert w[i] == t.writes[|s.writes| + i] == Write(order[i], m, order[i] !in failing);
        assert order[i] in order;
      }
    }
  }

  /** Register inserts the connection and touches nothing else; registering a
      member again changes nothing. */
  lemma RegisterIdempotent(s: HubState, c: Conn, failing: set<Conn>, order: seq<Conn>)
    ensures Apply(s, Register(c), failing, order) == HubState(s.clients + {c}, s.closes, s.writes)
    ensures c in s.clients ==> Apply(s, Register(c), failing, order) == s
  {
    if c in s.clients {
      assert s.clients + {c} == s.clients;
    }
  }

  /** Unregister of a member removes it and closes it once more; of a
      non-member it changes nothing and closes nothing. */
  lemma UnregisterClosesIfPresent(s: HubState, c: Conn, failing: set<Conn>, order: seq<Conn>)
    ensures var t := Apply(s, Unregister(c), failing, order);
      && t.clients == s.clients - {c}
      && t.writes == s.writes
      && Count(t.closes, c) == Count(s.closes, c) + (if c in s.clients then 1 else 0)
      && (c !in s.clients ==> t == s)
  {
    var t := Apply(s, Unregister(c), failing, order);
    if c in s.clients {
      CountAppend(s.closes, [c], c);
      assert Count([c], c) == 1 + Count([], c);
    } else {
      assert s.clients - {c} == s.clients;
    }
  }

  lemma {:induction false} CountAppend(a: seq<Conn>, b: seq<Conn>, c: Conn)
    ensures Count(a + b, c) == Count(a, c) + Count(b, c)
    decreases |a|
  {
    if a != [] {
      assert (a + b)[1..] == a[1..] + b;
      CountAppend(a[1..], b, c);
    } else {
      assert a + b == b;
    }
  }

  /** In a duplicate-free log a closed connection occurs exactly once. */
  lemma {:induction false} CountNoDup(s: seq<Conn>, c: Conn)
    requires NoDup(s)
    ensures Count(s, c) == if c in s then 1 else 0
    decreases |s|
  {
    if s != [] {
      assert NoDup(s[1..]) by {
        forall i, j | 0 <= i < j < |s[1..]| ensures s[1..][i] != s[1..][j] {
          assert s[i + 1] != s[j + 1];
        }
      }
      CountNoDup(s[1..], c);
      if s[0] == c {
        assert c !in s[1..] by {
          forall k | 0 <= k < |s[1..]| ensures s[1..][k] != c {
            assert s[0] != s[k + 1];
          }
        }
      }
      assert c in s <==> s[0] == c || c in s[1..] by {
        assert s == [s[0]] + s[1..];
      }
    }
  }

  lemma NoDupConcat(a: seq<Conn>, b: seq<Conn>)
    requires NoDup(a) && NoDup(b)
    requires forall c :: c in a ==> c !in b
    ensures NoDup(a + b)
  {
    forall i, j | 0 <= i < j < |a + b| ensures (a + b)[i] != (a + b)[j] {
      if j < |a| {
        assert (a + b)[i] == a[i] && (a + b)[j] == a[j];
      } else if i >= |a| {
        assert (a + b)[i] == b[i - |a|] && (a + b)[j] == b[j - |a|];
      } else {
        assert (a + b)[i] == a[i] && (a + b)[j] == b[j - |a|];
        assert a[i] in a;
      }
    }
  }

  /** Every step keeps the hub sound, so no connection is ever closed twice,
      provided a connection is not registered again after it was closed (the
      upgrade path hands the hub a new connection each time). */
  lemma StepKeepsSound(s: HubState, ev: Event, failing: set<Conn>, order: seq<Conn>)
    requires Sound(s) && Admissible(s, ev)
    requires ev.Broadcast? ==> IsEnumeration(order, s.clients)
    ensures Sound(Apply(s, ev, failing, order))
  {
    match ev
    case Register(c) =>
    case Unregister(c) =>
      if c in s.clients {
        NoDupConcat(s.closes, [c]);
      }
    case Broadcast(m) =>
      DeliverClients(s, m, failing, order);
      DeliverCloses(s, m, failing, order);
      var f := Failed(order, failing);
      assert forall c :: c in f ==> c in s.clients;
      NoDupConcat(s.closes, f);
  }

  /** A connection evicted by a failed broadcast and then unregistered by its
      reader goroutine is closed exactly once in all: the second event finds it
      absent from the client set. */
  lemma EvictThenUnregisterClosesOnce(s: HubState, m: Message, failing: set<Conn>, order: seq<Conn>, c: Conn)
    requires Sound(s)
    requires IsEnumeration(order, s.clients)
    requires c in s.clients && c in failing
    ensures var t := Apply(Apply(s, Broadcast(m), failing, order), Unregister(c), {}, []);
      c !in t.clients && Count(t.closes, c) == 1
  {
    var t1 := Apply(s, Broadcast(m), failing, order);
    StepKeepsSound(s, Broadcast(m), failing, order);
    BroadcastOutcome(s, m, failing, order);
    assert c !in t1.clients;
    assert c in t1.closes[|s.closes|..];
    assert c in t1.closes;
    var t := Apply(t1, Unregister(c), {}, []);
    assert t == t1;
    CountNoDup(t.closes, c);
  }

  /** Delivery completeness: with no failing write, a broadcast to N clients
      makes exactly N successful writes of `m`, one per client, and changes
      neither the client set nor the close log. */
  lemma BroadcastWithoutFailures(s: HubState, m: Message, order: seq<Conn>)
    requires IsEnumeration(order, s.clients)
    ensures var t := Apply(s, Broadcast(m), {}, order);
      && t.clients == s.clients && t.closes == s.closes
      && |t.writes| == |s.writes| + |s.clients|
      && t.writes[..|s.writes|] == s.writes
      && Delivered(t.writes[|s.writes|..], m) == s.clients
  {
    BroadcastOutcome(s, m, {}, order);
    BroadcastIsolation(s, m, {}, order);
    var t := Apply(s, Broadcast(m), {}, order);
    NoDupCardinality(t.closes[|s.closes|..], {});
    assert t.closes == t.closes[..|s.closes|] + t.closes[|s.closes|..];
  }

  /** The end-to-end scenario: with clients A and B and no failing writes,
      "new-room" reaches both; after A unregisters, "new-chat" reaches only B,
      and A has been closed once. */
  lemma EndToEnd(a: Conn, b: Conn, o1: seq<Conn>, o2: seq<Conn>)
    requires a != b
    requires IsEnumeration(o1, {a, b}) && IsEnumeration(o2, {b})
    ensures var s2 := Apply(Apply(Initial, Register(a), {}, []), Register(b), {}, []);
      var s3 := Apply(s2, Broadcast(NewRoom), {}, o1);
      var s4 := Apply(s3, Unregister(a), {}, []);
      var s5 := Apply(s4, Broadcast(NewChat), {}, o2);
      && |s3.writes| == 2 && |s5.writes| == 3
      && Delivered(s3.writes, NewRoom) == {a, b}
      && Delivered(s5.writes[|s3.writes|..], NewChat) == {b}
      && s5.clients == {b} && s5.closes == [a]
  {
    var s2 := Apply(Apply(Initial, Register(a), {}, []), Register(b), {}, []);
    assert s2 == HubState({a, b}, [], []);
    BroadcastWithoutFailures(s2, NewRoom, o1);
    var s3 := Apply(s2, Broadcast(NewRoom), {}, o1);
    assert s3.writes[|s2.writes|..] == s3.writes;
    var s4 := Apply(s3, Unregister(a), {}, []);
    assert s4 == HubState({b}, [a], s3.writes);
    BroadcastWithoutFailures(s4, NewChat, o2);
    var s5 := Apply(s4, Broadcast(NewChat), {}, o2);
    assert s5.writes[|s3.writes|..] == s5.writes[|s4.writes|..];
  }

  /** The hub as the handlers package holds it: the client set, mutated in
      place by the coordinating loop, plus the logs of what it closed and wrote. */
  class Hub {
    var clients: set<Conn>
    var closes: seq<Conn>
    var writes: seq<Write>

    function State(): HubState
      reads this
    {
      HubState(clients, closes, writes)
    }

    /** The package-level `hub`: no clients, nothing closed, nothing written;
        the no-double-close invariant holds from the start. */
    constructor ()
      ensures State() == Initial
      ensures Sound(State())
    {
      clients, closes, writes := {}, [], [];
    }

    /** One pass of the `select` in `run`. `failing` is the set of connections
        whose `WriteMessage` returns an error; `order` is the order in which the
        broadcast loop visited the clients (Go leaves map order unspecified). */
    method Step(ev: Event, failing: set<Conn>) returns (order: seq<Conn>)
      modifies this
      ensures ev.Broadcast? ==> IsEnumeration(order, old(clients))
      ensures !ev.Broadcast? ==> order == []
      ensures State() == Apply(old(State()), ev, failing, order)
      ensures old(Sound(State())) && Admissible(old(State()), ev) ==> Sound(State())
    {
      order := [];
      ghost var s0 := State();
      match ev
      case Register(c) =>
        clients := clients + {c};
      case Unregister(c) =>
        if c in clients {
          clients := clients - {c};
          closes := closes + [c];
        }
      case Broadcast(m) =>
        var pending := clients;
        while pending != {}
          invariant NoDup(order)
          invariant forall c :: c in order <==> c in s0.clients && c !in pending
          invariant pending <= s0.clients
          invariant State() == Deliver(s0, m, failing, order)
          decreases pending
        {
          var c :| c in pending;
          var ok := c !in failing;
          writes := writes + [Write(c, m, ok)];
          if !ok {
            closes := closes + [c];
            clients := clients - {c};
          }
          DeliverSnoc(s0, m, failing, order, c);
          order := order + [c];
          pending := pending - {c};
        }
      if Sound(s0) && Admissible(s0, ev) {
        StepKeepsSound(s0, ev, failing, order);
      }
    }
  }
}
