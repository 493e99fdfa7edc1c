/** Address routing over whole runs of the server: when no address is used by two sessions or for two
    mirrorings, every task's address map is at every point the exact inverse of what its sessions
    list, and a datagram reaches the session its address belongs to or none. */
module Routing {
  import opened Cipher
  import opened Datagram
  import opened Sessions
  import opened Server
  import opened History

  /** Who sends from an address. */
  datatype Owner = Owner(id: Id, mirroring: Mirroring)

  /** Every listed address is listed by its owner's session, under its owner's mirroring. */
  ghost predicate Owned(t: Table, owner: Addr -> Owner) {
    forall x, m, a :: Lists(t, x, m, a) ==>
      owner(a).mirroring == m && owner(a).id in t.ids && t.ids[owner(a).id] == x
  }

  /** A heartbeat that claims an address claims it for its owner. */
  ghost predicate Honest(p: Packet, owner: Addr -> Owner) {
    HEARTBEAT_SIZE <= p.len && p.mirroring < MIRRORINGS ==> owner(p.from) == Owner(p.id, FromByte(p.mirroring))
  }

  ghost predicate Routed(t: Table, owner: Addr -> Owner) {
    Exact(t) && Owned(t, owner)
  }

  lemma HandleRouted(t: Table, e: Event, owner: Addr -> Owner)
    requires Routed(t, owner) && Enabled(t, e)
    ensures Routed(Handle(t, e), owner)
  {
    HandleExact(t, e);
    forall x, m, a | Lists(Handle(t, e), x, m, a)
      ensures owner(a).mirroring == m && owner(a).id in Handle(t, e).ids && Handle(t, e).ids[owner(a).id] == x
    {
      assert Lists(t, x, m, a);
    }
  }

  lemma {:induction false} HandleAllRouted(t: Table, events: seq<Event>, owner: Addr -> Owner)
    requires Routed(t, owner) && HandleAll(t, events).Some?
    ensures Routed(HandleAll(t, events).value, owner)
  {
    if |events| > 0 {
      HandleAllRouted(t, events[..|events| - 1], owner);
      HandleRouted(HandleAll(t, events[..|events| - 1]).value, events[|events| - 1], owner);
    }
  }

  lemma BeatRouted(t: Table, id: Id, m: Mirroring, from: Addr, owner: Addr -> Owner)
    requires Routed(t, owner) && id in t.ids && owner(from) == Owner(id, m)
    ensures Routed(Beat(t, id, m, from), owner)
  {
    assert !Contested(t, id, m, from);
    BeatExact(t, id, m, from);
    forall y, k, a | Lists(Beat(t, id, m, from), y, k, a)
      ensures owner(a).mirroring == k && owner(a).id in t.ids && t.ids[owner(a).id] == y
    {
      BeatLists(t, id, m, from, y, k, a);
    }
  }

  ghost predicate AllRouted(s: System, owner: Addr -> Owner) {
    forall i :: 0 <= i < |s.tasks| ==> Routed(s.tasks[i].table, owner)
  }

  ghost predicate HonestStep(step: Step, owner: Addr -> Owner) {
    step.Heard? ==> Honest(step.packet, owner)
  }

  lemma NextRouted(s: System, step: Step, owner: Addr -> Owner)
    requires AllRouted(s, owner) && HonestStep(step, owner) && Next(s, step).Some?
    ensures AllRouted(Next(s, step).value, owner)
  {
    match step {
      case Drain(i, count) =>
        if i < |s.tasks| && count <= |s.tasks[i].queue| {
          HandleAllRouted(s.tasks[i].table, s.tasks[i].queue[..count], owner);
        }
      case Heard(i, p) =>
        if i < |s.tasks| && Valid(s.tasks[i].table, p) {
          BeatRouted(s.tasks[i].table, p.id, FromByte(p.mirroring), p.from, owner);
        }
      case _ =>
        forall i | 0 <= i < |s.tasks| ensures Next(s, step).value.tasks[i].table == s.tasks[i].table {}
    }
  }

  lemma {:induction false} ExecuteRouted(s: System, steps: seq<Step>, owner: Addr -> Owner)
    requires AllRouted(s, owner) && Execute(s, steps).Some?
    requires forall i :: 0 <= i < |steps| ==> HonestStep(steps[i], owner)
    ensures AllRouted(Execute(s, steps).value, owner)
  {
    if |steps| > 0 {
      ExecuteRouted(s, steps[..|steps| - 1], owner);
      NextRouted(Execute(s, steps[..|steps| - 1]).value, steps[|steps| - 1], owner);
    }
  }

  /** Over every interleaving of registrations, removals, drains and heartbeats in which heartbeats
      come from their owners' addresses: nothing panics; at every point, in every task, an address is
      routed exactly if some session lists it, to that session, which is its owner's; and no session
      lists an address twice. */
  lemma RoutesExact(capacity: nat, tasks: nat, steps: seq<Step>, owner: Addr -> Owner)
    requires PoliteRun(Build(capacity, tasks), steps)
    requires forall i :: 0 <= i < |steps| ==> HonestStep(steps[i], owner)
    ensures var r := Execute(Build(capacity, tasks), steps);
            && r.Some?
            && forall i :: 0 <= i < |r.value.tasks| ==>
                 var t := r.value.tasks[i].table;
                 && Exact(t)
                 && forall a :: a in t.routes ==> owner(a).id in t.ids && t.routes[a] == t.ids[owner(a).id]
  {
    NoPanic(capacity, tasks, steps);
    ExecuteRouted(Build(capacity, tasks), steps, owner);
    var r := Execute(Build(capacity, tasks), steps).value;
    forall i, a | 0 <= i < |r.tasks| && a in r.tasks[i].table.routes
      ensures var t := r.tasks[i].table; owner(a).id in t.ids && t.routes[a] == t.ids[owner(a).id]
    {
      var t := r.tasks[i].table;
      assert Routed(t, owner);
      var m :| Lists(t, t.routes[a], m, a);
    }
  }

  /** And the routes are complete: an address is routed if and only if it is the address of the latest
      heartbeat, since its connect, of its owner's session under its owner's mirroring. */
  lemma RoutedIffLatest(capacity: nat, tasks: nat, steps: seq<Step>, owner: Addr -> Owner, i: nat, a: Addr)
    requires PoliteRun(Build(capacity, tasks), steps) && i < tasks
    requires forall k :: 0 <= k < |steps| ==> HonestStep(steps[k], owner)
    ensures var r := Execute(Build(capacity, tasks), steps);
            && r.Some? && |r.value.tasks| == tasks
            && var t, id := r.value.tasks[i].table, owner(a).id;
            && (a in t.routes <==> id in t.ids && Latest(Trace(steps, i), id, owner(a).mirroring) == Some(a))
            && (a in t.routes ==> t.routes[a] == t.ids[id])
  {
    RoutesExact(capacity, tasks, steps, owner);
    RunIsHistory(capacity, tasks, steps);
    ExecuteRouted(Build(capacity, tasks), steps, owner);
    var s := Execute(Build(capacity, tasks), steps).value;
    assert TaskIs(s.tasks[i], steps, i) && Routed(s.tasks[i].table, owner);
    RouteIsLatest(s.tasks[i].table, Trace(steps, i), owner, a);
  }

  lemma RouteIsLatest(t: Table, ops: seq<Op>, owner: Addr -> Owner, a: Addr)
    requires Routed(t, owner) && Reflects(t, ops)
    ensures a in t.routes <==> owner(a).id in t.ids && Latest(ops, owner(a).id, owner(a).mirroring) == Some(a)
  {
    var id, m := owner(a).id, owner(a).mirroring;
    if a in t.routes { var k :| Lists(t, t.routes[a], k, a); }
    if id in t.ids { assert Listing(t, ops, id, m, a); }
  }

  /** So the receiver of a session is handed exactly the datagrams its own client sent from the
      addresses it made known, in order. */
  lemma OwnDatagramsOnly(capacity: nat, tasks: nat, steps: seq<Step>, owner: Addr -> Owner, i: nat,
                         datagramSize: nat, timestamp: nat, packets: seq<Incoming>, id: Id)
    requires PoliteRun(Build(capacity, tasks), steps)
    requires forall k :: 0 <= k < |steps| ==> HonestStep(steps[k], owner)
    requires Execute(Build(capacity, tasks), steps).Some?
    requires i < |Execute(Build(capacity, tasks), steps).value.tasks|
    requires id in Execute(Build(capacity, tasks), steps).value.tasks[i].table.ids
    ensures var t := Execute(Build(capacity, tasks), steps).value.tasks[i].table;
            var d := Dispatch(t, datagramSize, timestamp, packets);
            d.Some? && HandedTo(d.value, t.ids[id]) == SentFrom(t, owner, datagramSize, packets, id)
  {
    RoutesExact(capacity, tasks, steps, owner);
    var t := Execute(Build(capacity, tasks), steps).value.tasks[i].table;
    DispatchExact(t, datagramSize, timestamp, packets, t.ids[id]);
    SentByOwner(t, owner, datagramSize, packets, id);
  }

  /** The datagrams from routed addresses that belong to the session. */
  ghost function SentFrom(t: Table, owner: Addr -> Owner, datagramSize: nat, packets: seq<Incoming>,
                          id: Id): seq<bytes> {
    if |packets| == 0 then []
    else
      var p := packets[|packets| - 1];
      SentFrom(t, owner, datagramSize, packets[..|packets| - 1], id)
      + (if |p.b| == datagramSize && p.from in t.routes && owner(p.from).id == id then [p.b] else [])
  }

  lemma {:induction false} SentByOwner(t: Table, owner: Addr -> Owner, datagramSize: nat,
                                       packets: seq<Incoming>, id: Id)
    requires Exact(t) && id in t.ids
    requires forall a :: a in t.routes ==> owner(a).id in t.ids && t.routes[a] == t.ids[owner(a).id]
    ensures SentBy(t, datagramSize, packets, t.ids[id]) == SentFrom(t, owner, datagramSize, packets, id)
  {
    if |packets| > 0 {
      SentByOwner(t, owner, datagramSize, packets[..|packets| - 1], id);
      var p := packets[|packets| - 1];
      if p.from in t.routes { var m :| Lists(t, t.routes[p.from], m, p.from); }
    }
  }
}
