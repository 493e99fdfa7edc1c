/** The session tables of one server task (crates/longboy/src/server/client_to_server_receiver.rs):
    an arena of sessions, the map from session ids to arena indices, and the map from client
    addresses to arena indices. */
module Sessions {
  import opened Cipher
  import opened Datagram

  type Id = nat
  type Addr = nat
  type Index = nat

  datatype Event = Connected(id: Id, key: nat) | Disconnected(id: Id)

  datatype Mirroring = AudioVideo | Background | Voice

  /** `socket_addrs` of a session: at most one address for each mirroring. */
  type Addresses = map<Mirroring, Addr>

  /** What a task keeps for a session: the key its receiver was made with, and the addresses. */
  datatype Session = Session(key: nat, addresses: Addresses)

  /** Arena indices are never reused; `next` is the one the next insertion returns. */
  datatype Table = Table(arena: map<Index, Session>, next: Index, ids: map<Id, Index>, routes: map<Addr, Index>)

  const EMPTY := Table(map[], 0, map[], map[])

  // ----- one event, one heartbeat

  /** Whether handling the event does not panic: neither "Duplicate Session ID" nor "Unknown
      Session ID" nor an unwrap of a dead index. */
  predicate Enabled(t: Table, e: Event) {
    match e
    case Connected(id, _) => id !in t.ids
    case Disconnected(id) => id in t.ids && t.ids[id] in t.arena
  }

  function Handle(t: Table, e: Event): Table
    requires Enabled(t, e)
  {
    match e
    case Connected(id, key) =>
      t.(arena := t.arena[t.next := Session(key, map[])], next := t.next + 1, ids := t.ids[id := t.next])
    case Disconnected(id) =>
      t.(arena := t.arena - {t.ids[id]}, ids := t.ids - {id}, routes := t.routes - t.arena[t.ids[id]].addresses.Values)
  }

  function Beat(t: Table, id: Id, m: Mirroring, from: Addr): Table
    requires id in t.ids && t.ids[id] in t.arena
  {
    var x := t.ids[id];
    var addresses := t.arena[x].addresses;
    var kept := if m in addresses then t.routes - {addresses[m]} else t.routes;
    t.(arena := t.arena[x := t.arena[x].(addresses := addresses[m := from])], routes := kept[from := x])
  }

  // ----- the invariant behind the unwraps

  ghost predicate Lists(t: Table, x: Index, m: Mirroring, a: Addr) {
    x in t.arena && m in t.arena[x].addresses && t.arena[x].addresses[m] == a
  }

  ghost predicate Sound(t: Table) {
    && (forall id :: id in t.ids ==> t.ids[id] in t.arena)
    && (forall i, j :: i in t.ids && j in t.ids && t.ids[i] == t.ids[j] ==> i == j)
    && (forall x :: x in t.arena ==> x < t.next && exists id :: id in t.ids && t.ids[id] == x)
    && (forall a :: a in t.routes ==> exists m :: Lists(t, t.routes[a], m, a))
  }

  lemma HandleSound(t: Table, e: Event)
    requires Sound(t) && Enabled(t, e)
    ensures Sound(Handle(t, e))
  {
    var r := Handle(t, e);
    match e {
      case Connected(id, _) =>
        assert r.ids[id] == t.next;
        forall x | x in r.arena ensures x < r.next && exists i :: i in r.ids && r.ids[i] == x {
          if x != t.next {
            var i :| i in t.ids && t.ids[i] == x;
            assert r.ids[i] == x;
          }
        }
        forall a | a in r.routes ensures exists m :: Lists(r, r.routes[a], m, a) {
          var m :| Lists(t, t.routes[a], m, a);
          assert Lists(r, r.routes[a], m, a);
        }
      case Disconnected(id) =>
        forall x | x in r.arena ensures x < r.next && exists i :: i in r.ids && r.ids[i] == x {
          var i :| i in t.ids && t.ids[i] == x;
          assert r.ids[i] == x;
        }
        forall a | a in r.routes ensures exists m :: Lists(r, r.routes[a], m, a) {
          var m :| Lists(t, t.routes[a], m, a);
          assert Lists(r, r.routes[a], m, a);
        }
    }
  }

  lemma BeatSound(t: Table, id: Id, m: Mirroring, from: Addr)
    requires Sound(t) && id in t.ids
    ensures Sound(Beat(t, id, m, from))
  {
    var r := Beat(t, id, m, from);
    var x := t.ids[id];
    forall y | y in r.arena ensures y < r.next && exists i :: i in r.ids && r.ids[i] == y {
      assert y in t.arena;
    }
    assert Lists(r, x, m, from);
    forall a | a in r.routes && a != from ensures exists k :: Lists(r, r.routes[a], k, a) {
      var k :| Lists(t, t.routes[a], k, a);
      assert Lists(r, r.routes[a], k, a);
    }
  }

  // ----- exactly what changes

  /** From `t` to `r` only the session of the event has changed: every other id keeps its index and its
      key, every other session its addresses; a new session starts with its key and no address, at an
      index no session has. */
  ghost predicate Touched(t: Table, r: Table, e: Event)
    requires Sound(t) && Enabled(t, e)
  {
    && (forall x, m, a :: Lists(r, x, m, a) <==> Lists(t, x, m, a) && !(e.Disconnected? && x == t.ids[e.id]))
    && (forall id :: id in r.ids <==> if id == e.id then e.Connected? else id in t.ids)
    && (forall id :: id in t.ids && id != e.id ==>
          r.ids[id] == t.ids[id] && r.ids[id] in r.arena && r.arena[r.ids[id]] == t.arena[t.ids[id]])
    && (e.Connected? ==>
          r.ids[e.id] !in t.arena && r.ids[e.id] in r.arena && r.arena[r.ids[e.id]] == Session(e.key, map[]))
  }

  lemma HandleTouches(t: Table, e: Event)
    requires Sound(t) && Enabled(t, e)
    ensures Touched(t, Handle(t, e), e)
  {
  }

  /** Connects leave every route; a disconnect removes exactly the routes of the addresses its session
      lists. */
  lemma HandleRoutes(t: Table, e: Event, a: Addr)
    requires Sound(t) && Enabled(t, e)
    ensures var r := Handle(t, e);
            && (a in r.routes <==> a in t.routes && !(e.Disconnected? && exists m :: Lists(t, t.ids[e.id], m, a)))
            && (a in r.routes ==> r.routes[a] == t.routes[a])
  {
    if e.Disconnected? {
      var addresses := t.arena[t.ids[e.id]].addresses;
      if a in addresses.Values {
        var m :| m in addresses && addresses[m] == a;
        assert Lists(t, t.ids[e.id], m, a);
      }
    }
  }

  // ----- the address map as an inverse

  /** Every listed address routes to the session that lists it. */
  ghost predicate Inverse(t: Table) {
    forall x, m, a :: Lists(t, x, m, a) ==> a in t.routes && t.routes[a] == x
  }

  /** No session lists an address twice. */
  ghost predicate Distinct(t: Table) {
    forall x, m, k, a :: Lists(t, x, m, a) && Lists(t, x, k, a) ==> m == k
  }

  /** The address map is exactly the inverse of the per-session address tables. */
  ghost predicate Exact(t: Table) {
    Sound(t) && Inverse(t) && Distinct(t)
  }

  /** The address is listed by some other session or under some other mirroring. */
  ghost predicate Contested(t: Table, id: Id, m: Mirroring, from: Addr)
    requires id in t.ids
  {
    exists x, k :: Lists(t, x, k, from) && (x != t.ids[id] || k != m)
  }

  lemma NotListedElsewhere(t: Table, x: Index, m: Mirroring, a: Addr, y: Index)
    requires Inverse(t) && Lists(t, x, m, a) && y in t.arena && y != x
    ensures a !in t.arena[y].addresses.Values
  {
    forall v | v in t.arena[y].addresses.Values ensures v != a {
      var k :| k in t.arena[y].addresses && t.arena[y].addresses[k] == v;
      assert Lists(t, y, k, v);
    }
  }

  /** On exact tables the routes that go are those to the session that left. */
  lemma OtherRoutesSurvive(t: Table, e: Event, a: Addr)
    requires Exact(t) && Enabled(t, e)
    ensures a in Handle(t, e).routes <==> a in t.routes && !(e.Disconnected? && t.routes[a] == t.ids[e.id])
  {
    HandleRoutes(t, e, a);
    if a in t.routes { var m :| Lists(t, t.routes[a], m, a); }
  }

  lemma HandleExact(t: Table, e: Event)
    requires Exact(t) && Enabled(t, e)
    ensures Exact(Handle(t, e))
  {
    HandleSound(t, e);
    var r := Handle(t, e);
    forall x, m, a | Lists(r, x, m, a) ensures Lists(t, x, m, a) && a in r.routes && r.routes[a] == x {
      assert Lists(t, x, m, a);
      if e.Disconnected? { NotListedElsewhere(t, x, m, a, t.ids[e.id]); }
    }
    assert Distinct(r);
  }

  /** An entry of the table after a heartbeat is the heartbeat's own or an earlier one. */
  lemma BeatLists(t: Table, id: Id, m: Mirroring, from: Addr, y: Index, k: Mirroring, a: Addr)
    requires id in t.ids && t.ids[id] in t.arena
    ensures Lists(Beat(t, id, m, from), y, k, a) <==>
            if y == t.ids[id] && k == m then a == from else Lists(t, y, k, a)
  {
  }

  /** An uncontested heartbeat keeps the address map exact. */
  lemma BeatExact(t: Table, id: Id, m: Mirroring, from: Addr)
    requires Exact(t) && id in t.ids && !Contested(t, id, m, from)
    ensures Exact(Beat(t, id, m, from))
  {
    BeatSound(t, id, m, from);
    var r, x := Beat(t, id, m, from), t.ids[id];
    forall y, k, a | Lists(r, y, k, a) ensures a in r.routes && r.routes[a] == y {
      BeatRoutes(t, id, m, from, y, k, a);
    }
    forall y, k, l, a | Lists(r, y, k, a) && Lists(r, y, l, a) ensures k == l {
      BeatLists(t, id, m, from, y, k, a);
      BeatLists(t, id, m, from, y, l, a);
    }
  }

  lemma BeatRoutes(t: Table, id: Id, m: Mirroring, from: Addr, y: Index, k: Mirroring, a: Addr)
    requires Exact(t) && id in t.ids && !Contested(t, id, m, from)
    requires Lists(Beat(t, id, m, from), y, k, a)
    ensures var r := Beat(t, id, m, from);
            a in r.routes && r.routes[a] == y
  {
    BeatLists(t, id, m, from, y, k, a);
    var x := t.ids[id];
    if y != x || k != m {
      assert Lists(t, y, k, a) && a != from;
      if m in t.arena[x].addresses { assert Lists(t, x, m, t.arena[x].addresses[m]); }
    }
  }

  /** A heartbeat keeps the address map exact if and only if its address is not contested. */
  lemma BeatExactIff(t: Table, id: Id, m: Mirroring, from: Addr)
    requires Exact(t) && id in t.ids
    ensures Exact(Beat(t, id, m, from)) <==> !Contested(t, id, m, from)
  {
    if Contested(t, id, m, from) {
      var r, x := Beat(t, id, m, from), t.ids[id];
      var y, k :| Lists(t, y, k, from) && (y != x || k != m);
      assert Lists(r, y, k, from) && Lists(r, x, m, from);
    } else {
      BeatExact(t, id, m, from);
    }
  }

  // ----- size of the address map

  ghost function Listed(arena: map<Index, Session>): set<Addr> {
    set x, m | x in arena && m in arena[x].addresses :: arena[x].addresses[m]
  }

  lemma FewMirrorings(s: set<Mirroring>)
    ensures |s| <= 3
  {
    forall m | m in s ensures m in {AudioVideo, Background, Voice} {
      match m { case AudioVideo => case Background => case Voice => }
    }
    SubsetSize(s, {AudioVideo, Background, Voice});
  }

  lemma {:induction false} SubsetSize<T>(a: set<T>, b: set<T>)
    requires a <= b
    ensures |a| <= |b|
  {
    if a != {} {
      var x :| x in a;
      SubsetSize(a - {x}, b - {x});
    }
  }

  lemma ValuesSize(m: Addresses)
    ensures |m.Values| <= |m.Keys|
    decreases |m.Keys|
  {
  }

  lemma ListedSplit(arena: map<Index, Session>, x: Index)
    requires x in arena
    ensures Listed(arena) <= Listed(arena - {x}) + arena[x].addresses.Values
  {
    var rest := arena - {x};
    forall a | a in Listed(arena) ensures a in Listed(rest) + arena[x].addresses.Values {
      var y, m :| y in arena && m in arena[y].addresses && arena[y].addresses[m] == a;
      if y != x { assert y in rest && rest[y].addresses[m] == a; }
    }
  }

  lemma {:induction false} ListedSize(arena: map<Index, Session>)
    ensures |Listed(arena)| <= 3 * |arena|
    decreases |arena.Keys|
  {
    if arena.Keys == {} {
      assert Listed(arena) == {};
    } else {
      var x :| x in arena.Keys;
      var rest := arena - {x};
      assert |rest.Keys| == |arena.Keys| - 1;
      ListedSize(rest);
      ListedSplit(arena, x);
      SubsetSize(Listed(arena), Listed(rest) + arena[x].addresses.Values);
      ValuesSize(arena[x].addresses);
      FewMirrorings(arena[x].addresses.Keys);
      assert |arena| == |rest| + 1;
    }
  }

  /** The address map never outgrows the capacity it was given: three entries a session. */
  lemma RoutesBound(t: Table)
    requires Sound(t)
    ensures |t.routes| <= 3 * |t.arena| && |t.arena| == |t.ids|
  {
    assert t.routes.Keys <= Listed(t.arena) by {
      forall a | a in t.routes ensures a in Listed(t.arena) {
        var m :| Lists(t, t.routes[a], m, a);
      }
    }
    SubsetSize(t.routes.Keys, Listed(t.arena));
    ListedSize(t.arena);
    SameSize(t.ids, t.arena.Keys);
  }

  /** An injective map has as many keys as values. */
  lemma {:induction false} SameSize(m: map<Id, Index>, values: set<Index>)
    requires forall i, j :: i in m && j in m && m[i] == m[j] ==> i == j
    requires forall x :: x in values <==> exists i :: i in m && m[i] == x
    ensures |m| == |values|
    decreases |m.Keys|
  {
    if m.Keys == {} {
      assert values == {};
    } else {
      var i :| i in m.Keys;
      assert m[i] in values;
      var rest, fewer := m - {i}, values - {m[i]};
      assert |rest.Keys| == |m.Keys| - 1;
      forall x ensures x in fewer <==> exists j :: j in rest && rest[j] == x {
        if x in fewer {
          var j :| j in m && m[j] == x;
          assert rest[j] == x;
        }
      }
      SameSize(rest, fewer);
      assert |m| == |rest| + 1;
    }
  }

  // ----- whole polls; None is a panic

  function HandleAll(t: Table, events: seq<Event>): Option<Table> {
    if |events| == 0 then Some(t)
    else
      var before := HandleAll(t, events[..|events| - 1]);
      var e := events[|events| - 1];
      if before.Some? && Enabled(before.value, e) then Some(Handle(before.value, e)) else None
  }

  const HEARTBEAT_SIZE := 9
  const MIRRORINGS := 3

  /** A packet on the mapper socket: its length, the id and mirroring byte read from it, and the
      address it came from. */
  datatype Packet = Packet(len: nat, id: Id, mirroring: nat, from: Addr)

  function FromByte(b: nat): Mirroring
    requires b < MIRRORINGS
  {
    if b == 0 then AudioVideo else if b == 1 then Background else Voice
  }

  /** A packet that changes the tables. */
  predicate Valid(t: Table, p: Packet) {
    HEARTBEAT_SIZE <= p.len && p.mirroring < MIRRORINGS && p.id in t.ids
  }

  function Hear(t: Table, p: Packet): Option<Table> {
    if !Valid(t, p) then Some(t)
    else if t.ids[p.id] !in t.arena then None
    else Some(Beat(t, p.id, FromByte(p.mirroring), p.from))
  }

  /** Which packets are taken in and what they do: at least nine bytes, a known id and a last byte of
      0, 1 or 2 list and route the sender's address under AudioVideo, Background or Voice of the id's
      session, and nothing else about any session changes; any other packet changes nothing. */
  lemma HearChanges(t: Table, p: Packet)
    requires Sound(t)
    ensures Hear(t, p).Some?
    ensures p.len < 9 || p.mirroring > 2 || p.id !in t.ids ==> Hear(t, p) == Some(t)
    ensures 9 <= p.len && p.id in t.ids && p.mirroring == 0 ==> TakenIn(t, Hear(t, p).value, p.id, AudioVideo, p.from)
    ensures 9 <= p.len && p.id in t.ids && p.mirroring == 1 ==> TakenIn(t, Hear(t, p).value, p.id, Background, p.from)
    ensures 9 <= p.len && p.id in t.ids && p.mirroring == 2 ==> TakenIn(t, Hear(t, p).value, p.id, Voice, p.from)
  {
    if Valid(t, p) { BeatTakenIn(t, p.id, FromByte(p.mirroring), p.from); }
  }

  /** From `t` to `r` the session of `id` has taken `a` as its address for `m`. */
  ghost predicate TakenIn(t: Table, r: Table, id: Id, m: Mirroring, a: Addr)
    requires id in t.ids
  {
    var x := t.ids[id];
    && r.ids == t.ids && r.arena.Keys == t.arena.Keys
    && (forall y :: y in t.arena ==> r.arena[y].key == t.arena[y].key)
    && Lists(r, x, m, a) && a in r.routes && r.routes[a] == x
    && (forall y, k, b :: y != x || k != m ==> (Lists(r, y, k, b) <==> Lists(t, y, k, b)))
    && (forall b :: b != a ==> (b in r.routes <==> b in t.routes && !Lists(t, x, m, b)))
    && (forall b :: b != a && b in r.routes ==> r.routes[b] == t.routes[b])
  }

  lemma BeatTakenIn(t: Table, id: Id, m: Mirroring, from: Addr)
    requires Sound(t) && id in t.ids
    ensures TakenIn(t, Beat(t, id, m, from), id, m, from)
  {
    var r, x := Beat(t, id, m, from), t.ids[id];
    forall y, k, b | y != x || k != m ensures Lists(r, y, k, b) <==> Lists(t, y, k, b) {
      BeatLists(t, id, m, from, y, k, b);
    }
    BeatLists(t, id, m, from, x, m, from);
  }

  function HearAll(t: Table, packets: seq<Packet>): Option<Table> {
    if |packets| == 0 then Some(t)
    else
      var before := HearAll(t, packets[..|packets| - 1]);
      if before.Some? then Hear(before.value, packets[|packets| - 1]) else None
  }

  /** A packet on the data socket. */
  datatype Incoming = Incoming(b: bytes, from: Addr)

  /** One call of a session's receiver. */
  datatype Delivery = Delivery(index: Index, timestamp: nat, b: bytes)

  /** The calls the packets cause, in order. */
  function Dispatch(t: Table, datagramSize: nat, timestamp: nat, packets: seq<Incoming>): Option<seq<Delivery>> {
    if |packets| == 0 then Some([])
    else
      var before := Dispatch(t, datagramSize, timestamp, packets[..|packets| - 1]);
      var p := packets[|packets| - 1];
      if before.None? || |p.b| != datagramSize || p.from !in t.routes then before
      else if t.routes[p.from] !in t.arena then None
      else Some(before.value + [Delivery(t.routes[p.from], timestamp, p.b)])
  }

  /** Heartbeats never unwrap a dead index and keep the tables sound, whoever claims what. */
  lemma {:induction false} HearAllSound(t: Table, packets: seq<Packet>)
    requires Sound(t)
    ensures HearAll(t, packets).Some? && Sound(HearAll(t, packets).value)
    ensures HearAll(t, packets).value.ids == t.ids
  {
    if |packets| > 0 {
      HearAllSound(t, packets[..|packets| - 1]);
      var u, p := HearAll(t, packets[..|packets| - 1]).value, packets[|packets| - 1];
      if Valid(u, p) { BeatSound(u, p.id, FromByte(p.mirroring), p.from); }
    }
  }

  /** Datagrams are only ever handed to live sessions that list the address they came from, unchanged
      and with the clock reading of the poll. */
  lemma {:induction false} DispatchSound(t: Table, datagramSize: nat, timestamp: nat, packets: seq<Incoming>)
    requires Sound(t)
    ensures Dispatch(t, datagramSize, timestamp, packets).Some?
    ensures forall d :: d in Dispatch(t, datagramSize, timestamp, packets).value ==>
              && d.index in t.arena && d.timestamp == timestamp && |d.b| == datagramSize
              && exists p, m :: p in packets && p.b == d.b && Lists(t, d.index, m, p.from)
  {
    if |packets| > 0 {
      var before := packets[..|packets| - 1];
      var p := packets[|packets| - 1];
      DispatchSound(t, datagramSize, timestamp, before);
      forall d | d in Dispatch(t, datagramSize, timestamp, packets).value
        ensures d.index in t.arena && d.timestamp == timestamp && |d.b| == datagramSize
        ensures exists q, m :: q in packets && q.b == d.b && Lists(t, d.index, m, q.from)
      {
        if d in Dispatch(t, datagramSize, timestamp, before).value {
          var q, m :| q in before && q.b == d.b && Lists(t, d.index, m, q.from);
          assert q in packets && Lists(t, d.index, m, q.from);
        } else {
          var m :| Lists(t, t.routes[p.from], m, p.from);
          assert p in packets && Lists(t, d.index, m, p.from);
        }
      }
    }
  }

  /** On exact tables the packets handed to a session are exactly those of the right length from the
      addresses it lists, in the order they came. */
  lemma {:induction false} DispatchExact(t: Table, datagramSize: nat, timestamp: nat, packets: seq<Incoming>, x: Index)
    requires Exact(t)
    ensures Dispatch(t, datagramSize, timestamp, packets).Some?
    ensures HandedTo(Dispatch(t, datagramSize, timestamp, packets).value, x) == SentBy(t, datagramSize, packets, x)
  {
    if |packets| > 0 {
      var before := packets[..|packets| - 1];
      var p := packets[|packets| - 1];
      DispatchExact(t, datagramSize, timestamp, before, x);
      DispatchSound(t, datagramSize, timestamp, packets);
      if p.from in t.routes { var m :| Lists(t, t.routes[p.from], m, p.from); }
    }
  }

  /** The datagrams one session's receiver is called with. */
  function HandedTo(deliveries: seq<Delivery>, x: Index): seq<bytes> {
    if |deliveries| == 0 then []
    else
      var d := deliveries[|deliveries| - 1];
      HandedTo(deliveries[..|deliveries| - 1], x) + (if d.index == x then [d.b] else [])
  }

  /** The datagrams that came from addresses the session lists. */
  ghost function SentBy(t: Table, datagramSize: nat, packets: seq<Incoming>, x: Index): seq<bytes> {
    if |packets| == 0 then []
    else
      var p := packets[|packets| - 1];
      SentBy(t, datagramSize, packets[..|packets| - 1], x)
      + (if |p.b| == datagramSize && exists m :: Lists(t, x, m, p.from) then [p.b] else [])
  }

  class ClientToServerReceiver {
    var sessions: map<Index, Session>
    var next: Index
    var sessionIds: map<Id, Index>
    var socketAddrs: map<Addr, Index>

    function Tables(): Table
      reads this
    {
      Table(sessions, next, sessionIds, socketAddrs)
    }

    constructor ()
      ensures Tables() == EMPTY
    {
      sessions, next, sessionIds, socketAddrs := map[], 0, map[], map[];
    }

    /** Drain the events the queue yields; `ok` is false if it panicked. */
    method PollServerSessionEvents(events: seq<Event>) returns (ok: bool)
      modifies this
      ensures ok <==> HandleAll(old(Tables()), events).Some?
      ensures ok ==> Some(Tables()) == HandleAll(old(Tables()), events)
    {
      for i := 0 to |events|
        invariant HandleAll(old(Tables()), events[..i]) == Some(Tables())
      {
        assert events[..i + 1][..i] == events[..i];
        match events[i] {
          case Connected(id, key) =>
            sessions := sessions[next := Session(key, map[])];
            if id in sessionIds {
              HandleAllStops(old(Tables()), events, i + 1);
              return false;
            }
            sessionIds := sessionIds[id := next];
            next := next + 1;
          case Disconnected(id) =>
            if id !in sessionIds || sessionIds[id] !in sessions {
              HandleAllStops(old(Tables()), events, i + 1);
              return false;
            }
            var index := sessionIds[id];
            var addresses := sessions[index].addresses;
            sessionIds := sessionIds - {id};
            sessions := sessions - {index};
            socketAddrs := socketAddrs - addresses.Values;
        }
      }
      assert events[..|events|] == events;
      return true;
    }

    /** Take in the heartbeats waiting on the mapper socket. */
    method PollForClientSocketAddresses(packets: seq<Packet>) returns (ok: bool)
      modifies this`sessions, this`socketAddrs
      ensures ok <==> HearAll(old(Tables()), packets).Some?
      ensures ok ==> Some(Tables()) == HearAll(old(Tables()), packets)
    {
      for i := 0 to |packets|
        invariant HearAll(old(Tables()), packets[..i]) == Some(Tables())
      {
        assert packets[..i + 1][..i] == packets[..i];
        var p := packets[i];
        if p.len < HEARTBEAT_SIZE { continue; }
        if p.mirroring >= MIRRORINGS { continue; }
        var mirroring := FromByte(p.mirroring);
        if p.id in sessionIds {
          var index := sessionIds[p.id];
          if index !in sessions {
            HearAllStops(old(Tables()), packets, i + 1);
            return false;
          }
          var addresses := sessions[index].addresses;
          if mirroring in addresses {
            socketAddrs := socketAddrs - {addresses[mirroring]};
          }
          sessions := sessions[index := sessions[index].(addresses := addresses[mirroring := p.from])];
          socketAddrs := socketAddrs[p.from := index];
        }
      }
      assert packets[..|packets|] == packets;
      return true;
    }

    /** Hand the waiting datagrams to their sessions' receivers. */
    method PollForClientDatagrams(datagramSize: nat, timestamp: nat, packets: seq<Incoming>)
      returns (ok: bool, handed: seq<Delivery>)
      ensures ok <==> Dispatch(Tables(), datagramSize, timestamp, packets).Some?
      ensures ok ==> Some(handed) == Dispatch(Tables(), datagramSize, timestamp, packets)
    {
      handed := [];
      for i := 0 to |packets|
        invariant Dispatch(Tables(), datagramSize, timestamp, packets[..i]) == Some(handed)
      {
        assert packets[..i + 1][..i] == packets[..i];
        var p := packets[i];
        if |p.b| != datagramSize { continue; }
        if p.from in socketAddrs {
          var index := socketAddrs[p.from];
          if index !in sessions {
            DispatchStops(Tables(), datagramSize, timestamp, packets, i + 1);
            return false, [];
          }
          handed := handed + [Delivery(index, timestamp, p.b)];
        }
      }
      assert packets[..|packets|] == packets;
      return true, handed;
    }
  }

  lemma {:induction false} HandleAllStops(t: Table, events: seq<Event>, i: nat)
    requires i <= |events| && HandleAll(t, events[..i]).None?
    ensures HandleAll(t, events).None?
  {
    if i == |events| {
      assert events[..i] == events;
    } else {
      var before := events[..|events| - 1];
      assert before[..i] == events[..i];
      HandleAllStops(t, before, i);
    }
  }

  lemma {:induction false} HearAllStops(t: Table, packets: seq<Packet>, i: nat)
    requires i <= |packets| && HearAll(t, packets[..i]).None?
    ensures HearAll(t, packets).None?
  {
    if i == |packets| {
      assert packets[..i] == packets;
    } else {
      var before := packets[..|packets| - 1];
      assert before[..i] == packets[..i];
      HearAllStops(t, before, i);
    }
  }

  lemma {:induction false} DispatchStops(t: Table, datagramSize: nat, timestamp: nat, packets: seq<Incoming>, i: nat)
    requires i <= |packets| && Dispatch(t, datagramSize, timestamp, packets[..i]).None?
    ensures Dispatch(t, datagramSize, timestamp, packets).None?
  {
    if i == |packets| {
      assert packets[..i] == packets;
    } else {
      var before := packets[..|packets| - 1];
      assert before[..i] == packets[..i];
      DispatchStops(t, datagramSize, timestamp, before, i);
    }
  }
}
