/** The session broker of the server program (crates/longboy-server-cli/src/broker.rs) and the chain
    from an accepted connection to the tasks' factories. */
module Broker {
  import opened Datagram
  import opened Sessions
  import opened Server
  import opened Position

  const U64 := 0x1_0000_0000_0000_0000

  /** Next session id, player index of every id handed out, and which player indices are free. */
  datatype Players = Players(nextId: Id, players: map<Id, nat>, free: seq<bool>)

  /** The first free index. */
  function FirstFree(free: seq<bool>): (r: Option<nat>)
    ensures r.Some? ==> r.value < |free| && free[r.value] && forall i :: 0 <= i < r.value ==> !free[i]
    ensures r.None? ==> forall i :: 0 <= i < |free| ==> !free[i]
  {
    if |free| == 0 then None
    else
      var before := FirstFree(free[..|free| - 1]);
      if before.Some? then before
      else if free[|free| - 1] then Some(|free| - 1)
      else None
  }

  class SessionBroker {
    var nextSessionId: nat
    var playerSessions: map<Id, nat>
    var playerIndexFreeList: array<bool>

    function State(): Players
      reads this, playerIndexFreeList
    {
      Players(nextSessionId, playerSessions, playerIndexFreeList[..])
    }

    constructor (maxPlayers: nat)
      ensures State() == New(maxPlayers) && fresh(playerIndexFreeList)
    {
      nextSessionId, playerSessions := 1, map[];
      playerIndexFreeList := new bool[maxPlayers](i => true);
      new;
      assert playerIndexFreeList[..] == New(maxPlayers).free;
    }

    method NextPlayerIndex() returns (r: Option<nat>)
      modifies playerIndexFreeList
      ensures r == FirstFree(old(playerIndexFreeList[..]))
      ensures State() == if r.Some? then old(State()).(free := old(playerIndexFreeList[..])[r.value := false])
                         else old(State())
    {
      ghost var was := playerIndexFreeList[..];
      for i := 0 to playerIndexFreeList.Length
        invariant playerIndexFreeList[..] == was
        invariant FirstFree(was[..i]).None?
      {
        assert was[..i + 1][..i] == was[..i];
        if playerIndexFreeList[i] {
          FirstFreeExtends(was, i + 1);
          playerIndexFreeList[i] := false;
          return Some(i);
        }
      }
      assert was[..|was|] == was;
      return None;
    }

    method AllocateSessionId(playerIndex: nat) returns (id: Id)
      modifies this
      ensures playerIndexFreeList == old(playerIndexFreeList)
      ensures id == old(nextSessionId)
      ensures nextSessionId == (id + 1) % U64 && playerSessions == old(playerSessions)[id := playerIndex]
    {
      id := nextSessionId;
      nextSessionId := (nextSessionId + 1) % U64;
      playerSessions := playerSessions[id := playerIndex];
    }

    /** What the source factory does first; None is "Unknown Session ID". */
    method InvokeSource(id: Id) returns (channel: Option<nat>)
      ensures channel == Lookup(State(), id)
    {
      channel := if id in playerSessions then Some(playerSessions[id]) else None;
    }

    /** What the sink factory does first: the player index goes into a byte. */
    method InvokeSink(id: Id) returns (number: Option<nat>)
      ensures number == Number(State(), id)
    {
      number := if id in playerSessions then Some(playerSessions[id] % 256) else None;
    }
  }

  lemma {:induction false} FirstFreeExtends(free: seq<bool>, i: nat)
    requires i <= |free| && FirstFree(free[..i]).Some?
    ensures FirstFree(free) == FirstFree(free[..i])
  {
    if i == |free| {
      assert free[..i] == free;
    } else {
      var before := free[..|free| - 1];
      assert before[..i] == free[..i];
      FirstFreeExtends(before, i);
    }
  }

  function Lookup(b: Players, id: Id): Option<nat> {
    if id in b.players then Some(b.players[id]) else None
  }

  function Number(b: Players, id: Id): Option<nat> {
    if id in b.players then Some(b.players[id] % 256) else None
  }

  function New(maxPlayers: nat): Players {
    Players(1, map[], seq(maxPlayers, i => true))
  }

  // ----- accepted connections

  datatype World = World(broker: Players, system: System)

  datatype Move =
    | Accept(key: nat, established: bool)
    | Inner(step: Step)

  /** The broker after handing out one id and one index. */
  function Issue(b: Players, p: nat): Players
    requires p < |b.free|
  {
    Players((b.nextId + 1) % U64, b.players[b.nextId := p], b.free[p := false])
  }

  /** One accepted connection: a player index, then a session id, then, if the session is
      established with the client, its registration.  With no index left it is turned away. */
  function Admit(v: World, key: nat, established: bool): Option<World> {
    match FirstFree(v.broker.free)
    case None => Some(v)
    case Some(p) =>
      if !established then Some(World(Issue(v.broker, p), v.system))
      else
        match Next(v.system, Register(v.broker.nextId, key))
        case None => None
        case Some(system) => Some(World(Issue(v.broker, p), system))
  }

  /** What an accepted connection does, with an index free and room for one more session.  The id is
      the next one, and it alone gets player index `p`, which is no longer free.  If the session is
      established, the server has it with its key, and its connect is the last event on every queue;
      if not, the server and the tasks are as they were. */
  lemma AdmitRegisters(v: World, key: nat, p: nat)
    requires FirstFree(v.broker.free) == Some(p) && |v.system.sessions| < v.system.capacity
    ensures var r, u, id := Admit(v, key, true), Admit(v, key, false), v.broker.nextId;
            && r.Some? && u.Some? && u.value.system == v.system && r.value.broker == u.value.broker
            && r.value.system.sessions == v.system.sessions[id := key]
            && r.value.system.capacity == v.system.capacity && |r.value.system.tasks| == |v.system.tasks|
            && (forall i :: 0 <= i < |v.system.tasks| ==>
                  r.value.system.tasks[i] ==
                  v.system.tasks[i].(queue := v.system.tasks[i].queue + [Connected(id, key)]))
    ensures var b, id := Admit(v, key, true).value.broker, v.broker.nextId;
            && b.nextId == (id + 1) % U64
            && Lookup(b, id) == Some(p) && (forall other :: other != id ==> Lookup(b, other) == Lookup(v.broker, other))
            && |b.free| == |v.broker.free| && !b.free[p]
            && (forall i :: 0 <= i < |b.free| && i != p ==> b.free[i] == v.broker.free[i])
  {
  }

  /** With no index left a connection is turned away and nothing changes. */
  lemma AdmitFull(v: World, key: nat, established: bool)
    requires forall i :: 0 <= i < |v.broker.free| ==> !v.broker.free[i]
    ensures Admit(v, key, established) == Some(v)
  {
  }

  /** The factories a task invokes for the events it drains; every id must be known and its player
      index must be a channel index. */
  predicate Invokable(b: Players, e: Event) {
    e.Connected? ==> e.id in b.players && b.players[e.id] < |b.free|
  }

  predicate FactoriesKnow(v: World, i: nat, count: nat) {
    i < |v.system.tasks| && count <= |v.system.tasks[i].queue| ==>
      forall k :: 0 <= k < count ==> Invokable(v.broker, v.system.tasks[i].queue[k])
  }

  /** One move; None is a panic, in the server, a task or a factory. */
  function Do(v: World, move: Move): Option<World> {
    match move
    case Accept(key, established) => Admit(v, key, established)
    case Inner(step) =>
      if step.Drain? && !FactoriesKnow(v, step.task, step.count) then None
      else
        match Next(v.system, step)
        case None => None
        case Some(system) => Some(v.(system := system))
  }

  // ----- the chain

  /** The broker's own books: ids below the next one, each with a taken player index of its own. */
  ghost predicate Books(b: Players) {
    && b.nextId == 1 + |b.players|
    && (forall id :: id in b.players ==> 1 <= id < b.nextId && b.players[id] < |b.free| && !b.free[b.players[id]])
    && (forall i, j :: i in b.players && j in b.players && b.players[i] == b.players[j] ==> i == j)
  }

  /** Every id a task holds or will hold is one the broker handed out. */
  ghost predicate Known(t: Task, ids: set<Id>) {
    t.table.ids.Keys <= ids && forall k :: 0 <= k < |t.queue| && t.queue[k].Connected? ==> t.queue[k].id in ids
  }

  ghost predicate Chain(v: World) {
    && Consistent(v.system)
    && Books(v.broker)
    && v.system.sessions.Keys <= v.broker.players.Keys
    && forall i :: 0 <= i < |v.system.tasks| ==> Known(v.system.tasks[i], v.broker.players.Keys)
  }

  lemma OneMore(taken: set<nat>, p: nat, k: nat)
    requires p < k && p !in taken && forall x :: x in taken ==> x < k
    ensures |taken| < k
  {
    BoundedSize(taken + {p}, k);
  }

  /** While an index is free fewer ids than indices were handed out. */
  lemma BooksBound(b: Players, p: nat)
    requires Books(b) && p < |b.free| && b.free[p]
    ensures |b.players| < |b.free|
  {
    var taken := b.players.Values;
    forall x | x in taken ensures x < |b.free| && !b.free[x] {
      var id :| id in b.players && b.players[id] == x;
    }
    SameSize(b.players, taken);
    OneMore(taken, p, |b.free|);
  }

  lemma BooksStep(b: Players, p: nat)
    requires Books(b) && p < |b.free| < U64 - 1 && b.free[p]
    ensures Books(Issue(b, p))
    ensures b.nextId !in b.players
  {
    BooksBound(b, p);
    var r := Issue(b, p);
    assert b.nextId !in b.players;
    assert r.nextId == b.nextId + 1 && |r.players| == |b.players| + 1;
    forall id | id in r.players ensures 1 <= id < r.nextId && r.players[id] < |r.free| && !r.free[r.players[id]] {
      assert id != b.nextId ==> r.players[id] == b.players[id];
    }
  }

  lemma SubsetCount(a: map<Id, nat>, b: map<Id, nat>)
    requires a.Keys <= b.Keys
    ensures |a| <= |b|
  {
    SubsetSize(a.Keys, b.Keys);
  }

  /** Registering the issued id keeps the chain: it is new to the server, which has room for it. */
  lemma IssueRegisters(v: World, key: nat, p: nat)
    requires Chain(v) && p < |v.broker.free| < U64 - 1 && v.broker.free[p]
    requires |v.broker.free| <= v.system.capacity
    ensures Next(v.system, Register(v.broker.nextId, key)).Some?
    ensures Chain(World(Issue(v.broker, p), Next(v.system, Register(v.broker.nextId, key)).value))
  {
    IssuePolite(v, key, p);
    PoliteStep(v.system, Register(v.broker.nextId, key));
    IssueKnown(v, key, p);
    RegisterAdds(v.system, v.broker.nextId, key);
  }

  lemma IssuePolite(v: World, key: nat, p: nat)
    requires Chain(v) && p < |v.broker.free| < U64 - 1 && v.broker.free[p]
    requires |v.broker.free| <= v.system.capacity
    ensures Polite(v.system, Register(v.broker.nextId, key)) && Books(Issue(v.broker, p))
  {
    BooksBound(v.broker, p);
    BooksStep(v.broker, p);
    SubsetCount(v.system.sessions, v.broker.players);
  }

  lemma RegisterAdds(s: System, id: Id, key: nat)
    requires |s.sessions| < s.capacity
    ensures var r := Next(s, Register(id, key)).value;
            r.sessions.Keys == s.sessions.Keys + {id} && r.tasks == Announce(s.tasks, Connected(id, key))
  {
  }

  /** So does issuing an id that is never registered. */
  lemma IssueAlone(v: World, p: nat)
    requires Chain(v) && p < |v.broker.free| < U64 - 1 && v.broker.free[p]
    ensures Chain(World(Issue(v.broker, p), v.system))
  {
    BooksStep(v.broker, p);
    IssueKnown(v, 0, p);
  }

  lemma IssueKnown(v: World, key: nat, p: nat)
    requires Chain(v) && p < |v.broker.free|
    ensures forall i :: 0 <= i < |v.system.tasks| ==> Known(v.system.tasks[i], Issue(v.broker, p).players.Keys)
    ensures forall t :: t in Announce(v.system.tasks, Connected(v.broker.nextId, key)) ==>
              Known(t, Issue(v.broker, p).players.Keys)
  {
  }

  /** Accepting a connection never panics: the id is new to the server, which has room for it. */
  lemma AdmitChain(v: World, key: nat, established: bool)
    requires Chain(v) && |v.broker.free| < U64 - 1 && |v.broker.free| <= v.system.capacity
    ensures Admit(v, key, established).Some? && Chain(Admit(v, key, established).value)
  {
    if FirstFree(v.broker.free).Some? {
      IssueAlone(v, FirstFree(v.broker.free).value);
      IssueRegisters(v, key, FirstFree(v.broker.free).value);
    }
  }

  lemma {:induction false} HandleAllIds(t: Table, events: seq<Event>, ids: set<Id>)
    requires HandleAll(t, events).Some? && t.ids.Keys <= ids
    requires forall k :: 0 <= k < |events| && events[k].Connected? ==> events[k].id in ids
    ensures HandleAll(t, events).value.ids.Keys <= ids
  {
    if |events| > 0 { HandleAllIds(t, events[..|events| - 1], ids); }
  }

  lemma DrainKnown(t: Task, count: nat, ids: set<Id>)
    requires Known(t, ids) && count <= |t.queue| && DrainTask(t, count).Some?
    ensures Known(DrainTask(t, count).value, ids)
    ensures forall k :: 0 <= k < count && t.queue[k].Connected? ==> t.queue[k].id in ids
  {
    HandleAllIds(t.table, t.queue[..count], ids);
  }

  lemma InnerChain(v: World, step: Step)
    requires Chain(v) && !step.Register? && Polite(v.system, step)
    ensures Do(v, Inner(step)).Some? && Chain(Do(v, Inner(step)).value)
  {
    PoliteStep(v.system, step);
    if step.Drain? && step.task < |v.system.tasks| && step.count <= |v.system.tasks[step.task].queue| {
      DrainKnown(v.system.tasks[step.task], step.count, v.broker.players.Keys);
    }
  }

  function Perform(v: World, moves: seq<Move>): Option<World> {
    if |moves| == 0 then Some(v)
    else
      var before := Perform(v, moves[..|moves| - 1]);
      if before.Some? then Do(before.value, moves[|moves| - 1]) else None
  }

  /** Sessions are registered by accepted connections only, and only known ids are removed. */
  ghost predicate Orderly(v: World, moves: seq<Move>) {
    forall i :: 0 <= i < |moves| && moves[i].Inner? ==>
      !moves[i].step.Register?
      && (Perform(v, moves[..i]).Some? ==> Polite(Perform(v, moves[..i]).value.system, moves[i].step))
  }

  function Start(maxPlayers: nat, capacity: nat, tasks: nat): World {
    World(New(maxPlayers), Build(capacity, tasks))
  }

  lemma StartChain(maxPlayers: nat, capacity: nat, tasks: nat)
    ensures Chain(Start(maxPlayers, capacity, tasks))
  {
  }

  lemma OrderlyLast(v: World, moves: seq<Move>)
    requires |moves| > 0 && Orderly(v, moves)
    ensures Orderly(v, moves[..|moves| - 1])
    ensures var m, before := moves[|moves| - 1], Perform(v, moves[..|moves| - 1]);
            m.Inner? ==> !m.step.Register? && (before.Some? ==> Polite(before.value.system, m.step))
  {
    var before := moves[..|moves| - 1];
    forall i | 0 <= i < |before| && before[i].Inner?
      ensures !before[i].step.Register?
      ensures Perform(v, before[..i]).Some? ==> Polite(Perform(v, before[..i]).value.system, before[i].step)
    {
      assert before[..i] == moves[..i] && before[i] == moves[i];
    }
  }

  /** No move changes how many players or sessions there is room for. */
  lemma DoKeepsSizes(v: World, move: Move)
    requires Do(v, move).Some?
    ensures |Do(v, move).value.broker.free| == |v.broker.free|
    ensures Do(v, move).value.system.capacity == v.system.capacity
  {
  }

  /** However connections, drains, heartbeats and removals interleave, with room for every player
      nothing ever fails: not the capacity assertion, not a duplicate or unknown id in a task, not a
      factory's lookup; and distinct ids always have distinct player indices. */
  lemma {:induction false} NothingFails(maxPlayers: nat, capacity: nat, tasks: nat, moves: seq<Move>)
    requires maxPlayers <= capacity && maxPlayers < U64 - 1
    requires Orderly(Start(maxPlayers, capacity, tasks), moves)
    ensures var r := Perform(Start(maxPlayers, capacity, tasks), moves);
            && r.Some? && Chain(r.value)
            && |r.value.broker.free| == maxPlayers && r.value.system.capacity == capacity
  {
    var v := Start(maxPlayers, capacity, tasks);
    if |moves| == 0 {
      StartChain(maxPlayers, capacity, tasks);
    } else {
      OrderlyLast(v, moves);
      NothingFails(maxPlayers, capacity, tasks, moves[..|moves| - 1]);
      var before := Perform(v, moves[..|moves| - 1]).value;
      match moves[|moves| - 1] {
        case Accept(key, established) => AdmitChain(before, key, established);
        case Inner(step) => InnerChain(before, step);
      }
      DoKeepsSizes(before, moves[|moves| - 1]);
    }
  }

  // ----- on the real objects

  /** The accept path of the server program on the real objects: an index, then an id, then the
      registration.  `ok` is false if the server's assertion failed. */
  method HandleConnection(broker: SessionBroker, server: Server, key: nat, established: bool, ghost tasks: seq<Task>)
    returns (ok: bool)
    requires Queues(tasks) == server.queues
    modifies broker, broker.playerIndexFreeList, server
    ensures |server.queues| == |tasks|
    ensures var before := World(old(broker.State()), System(server.capacity, old(server.sessions), tasks));
            var now := System(server.capacity, server.sessions, WithQueues(tasks, server.queues));
            var after := World(broker.State(), now);
            && (ok <==> Admit(before, key, established).Some?)
            && (ok ==> Admit(before, key, established) == Some(after))
  {
    UnchangedQueues(tasks);
    var playerIndex := broker.NextPlayerIndex();
    if playerIndex.None? { return true; }
    var id := broker.AllocateSessionId(playerIndex.value);
    if !established { return true; }
    ok := server.Register(id, key);
  }

  lemma UnchangedQueues(tasks: seq<Task>)
    ensures WithQueues(tasks, Queues(tasks)) == tasks
  {
  }
}
