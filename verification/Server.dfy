/** The server and its tasks (crates/longboy/src/server.rs): connects and disconnects are appended
    to one queue per task, and each task drains its queue whenever it is polled. */
module Server {
  import opened Datagram
  import opened Sessions

  /** One task: what is queued for it, its tables, and for every address the session named by the
      latest heartbeat from it. */
  datatype Task = Task(queue: seq<Event>, table: Table, claims: map<Addr, Index>)

  datatype System = System(capacity: nat, sessions: map<Id, nat>, tasks: seq<Task>)

  datatype Step =
    | Register(id: Id, key: nat)
    | Unregister(gone: Id)
    | Drain(task: nat, count: nat)
    | Heard(task: nat, packet: Packet)

  /** Send `e` on every queue. */
  function Broadcast(queues: seq<seq<Event>>, e: Event): (r: seq<seq<Event>>)
    ensures |r| == |queues|
  {
    seq(|queues|, i requires 0 <= i < |queues| => queues[i] + [e])
  }

  function Queues(tasks: seq<Task>): (r: seq<seq<Event>>)
    ensures |r| == |tasks|
  {
    seq(|tasks|, i requires 0 <= i < |tasks| => tasks[i].queue)
  }

  function WithQueues(tasks: seq<Task>, queues: seq<seq<Event>>): (r: seq<Task>)
    requires |queues| == |tasks|
    ensures |r| == |tasks|
  {
    seq(|tasks|, i requires 0 <= i < |tasks| => tasks[i].(queue := queues[i]))
  }

  function Announce(tasks: seq<Task>, e: Event): seq<Task> {
    WithQueues(tasks, Broadcast(Queues(tasks), e))
  }

  /** A task takes the first `count` events off its queue. */
  function DrainTask(t: Task, count: nat): Option<Task>
    requires count <= |t.queue|
  {
    match HandleAll(t.table, t.queue[..count])
    case None => None
    case Some(u) => Some(t.(queue := t.queue[count..], table := u))
  }

  function HearTask(t: Task, p: Packet): Option<Task> {
    match Hear(t.table, p)
    case None => None
    case Some(u) =>
      Some(t.(table := u, claims := if Valid(t.table, p) then t.claims[p.from := t.table.ids[p.id]] else t.claims))
  }

  /** One step of the system; None is a panic.  A drain of events that are not there, or a step of
      a task that is not there, does nothing. */
  function Next(s: System, step: Step): Option<System> {
    match step
    case Register(id, key) =>
      if |s.sessions| < s.capacity then
        Some(s.(sessions := s.sessions[id := key], tasks := Announce(s.tasks, Connected(id, key))))
      else None
    case Unregister(id) =>
      if id in s.sessions then
        Some(s.(sessions := s.sessions - {id}, tasks := Announce(s.tasks, Disconnected(id))))
      else None
    case Drain(i, count) =>
      if |s.tasks| <= i || |s.tasks[i].queue| < count then Some(s)
      else (match DrainTask(s.tasks[i], count)
            case None => None
            case Some(t) => Some(s.(tasks := s.tasks[i := t])))
    case Heard(i, p) =>
      if |s.tasks| <= i then Some(s)
      else (match HearTask(s.tasks[i], p)
            case None => None
            case Some(t) => Some(s.(tasks := s.tasks[i := t])))
  }

  // ----- the replicated log

  /** The session ids a task will hold once it has handled `queue`; None if some event in it cannot
      be handled. */
  function Replay(ids: set<Id>, queue: seq<Event>): Option<set<Id>> {
    if |queue| == 0 then Some(ids)
    else
      var before := Replay(ids, queue[..|queue| - 1]);
      if before.None? then None
      else
        match queue[|queue| - 1]
        case Connected(id, _) => if id in before.value then None else Some(before.value + {id})
        case Disconnected(id) => if id in before.value then Some(before.value - {id}) else None
  }

  lemma {:induction false} ReplayConcat(ids: set<Id>, a: seq<Event>, b: seq<Event>)
    ensures Replay(ids, a + b) == if Replay(ids, a).Some? then Replay(Replay(ids, a).value, b) else None
  {
    if |b| == 0 {
      assert a + b == a;
    } else {
      assert (a + b)[..|a + b| - 1] == a + b[..|b| - 1];
      ReplayConcat(ids, a, b[..|b| - 1]);
    }
  }

  /** Handling events on the tables is replaying them on the ids: it panics exactly when the replay
      meets a duplicate or unknown id. */
  lemma {:induction false} HandleAllIsReplay(t: Table, events: seq<Event>)
    requires Sound(t)
    ensures HandleAll(t, events).Some? <==> Replay(t.ids.Keys, events).Some?
    ensures HandleAll(t, events).Some? ==>
              Sound(HandleAll(t, events).value)
              && Replay(t.ids.Keys, events) == Some(HandleAll(t, events).value.ids.Keys)
  {
    if |events| > 0 {
      var before, e := events[..|events| - 1], events[|events| - 1];
      HandleAllIsReplay(t, before);
      if HandleAll(t, before).Some? {
        var u := HandleAll(t, before).value;
        if Enabled(u, e) {
          HandleSound(u, e);
          assert Handle(u, e).ids.Keys == if e.Connected? then u.ids.Keys + {e.id} else u.ids.Keys - {e.id};
        }
      }
    }
  }

  /** The routes follow the latest heartbeats. */
  ghost predicate Named(t: Task) {
    forall a :: a in t.table.routes ==> a in t.claims && t.claims[a] == t.table.routes[a]
  }

  ghost predicate InStep(t: Task, sessions: set<Id>) {
    Sound(t.table) && Named(t) && Replay(t.table.ids.Keys, t.queue) == Some(sessions)
  }

  /** Every task, after what is queued for it, holds exactly the server's sessions. */
  ghost predicate Consistent(s: System) {
    forall i :: 0 <= i < |s.tasks| ==> InStep(s.tasks[i], s.sessions.Keys)
  }

  lemma {:induction false} HandleAllRoutes(t: Table, events: seq<Event>)
    requires HandleAll(t, events).Some?
    ensures HandleAll(t, events).value.routes.Keys <= t.routes.Keys
    ensures forall a :: a in HandleAll(t, events).value.routes ==> HandleAll(t, events).value.routes[a] == t.routes[a]
  {
    if |events| > 0 { HandleAllRoutes(t, events[..|events| - 1]); }
  }

  lemma DrainInStep(t: Task, sessions: set<Id>, count: nat)
    requires InStep(t, sessions) && count <= |t.queue|
    ensures DrainTask(t, count).Some? && InStep(DrainTask(t, count).value, sessions)
  {
    var a, b := t.queue[..count], t.queue[count..];
    assert a + b == t.queue;
    ReplayConcat(t.table.ids.Keys, a, b);
    HandleAllIsReplay(t.table, a);
    HandleAllRoutes(t.table, a);
  }

  lemma HeardInStep(t: Task, sessions: set<Id>, p: Packet)
    requires InStep(t, sessions)
    ensures HearTask(t, p).Some? && InStep(HearTask(t, p).value, sessions)
  {
    if Valid(t.table, p) { BeatSound(t.table, p.id, FromByte(p.mirroring), p.from); }
  }

  lemma AnnounceInStep(t: Task, sessions: set<Id>, e: Event)
    requires InStep(t, sessions)
    ensures var r := t.(queue := t.queue + [e]);
            match e
            case Connected(id, _) => InStep(r, sessions + {id}) <==> id !in sessions
            case Disconnected(id) => InStep(r, sessions - {id}) <==> id in sessions
  {
  }

  /** A registration keeps the tasks in step with the server if and only if the id is new. */
  lemma RegisterIff(s: System, id: Id, key: nat)
    requires Consistent(s) && 0 < |s.tasks| && |s.sessions| < s.capacity
    ensures Consistent(Next(s, Register(id, key)).value) <==> id !in s.sessions
  {
    var r := Next(s, Register(id, key)).value;
    assert r.sessions.Keys == s.sessions.Keys + {id};
    forall i | 0 <= i < |s.tasks|
      ensures InStep(r.tasks[i], r.sessions.Keys) <==> id !in s.sessions
    {
      AnnounceInStep(s.tasks[i], s.sessions.Keys, Connected(id, key));
    }
    assert InStep(r.tasks[0], r.sessions.Keys) <==> id !in s.sessions;
  }

  /** What the server's callers owe: room for a new session, a new id, and only known ids removed. */
  ghost predicate Polite(s: System, step: Step) {
    match step
    case Register(id, _) => |s.sessions| < s.capacity && id !in s.sessions
    case Unregister(id) => id in s.sessions
    case _ => true
  }

  /** A polite step never panics, in the server or in any task, and keeps every task in step. */
  lemma PoliteStep(s: System, step: Step)
    requires Consistent(s) && Polite(s, step)
    ensures Next(s, step).Some? && Consistent(Next(s, step).value)
  {
    match step {
      case Register(id, key) =>
        var r := Next(s, step).value;
        assert r.sessions.Keys == s.sessions.Keys + {id};
        forall i | 0 <= i < |s.tasks| ensures InStep(r.tasks[i], r.sessions.Keys) {
          AnnounceInStep(s.tasks[i], s.sessions.Keys, Connected(id, key));
        }
      case Unregister(id) =>
        var r := Next(s, step).value;
        assert r.sessions.Keys == s.sessions.Keys - {id};
        forall i | 0 <= i < |s.tasks| ensures InStep(r.tasks[i], r.sessions.Keys) {
          AnnounceInStep(s.tasks[i], s.sessions.Keys, Disconnected(id));
        }
      case Drain(i, count) =>
        if i < |s.tasks| && count <= |s.tasks[i].queue| { DrainInStep(s.tasks[i], s.sessions.Keys, count); }
      case Heard(i, p) =>
        if i < |s.tasks| { HeardInStep(s.tasks[i], s.sessions.Keys, p); }
    }
  }

  function Build(capacity: nat, tasks: nat): System {
    System(capacity, map[], seq(tasks, i => Task([], EMPTY, map[])))
  }

  /** Run the steps in order; None once something panicked. */
  function Execute(s: System, steps: seq<Step>): Option<System> {
    if |steps| == 0 then Some(s)
    else
      var before := Execute(s, steps[..|steps| - 1]);
      if before.Some? then Next(before.value, steps[|steps| - 1]) else None
  }

  ghost predicate PoliteRun(s: System, steps: seq<Step>) {
    forall i :: 0 <= i < |steps| ==>
      Execute(s, steps[..i]).Some? ==> Polite(Execute(s, steps[..i]).value, steps[i])
  }

  lemma BuildConsistent(capacity: nat, tasks: nat)
    ensures Consistent(Build(capacity, tasks))
  {
  }

  lemma PoliteLast(s: System, steps: seq<Step>)
    requires |steps| > 0 && PoliteRun(s, steps)
    ensures PoliteRun(s, steps[..|steps| - 1])
    ensures var before := Execute(s, steps[..|steps| - 1]);
            before.Some? ==> Polite(before.value, steps[|steps| - 1])
  {
    var before := steps[..|steps| - 1];
    forall i | 0 <= i < |before|
      ensures Execute(s, before[..i]).Some? ==> Polite(Execute(s, before[..i]).value, before[i])
    {
      assert before[..i] == steps[..i];
    }
  }

  /** Over every interleaving of registrations, removals, drains and heartbeats nothing panics and,
      at every point, every task is in step and its tables are sound. */
  lemma {:induction false} NoPanic(capacity: nat, tasks: nat, steps: seq<Step>)
    requires PoliteRun(Build(capacity, tasks), steps)
    ensures var r := Execute(Build(capacity, tasks), steps);
            r.Some? && Consistent(r.value)
  {
    var s := Build(capacity, tasks);
    if |steps| > 0 {
      PoliteLast(s, steps);
      NoPanic(capacity, tasks, steps[..|steps| - 1]);
      PoliteStep(Execute(s, steps[..|steps| - 1]).value, steps[|steps| - 1]);
    } else {
      BuildConsistent(capacity, tasks);
    }
  }

  class Server {
    const capacity: nat
    var sessions: map<Id, nat>
    var queues: seq<seq<Event>>

    constructor (capacity: nat, tasks: nat)
      ensures this.capacity == capacity && sessions == map[] && queues == seq(tasks, i => [])
    {
      this.capacity := capacity;
      sessions := map[];
      queues := seq(tasks, i => []);
    }

    method Send(e: Event)
      modifies this`queues
      ensures queues == Broadcast(old(queues), e)
    {
      ghost var was := queues;
      for i := 0 to |queues|
        invariant |queues| == |was|
        invariant forall k :: 0 <= k < |was| ==> queues[k] == if k < i then was[k] + [e] else was[k]
      {
        queues := queues[i := queues[i] + [e]];
      }
    }

    /** `ok` is false if the capacity assertion failed. */
    method Register(id: Id, key: nat) returns (ok: bool)
      modifies this
      ensures ok <==> |old(sessions)| < capacity
      ensures ok ==> sessions == old(sessions)[id := key] && queues == Broadcast(old(queues), Connected(id, key))
      ensures !ok ==> sessions == old(sessions) && queues == old(queues)
    {
      if |sessions| >= capacity { return false; }
      sessions := sessions[id := key];
      Send(Connected(id, key));
      return true;
    }

    /** `ok` is false if the id was not registered. */
    method Unregister(id: Id) returns (ok: bool)
      modifies this
      ensures ok <==> id in old(sessions)
      ensures ok ==> sessions == old(sessions) - {id} && queues == Broadcast(old(queues), Disconnected(id))
      ensures !ok ==> sessions == old(sessions) && queues == old(queues)
    {
      if id !in sessions { return false; }
      Send(Disconnected(id));
      sessions := sessions - {id};
      return true;
    }
  }
}
