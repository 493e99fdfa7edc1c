/** What every task holds after any run, read off the run itself: which sessions, with which keys, and
    for each mirroring the address of the latest heartbeat. */
module History {
  import opened Cipher
  import opened Datagram
  import opened Sessions
  import opened Server

  // ----- the run as each task sees it

  /** The events the server has sent on every queue. */
  function Sent(steps: seq<Step>): seq<Event> {
    if |steps| == 0 then []
    else
      var before := Sent(steps[..|steps| - 1]);
      match steps[|steps| - 1]
      case Register(id, key) => before + [Connected(id, key)]
      case Unregister(id) => before + [Disconnected(id)]
      case _ => before
  }

  /** How many of them task `i` has drained. */
  function Taken(steps: seq<Step>, i: nat): (k: nat)
    ensures k <= |Sent(steps)|
  {
    if |steps| == 0 then 0
    else
      var before := Taken(steps[..|steps| - 1], i);
      match steps[|steps| - 1]
      case Drain(task, count) =>
        if task == i && before + count <= |Sent(steps)| then before + count else before
      case _ => before
  }

  /** What a task does: handle an event, or read a packet. */
  datatype Op = Did(e: Event) | Read(p: Packet)

  function Events(events: seq<Event>): (r: seq<Op>)
    ensures |r| == |events| && forall k :: 0 <= k < |r| ==> r[k] == Did(events[k])
  {
    seq(|events|, k requires 0 <= k < |events| => Did(events[k]))
  }

  /** What task `i` has done, in order. */
  function Trace(steps: seq<Step>, i: nat): seq<Op> {
    if |steps| == 0 then []
    else
      var before := steps[..|steps| - 1];
      match steps[|steps| - 1]
      case Drain(task, _) =>
        if task == i then Trace(before, i) + Events(Sent(before)[Taken(before, i)..Taken(steps, i)])
        else Trace(before, i)
      case Heard(task, p) => if task == i then Trace(before, i) + [Read(p)] else Trace(before, i)
      case _ => Trace(before, i)
  }

  // ----- looking back over a trace

  /** The key of the session's connect, unless it was disconnected since or never connected. */
  function KeyOf(ops: seq<Op>, id: Id): Option<nat> {
    if |ops| == 0 then None
    else
      match ops[|ops| - 1]
      case Did(Connected(x, key)) => if x == id then Some(key) else KeyOf(ops[..|ops| - 1], id)
      case Did(Disconnected(x)) => if x == id then None else KeyOf(ops[..|ops| - 1], id)
      case Read(_) => KeyOf(ops[..|ops| - 1], id)
  }

  /** The byte a client sends for a mirroring. */
  function Byte(m: Mirroring): nat {
    match m
    case AudioVideo => 0
    case Background => 1
    case Voice => 2
  }

  /** The address of the latest heartbeat with the id and the byte since the session's connect. */
  function Latest(ops: seq<Op>, id: Id, m: Mirroring): Option<Addr> {
    if |ops| == 0 then None
    else
      match ops[|ops| - 1]
      case Did(e) => if e.id == id then None else Latest(ops[..|ops| - 1], id, m)
      case Read(p) =>
        if 9 <= p.len && p.id == id && p.mirroring == Byte(m) then Some(p.from)
        else Latest(ops[..|ops| - 1], id, m)
  }

  /** The table has the sessions connected in the trace, each with its key. */
  ghost predicate Keyed(t: Table, ops: seq<Op>) {
    && (forall id :: id in t.ids <==> KeyOf(ops, id).Some?)
    && (forall id :: id in t.ids ==> t.ids[id] in t.arena && t.arena[t.ids[id]].key == KeyOf(ops, id).value)
  }

  /** The session lists the address for the mirroring exactly if it is that of the latest heartbeat. */
  ghost predicate Listing(t: Table, ops: seq<Op>, id: Id, m: Mirroring, a: Addr)
    requires id in t.ids
  {
    Lists(t, t.ids[id], m, a) <==> Latest(ops, id, m) == Some(a)
  }

  ghost predicate Reflects(t: Table, ops: seq<Op>) {
    Sound(t) && Keyed(t, ops) && forall id, m, a :: id in t.ids ==> Listing(t, ops, id, m, a)
  }

  lemma AfterEvent(ops: seq<Op>, e: Event)
    ensures forall id :: KeyOf(ops + [Did(e)], id) ==
              if id != e.id then KeyOf(ops, id) else if e.Connected? then Some(e.key) else None
    ensures forall id, m :: Latest(ops + [Did(e)], id, m) == if id == e.id then None else Latest(ops, id, m)
  {
    assert (ops + [Did(e)])[..|ops|] == ops;
  }

  lemma AfterPacket(ops: seq<Op>, p: Packet)
    ensures forall id :: KeyOf(ops + [Read(p)], id) == KeyOf(ops, id)
    ensures forall id, m :: Latest(ops + [Read(p)], id, m) ==
              if 9 <= p.len && id == p.id && p.mirroring == Byte(m) then Some(p.from) else Latest(ops, id, m)
  {
    assert (ops + [Read(p)])[..|ops|] == ops;
  }

  lemma KeyedEvent(t: Table, r: Table, ops: seq<Op>, e: Event)
    requires Sound(t) && Keyed(t, ops) && Enabled(t, e) && Touched(t, r, e)
    ensures Keyed(r, ops + [Did(e)])
  {
    AfterEvent(ops, e);
  }

  lemma ListingEvent(t: Table, r: Table, ops: seq<Op>, e: Event, id: Id, m: Mirroring, a: Addr)
    requires Sound(t) && Enabled(t, e) && Touched(t, r, e) && id in r.ids
    requires id in t.ids ==> Listing(t, ops, id, m, a)
    ensures Listing(r, ops + [Did(e)], id, m, a)
  {
    AfterEvent(ops, e);
  }

  lemma ReflectsEvent(t: Table, ops: seq<Op>, e: Event)
    requires Reflects(t, ops) && Enabled(t, e)
    ensures Reflects(Handle(t, e), ops + [Did(e)])
  {
    HandleSound(t, e);
    HandleTouches(t, e);
    var r := Handle(t, e);
    KeyedEvent(t, r, ops, e);
    forall id, m, a | id in r.ids ensures Listing(r, ops + [Did(e)], id, m, a) {
      ListingEvent(t, r, ops, e, id, m, a);
    }
  }

  lemma KeyedTakenIn(t: Table, r: Table, ops: seq<Op>, p: Packet, m: Mirroring)
    requires Keyed(t, ops) && p.id in t.ids && TakenIn(t, r, p.id, m, p.from)
    ensures Keyed(r, ops + [Read(p)])
  {
    AfterPacket(ops, p);
  }

  lemma ListingTakenIn(t: Table, r: Table, ops: seq<Op>, p: Packet, m: Mirroring, id: Id, k: Mirroring, a: Addr)
    requires Sound(t) && 9 <= p.len && p.mirroring == Byte(m)
    requires p.id in t.ids && TakenIn(t, r, p.id, m, p.from) && id in t.ids && Listing(t, ops, id, k, a)
    ensures Listing(r, ops + [Read(p)], id, k, a)
  {
    AfterPacket(ops, p);
  }

  lemma ReflectsTakenIn(t: Table, r: Table, ops: seq<Op>, p: Packet, m: Mirroring)
    requires Reflects(t, ops) && Sound(r) && 9 <= p.len && p.mirroring == Byte(m)
    requires p.id in t.ids && TakenIn(t, r, p.id, m, p.from)
    ensures Reflects(r, ops + [Read(p)])
  {
    KeyedTakenIn(t, r, ops, p, m);
    forall id, k, a | id in r.ids ensures Listing(r, ops + [Read(p)], id, k, a) {
      ListingTakenIn(t, r, ops, p, m, id, k, a);
    }
  }

  lemma ReflectsIgnored(t: Table, ops: seq<Op>, p: Packet)
    requires Reflects(t, ops) && (p.len < 9 || p.mirroring > 2 || p.id !in t.ids)
    ensures Reflects(t, ops + [Read(p)])
  {
    AfterPacket(ops, p);
    forall id, m, a | id in t.ids ensures Listing(t, ops + [Read(p)], id, m, a) {
      assert Listing(t, ops, id, m, a);
    }
  }

  lemma TakenInAs(t: Table, p: Packet) returns (m: Mirroring)
    requires Sound(t) && 9 <= p.len && p.mirroring <= 2 && p.id in t.ids
    ensures p.mirroring == Byte(m) && Hear(t, p).Some?
    ensures TakenIn(t, Hear(t, p).value, p.id, m, p.from) && Sound(Hear(t, p).value)
  {
    HearChanges(t, p);
    m := if p.mirroring == 0 then AudioVideo else if p.mirroring == 1 then Background else Voice;
    HearAllSound(t, [p]);
    assert [p][..0] == [];
    assert HearAll(t, [p]) == Hear(t, p);
  }

  lemma ReflectsPacket(t: Table, ops: seq<Op>, p: Packet)
    requires Reflects(t, ops)
    ensures Hear(t, p).Some? && Reflects(Hear(t, p).value, ops + [Read(p)])
  {
    if p.len < 9 || p.mirroring > 2 || p.id !in t.ids {
      HearChanges(t, p);
      ReflectsIgnored(t, ops, p);
    } else {
      var m := TakenInAs(t, p);
      ReflectsTakenIn(t, Hear(t, p).value, ops, p, m);
    }
  }

  lemma {:induction false} ReflectsEvents(t: Table, ops: seq<Op>, events: seq<Event>)
    requires Reflects(t, ops) && HandleAll(t, events).Some?
    ensures Reflects(HandleAll(t, events).value, ops + Events(events))
  {
    if |events| == 0 {
      assert ops + Events(events) == ops;
    } else {
      var before, e := events[..|events| - 1], events[|events| - 1];
      ReflectsEvents(t, ops, before);
      ReflectsEvent(HandleAll(t, before).value, ops + Events(before), e);
      assert ops + Events(before) + [Did(e)] == ops + Events(events);
    }
  }

  // ----- whole runs

  /** The session ids and keys after a sequence of events. */
  ghost predicate Registered(sessions: map<Id, nat>, sent: seq<Event>) {
    forall id :: (id in sessions <==> KeyOf(Events(sent), id).Some?)
      && (id in sessions ==> sessions[id] == KeyOf(Events(sent), id).value)
  }

  ghost predicate TaskIs(t: Task, steps: seq<Step>, i: nat) {
    t.queue == Sent(steps)[Taken(steps, i)..] && Reflects(t.table, Trace(steps, i))
  }

  ghost predicate SystemIs(s: System, capacity: nat, tasks: nat, steps: seq<Step>) {
    && s.capacity == capacity && |s.tasks| == tasks
    && Registered(s.sessions, Sent(steps))
    && forall i :: 0 <= i < tasks ==> TaskIs(s.tasks[i], steps, i)
  }

  lemma RegisteredGrows(sessions: map<Id, nat>, sent: seq<Event>, e: Event)
    requires Registered(sessions, sent)
    ensures e.Connected? ==> Registered(sessions[e.id := e.key], sent + [e])
    ensures e.Disconnected? ==> Registered(sessions - {e.id}, sent + [e])
  {
    var all := Events(sent + [e]);
    assert all[..|all| - 1] == Events(sent);
  }

  lemma Sends(s: System, capacity: nat, tasks: nat, steps: seq<Step>)
    requires |steps| > 0 && SystemIs(s, capacity, tasks, steps[..|steps| - 1])
    requires steps[|steps| - 1].Register? || steps[|steps| - 1].Unregister?
    requires Next(s, steps[|steps| - 1]).Some?
    ensures SystemIs(Next(s, steps[|steps| - 1]).value, capacity, tasks, steps)
  {
    var before, step := steps[..|steps| - 1], steps[|steps| - 1];
    var e := if step.Register? then Connected(step.id, step.key) else Disconnected(step.gone);
    var r := Next(s, step).value;
    RegisteredGrows(s.sessions, Sent(before), e);
    forall i | 0 <= i < tasks ensures TaskIs(r.tasks[i], steps, i) {
      assert TaskIs(s.tasks[i], before, i);
      assert r.tasks[i].queue == s.tasks[i].queue + [e];
    }
  }

  /** A drain takes the next events off the queue. */
  lemma {:induction false} DrainTrace(queue: seq<Event>, steps: seq<Step>, i: nat, count: nat)
    requires |steps| > 0 && steps[|steps| - 1] == Drain(i, count) && count <= |queue|
    requires queue == Sent(steps[..|steps| - 1])[Taken(steps[..|steps| - 1], i)..]
    ensures queue[count..] == Sent(steps)[Taken(steps, i)..]
    ensures Trace(steps, i) == Trace(steps[..|steps| - 1], i) + Events(queue[..count])
  {
    var before := steps[..|steps| - 1];
    var k := Taken(before, i);
    assert queue[..count] == Sent(before)[k..k + count];
  }

  lemma Drains(t: Task, steps: seq<Step>, i: nat, count: nat)
    requires |steps| > 0 && TaskIs(t, steps[..|steps| - 1], i)
    requires steps[|steps| - 1] == Drain(i, count) && count <= |t.queue| && DrainTask(t, count).Some?
    ensures TaskIs(DrainTask(t, count).value, steps, i)
  {
    DrainTrace(t.queue, steps, i, count);
    ReflectsEvents(t.table, Trace(steps[..|steps| - 1], i), t.queue[..count]);
  }

  lemma Hears(t: Task, steps: seq<Step>, i: nat)
    requires |steps| > 0 && TaskIs(t, steps[..|steps| - 1], i)
    requires steps[|steps| - 1].Heard? && steps[|steps| - 1].task == i
    ensures HearTask(t, steps[|steps| - 1].packet).Some?
    ensures TaskIs(HearTask(t, steps[|steps| - 1].packet).value, steps, i)
  {
    ReflectsPacket(t.table, Trace(steps[..|steps| - 1], i), steps[|steps| - 1].packet);
  }

  /** A drain or a packet of another task, or a drain of more than there is, leaves a task alone. */
  lemma Idles(t: Task, steps: seq<Step>, i: nat)
    requires |steps| > 0 && TaskIs(t, steps[..|steps| - 1], i)
    requires match steps[|steps| - 1]
             case Drain(task, count) => task != i || |t.queue| < count
             case Heard(task, _) => task != i
             case _ => false
    ensures TaskIs(t, steps, i)
  {
    var before := steps[..|steps| - 1];
    var k := Taken(before, i);
    assert Taken(steps, i) == k && Events(Sent(before)[k..k]) == [];
    assert Trace(steps, i) == Trace(before, i);
  }

  lemma SystemStep(s: System, capacity: nat, tasks: nat, steps: seq<Step>)
    requires |steps| > 0 && SystemIs(s, capacity, tasks, steps[..|steps| - 1])
    requires Next(s, steps[|steps| - 1]).Some?
    ensures SystemIs(Next(s, steps[|steps| - 1]).value, capacity, tasks, steps)
  {
    var before, step := steps[..|steps| - 1], steps[|steps| - 1];
    if step.Register? || step.Unregister? {
      Sends(s, capacity, tasks, steps);
    } else {
      var r := Next(s, step).value;
      forall i | 0 <= i < tasks ensures TaskIs(r.tasks[i], steps, i) {
        assert TaskIs(s.tasks[i], before, i);
        if step.Drain? && step.task == i && step.count <= |s.tasks[i].queue| {
          Drains(s.tasks[i], steps, i, step.count);
        } else if step.Heard? && step.task == i {
          Hears(s.tasks[i], steps, i);
        } else {
          Idles(s.tasks[i], steps, i);
        }
      }
    }
  }

  /** At every point of every polite interleaving: the server's sessions are those registered and not
      removed since, with their keys; what a task has queued is what it has not drained; and its tables
      hold the sessions it has seen connect, each with its key and, for each mirroring, exactly the
      address of the latest heartbeat with that id and byte since the connect. */
  lemma {:induction false} RunIsHistory(capacity: nat, tasks: nat, steps: seq<Step>)
    requires PoliteRun(Build(capacity, tasks), steps)
    ensures var r := Execute(Build(capacity, tasks), steps);
            r.Some? && SystemIs(r.value, capacity, tasks, steps)
  {
    if |steps| > 0 {
      var before := steps[..|steps| - 1];
      PoliteLast(Build(capacity, tasks), steps);
      RunIsHistory(capacity, tasks, before);
      NoPanic(capacity, tasks, steps);
      SystemStep(Execute(Build(capacity, tasks), before).value, capacity, tasks, steps);
    }
  }

  // ----- a task that has drained everything

  lemma {:induction false} KeyOfTrace(steps: seq<Step>, i: nat, id: Id)
    ensures KeyOf(Trace(steps, i), id) == KeyOf(Events(Sent(steps)[..Taken(steps, i)]), id)
  {
    if |steps| > 0 {
      var before, step := steps[..|steps| - 1], steps[|steps| - 1];
      KeyOfTrace(before, i, id);
      if step.Drain? && step.task == i {
        KeyOfDrained(Trace(before, i), Sent(before), Taken(before, i), Taken(steps, i), id);
      } else {
        assert Sent(steps)[..Taken(before, i)] == Sent(before)[..Taken(before, i)];
        if step.Heard? && step.task == i { AfterPacket(Trace(before, i), step.packet); }
      }
    }
  }

  lemma {:induction false} KeyOfDrained(ops: seq<Op>, sent: seq<Event>, a: nat, b: nat, id: Id)
    requires a <= b <= |sent| && KeyOf(ops, id) == KeyOf(Events(sent[..a]), id)
    ensures KeyOf(ops + Events(sent[a..b]), id) == KeyOf(Events(sent[..b]), id)
  {
    KeyOfMore(ops, Events(sent[..a]), Events(sent[a..b]), id);
    assert Events(sent[..a]) + Events(sent[a..b]) == Events(sent[..b]);
  }

  lemma {:induction false} KeyOfMore(a: seq<Op>, b: seq<Op>, more: seq<Op>, id: Id)
    requires KeyOf(a, id) == KeyOf(b, id)
    ensures KeyOf(a + more, id) == KeyOf(b + more, id)
  {
    if |more| == 0 {
      assert a + more == a && b + more == b;
    } else {
      var rest := more[..|more| - 1];
      KeyOfMore(a, b, rest, id);
      assert (a + more)[..|a + more| - 1] == a + rest && (b + more)[..|b + more| - 1] == b + rest;
    }
  }

  /** With nothing queued a task holds exactly the server's sessions, each with its own key. */
  lemma DrainedTask(capacity: nat, tasks: nat, steps: seq<Step>, i: nat)
    requires PoliteRun(Build(capacity, tasks), steps) && i < tasks
    ensures var r := Execute(Build(capacity, tasks), steps);
            && r.Some? && |r.value.tasks| == tasks
            && (r.value.tasks[i].queue == [] ==>
                  var t := r.value.tasks[i].table;
                  && t.ids.Keys == r.value.sessions.Keys
                  && forall id :: id in t.ids ==>
                       t.ids[id] in t.arena && t.arena[t.ids[id]].key == r.value.sessions[id])
  {
    RunIsHistory(capacity, tasks, steps);
    var r := Execute(Build(capacity, tasks), steps).value;
    assert TaskIs(r.tasks[i], steps, i);
    if r.tasks[i].queue == [] {
      assert Sent(steps)[..Taken(steps, i)] == Sent(steps);
      forall id: Id ensures KeyOf(Trace(steps, i), id) == KeyOf(Events(Sent(steps)), id) {
        KeyOfTrace(steps, i, id);
      }
    }
  }
}
