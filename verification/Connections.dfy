/** Which connections are sessions after any run of the server program, and what the factories find
    for them. */
module Connections {
  import opened Datagram
  import opened Sessions
  import opened Server
  import opened History
  import opened Broker

  // ----- the whole run, read off the moves

  /** How many ids have been handed out. */
  function Issued(maxPlayers: nat, moves: seq<Move>): (k: nat)
    ensures k <= maxPlayers
  {
    if |moves| == 0 then 0
    else
      var before := Issued(maxPlayers, moves[..|moves| - 1]);
      if moves[|moves| - 1].Accept? && before < maxPlayers then before + 1 else before
  }

  /** The server's steps: an established connection registers the next id. */
  function Steps(maxPlayers: nat, moves: seq<Move>): seq<Step> {
    if |moves| == 0 then []
    else
      var before := moves[..|moves| - 1];
      var k := Issued(maxPlayers, before);
      match moves[|moves| - 1]
      case Accept(key, established) =>
        if established && k < maxPlayers then Steps(maxPlayers, before) + [Register(k + 1, key)]
        else Steps(maxPlayers, before)
      case Inner(step) => Steps(maxPlayers, before) + [step]
  }

  /** The key of the session, if connection number `id` was established and not removed since. */
  function KeyAfter(maxPlayers: nat, moves: seq<Move>, id: Id): Option<nat> {
    if |moves| == 0 then None
    else
      var before := moves[..|moves| - 1];
      var k := Issued(maxPlayers, before);
      match moves[|moves| - 1]
      case Accept(key, established) =>
        if established && k < maxPlayers && id == k + 1 then Some(key) else KeyAfter(maxPlayers, before, id)
      case Inner(Unregister(gone)) => if gone == id then None else KeyAfter(maxPlayers, before, id)
      case Inner(_) => KeyAfter(maxPlayers, before, id)
  }

  /** The ids 1 .. k have the indices 0 .. k-1, and the other indices are free. */
  ghost predicate Seated(b: Players, k: nat) {
    && b.nextId == k + 1 && k <= |b.free|
    && (forall i :: 0 <= i < |b.free| ==> (b.free[i] <==> k <= i))
    && (forall id: nat :: id in b.players <==> 1 <= id <= k)
    && (forall id: nat :: 1 <= id <= k ==> b.players[id] == id - 1)
  }

  lemma SeatOne(b: Players, k: nat)
    requires Seated(b, k) && k < |b.free| < U64 - 1
    ensures FirstFree(b.free) == Some(k) && Seated(Issue(b, k), k + 1)
  {
    assert b.free[k];
  }

  /** The sessions are the established connections not removed since, each with its key. */
  ghost predicate Established(sessions: map<Id, nat>, maxPlayers: nat, moves: seq<Move>) {
    forall id: nat :: (id in sessions <==> KeyAfter(maxPlayers, moves, id).Some?)
      && (id in sessions ==> sessions[id] == KeyAfter(maxPlayers, moves, id).value)
  }

  /** The broker, the server's sessions and the server's run are those read off the moves. */
  ghost predicate WorldIs(v: World, maxPlayers: nat, capacity: nat, tasks: nat, moves: seq<Move>) {
    && |v.broker.free| == maxPlayers && Seated(v.broker, Issued(maxPlayers, moves))
    && Established(v.system.sessions, maxPlayers, moves)
    && Execute(Build(capacity, tasks), Steps(maxPlayers, moves)) == Some(v.system)
  }

  lemma ExecuteMore(s: System, steps: seq<Step>, step: Step)
    ensures Execute(s, steps + [step]) ==
            if Execute(s, steps).Some? then Next(Execute(s, steps).value, step) else None
  {
    assert (steps + [step])[..|steps|] == steps;
  }

  /** The sessions after one move that does not fail. */
  lemma NextSessions(s: System, step: Step)
    requires Next(s, step).Some?
    ensures Next(s, step).value.sessions ==
            if step.Register? then s.sessions[step.id := step.key]
            else if step.Unregister? then s.sessions - {step.gone} else s.sessions
  {
  }

  lemma EstablishedAccept(sessions: map<Id, nat>, maxPlayers: nat, moves: seq<Move>, k: nat, key: nat)
    requires |moves| > 0 && moves[|moves| - 1] == Move.Accept(key, true)
    requires k == Issued(maxPlayers, moves[..|moves| - 1]) < maxPlayers
    requires Established(sessions, maxPlayers, moves[..|moves| - 1])
    ensures Established(sessions[k + 1 := key], maxPlayers, moves)
  {
  }

  lemma NotEstablished(sessions: map<Id, nat>, maxPlayers: nat, moves: seq<Move>)
    requires |moves| > 0 && moves[|moves| - 1].Accept?
    requires !moves[|moves| - 1].established || maxPlayers <= Issued(maxPlayers, moves[..|moves| - 1])
    requires Established(sessions, maxPlayers, moves[..|moves| - 1])
    ensures Established(sessions, maxPlayers, moves)
  {
  }

  lemma AcceptStep(v: World, maxPlayers: nat, capacity: nat, tasks: nat, moves: seq<Move>)
    requires |moves| > 0 && maxPlayers < U64 - 1 && moves[|moves| - 1].Accept?
    requires WorldIs(v, maxPlayers, capacity, tasks, moves[..|moves| - 1])
    requires Do(v, moves[|moves| - 1]).Some?
    ensures WorldIs(Do(v, moves[|moves| - 1]).value, maxPlayers, capacity, tasks, moves)
  {
    var before, move := moves[..|moves| - 1], moves[|moves| - 1];
    var k, steps := Issued(maxPlayers, before), Steps(maxPlayers, before);
    if k == maxPlayers {
      AdmitFull(v, move.key, move.established);
      NotEstablished(v.system.sessions, maxPlayers, moves);
    } else {
      SeatOne(v.broker, k);
      if move.established {
        ExecuteMore(Build(capacity, tasks), steps, Register(k + 1, move.key));
        NextSessions(v.system, Register(k + 1, move.key));
        EstablishedAccept(v.system.sessions, maxPlayers, moves, k, move.key);
      } else {
        NotEstablished(v.system.sessions, maxPlayers, moves);
      }
    }
  }

  lemma InnerStep(v: World, maxPlayers: nat, capacity: nat, tasks: nat, moves: seq<Move>, step: Step)
    requires |moves| > 0 && moves[|moves| - 1] == Inner(step) && !step.Register?
    requires WorldIs(v, maxPlayers, capacity, tasks, moves[..|moves| - 1])
    requires Next(v.system, step).Some?
    ensures WorldIs(v.(system := Next(v.system, step).value), maxPlayers, capacity, tasks, moves)
  {
    ExecuteMore(Build(capacity, tasks), Steps(maxPlayers, moves[..|moves| - 1]), step);
    NextSessions(v.system, step);
  }

  lemma WorldStep(v: World, maxPlayers: nat, capacity: nat, tasks: nat, moves: seq<Move>)
    requires |moves| > 0 && maxPlayers < U64 - 1
    requires WorldIs(v, maxPlayers, capacity, tasks, moves[..|moves| - 1])
    requires Do(v, moves[|moves| - 1]).Some?
    requires moves[|moves| - 1].Inner? ==> !moves[|moves| - 1].step.Register?
    ensures WorldIs(Do(v, moves[|moves| - 1]).value, maxPlayers, capacity, tasks, moves)
  {
    match moves[|moves| - 1] {
      case Accept(_, _) => AcceptStep(v, maxPlayers, capacity, tasks, moves);
      case Inner(step) => InnerStep(v, maxPlayers, capacity, tasks, moves, step);
    }
  }

  /** After every orderly run: the ids handed out are 1, 2, ... in order of acceptance, id k with player
      index k - 1; the server's sessions are exactly the established connections not removed since, each
      with its own key; and the server and its tasks have made the run of the registrations. */
  lemma {:induction false} RunIsMoves(maxPlayers: nat, capacity: nat, tasks: nat, moves: seq<Move>)
    requires maxPlayers <= capacity && maxPlayers < U64 - 1
    requires Orderly(Start(maxPlayers, capacity, tasks), moves)
    ensures var r := Perform(Start(maxPlayers, capacity, tasks), moves);
            r.Some? && WorldIs(r.value, maxPlayers, capacity, tasks, moves)
  {
    var v := Start(maxPlayers, capacity, tasks);
    if |moves| > 0 {
      OrderlyLast(v, moves);
      NothingFails(maxPlayers, capacity, tasks, moves);
      RunIsMoves(maxPlayers, capacity, tasks, moves[..|moves| - 1]);
      WorldStep(Perform(v, moves[..|moves| - 1]).value, maxPlayers, capacity, tasks, moves);
    }
  }

  // ----- the tasks of the program

  lemma PoliteMore(s: System, steps: seq<Step>, step: Step)
    requires PoliteRun(s, steps) && (Execute(s, steps).Some? ==> Polite(Execute(s, steps).value, step))
    ensures PoliteRun(s, steps + [step])
  {
    var all := steps + [step];
    forall i | 0 <= i < |all| && Execute(s, all[..i]).Some? ensures Polite(Execute(s, all[..i]).value, all[i]) {
      assert all[..i] == steps[..i];
      if i == |steps| { assert steps[..i] == steps; }
    }
  }

  /** The program is a polite caller of the server, so everything proved of polite runs holds of it. */
  lemma {:induction false} ProgramIsPolite(maxPlayers: nat, capacity: nat, tasks: nat, moves: seq<Move>)
    requires maxPlayers <= capacity && maxPlayers < U64 - 1
    requires Orderly(Start(maxPlayers, capacity, tasks), moves)
    ensures PoliteRun(Build(capacity, tasks), Steps(maxPlayers, moves))
  {
    if |moves| > 0 {
      var before := moves[..|moves| - 1];
      OrderlyLast(Start(maxPlayers, capacity, tasks), moves);
      ProgramIsPolite(maxPlayers, capacity, tasks, before);
      RunIsMoves(maxPlayers, capacity, tasks, before);
      NothingFails(maxPlayers, capacity, tasks, before);
      LastIsPolite(Perform(Start(maxPlayers, capacity, tasks), before).value, maxPlayers, capacity, tasks, moves);
    }
  }

  lemma LastIsPolite(v: World, maxPlayers: nat, capacity: nat, tasks: nat, moves: seq<Move>)
    requires |moves| > 0 && maxPlayers <= v.system.capacity && maxPlayers < U64 - 1 && Chain(v)
    requires WorldIs(v, maxPlayers, capacity, tasks, moves[..|moves| - 1])
    requires PoliteRun(Build(capacity, tasks), Steps(maxPlayers, moves[..|moves| - 1]))
    requires moves[|moves| - 1].Inner? ==> Polite(v.system, moves[|moves| - 1].step)
    ensures PoliteRun(Build(capacity, tasks), Steps(maxPlayers, moves))
  {
    var before, s := moves[..|moves| - 1], Build(capacity, tasks);
    var k := Issued(maxPlayers, before);
    match moves[|moves| - 1] {
      case Accept(key, _) =>
        if k < maxPlayers {
          SeatOne(v.broker, k);
          IssuePolite(v, key, k);
          PoliteMore(s, Steps(maxPlayers, before), Register(k + 1, key));
        }
      case Inner(step) => PoliteMore(s, Steps(maxPlayers, before), step);
    }
  }

  ghost predicate HoldsEstablished(t: Table, maxPlayers: nat, moves: seq<Move>) {
    && (forall id: nat :: id in t.ids <==> KeyAfter(maxPlayers, moves, id).Some?)
    && (forall id: nat :: id in t.ids ==>
          t.ids[id] in t.arena && t.arena[t.ids[id]].key == KeyAfter(maxPlayers, moves, id).value)
  }

  /** A task that has drained its queue holds exactly the established connections not removed since,
      each with its own key. */
  lemma DrainedProgram(maxPlayers: nat, capacity: nat, tasks: nat, moves: seq<Move>, i: nat)
    requires maxPlayers <= capacity && maxPlayers < U64 - 1 && i < tasks
    requires Orderly(Start(maxPlayers, capacity, tasks), moves)
    ensures var r := Perform(Start(maxPlayers, capacity, tasks), moves);
            && r.Some? && |r.value.system.tasks| == tasks
            && (r.value.system.tasks[i].queue == [] ==>
                  HoldsEstablished(r.value.system.tasks[i].table, maxPlayers, moves))
  {
    ProgramIsPolite(maxPlayers, capacity, tasks, moves);
    RunIsMoves(maxPlayers, capacity, tasks, moves);
    DrainedTask(capacity, tasks, Steps(maxPlayers, moves), i);
  }

  // ----- what the factories are asked for

  /** A task holds the session, or will once it drains its queue. */
  ghost predicate Asked(t: Task, id: Id) {
    id in t.table.ids || exists k :: 0 <= k < |t.queue| && t.queue[k].Connected? && t.queue[k].id == id
  }

  /** A factory asked for the session finds the player index that connection was given: the one below
      its id, taken, one of the channels, and no other session's; the sink stamps its low byte. */
  ghost predicate Served(b: Players, id: Id) {
    && 1 <= id <= |b.free| && !b.free[id - 1]
    && Lookup(b, id) == Some(id - 1) && Number(b, id) == Some((id - 1) % 256)
    && forall other: nat :: Lookup(b, other) == Some(id - 1) ==> other == id
  }

  lemma SeatedServes(v: World, k: nat, t: Task, id: Id)
    requires Seated(v.broker, k) && Known(t, v.broker.players.Keys) && Asked(t, id)
    ensures Served(v.broker, id)
  {
    assert id in v.broker.players;
  }

  /** At every point of every such interleaving the factories are served. */
  lemma FactoriesServe(maxPlayers: nat, capacity: nat, tasks: nat, moves: seq<Move>, i: nat, id: Id)
    requires maxPlayers <= capacity && maxPlayers < U64 - 1
    requires Orderly(Start(maxPlayers, capacity, tasks), moves)
    ensures var r := Perform(Start(maxPlayers, capacity, tasks), moves);
            && r.Some? && |r.value.broker.free| == maxPlayers
            && (i < |r.value.system.tasks| && Asked(r.value.system.tasks[i], id) ==> Served(r.value.broker, id))
  {
    NothingFails(maxPlayers, capacity, tasks, moves);
    RunIsMoves(maxPlayers, capacity, tasks, moves);
    var v := Perform(Start(maxPlayers, capacity, tasks), moves).value;
    if i < |v.system.tasks| && Asked(v.system.tasks[i], id) {
      SeatedServes(v, Issued(maxPlayers, moves), v.system.tasks[i], id);
    }
  }

  /** The byte the sinks stamp tells the players apart. */
  ghost predicate NumbersDistinct(b: Players) {
    forall i, j :: i in b.players && j in b.players && Number(b, i) == Number(b, j) ==> i == j
  }

  /** `k` connections in a row. */
  function Crowd(k: nat): (r: seq<Move>)
    ensures |r| == k && forall i :: 0 <= i < k ==> r[i] == Move.Accept(0, false)
  {
    seq(k, i => Move.Accept(0, false))
  }

  lemma {:induction false} CrowdSeated(maxPlayers: nat, capacity: nat, tasks: nat, k: nat)
    requires k <= maxPlayers < U64 - 1
    ensures var r := Perform(Start(maxPlayers, capacity, tasks), Crowd(k));
            r.Some? && |r.value.broker.free| == maxPlayers && Seated(r.value.broker, k)
  {
    if k > 0 {
      CrowdSeated(maxPlayers, capacity, tasks, k - 1);
      assert Crowd(k)[..k - 1] == Crowd(k - 1);
      var before := Perform(Start(maxPlayers, capacity, tasks), Crowd(k - 1)).value;
      SeatOne(before.broker, k - 1);
    }
  }

  lemma OwnNumber(b: Players, id: Id)
    requires id in b.players && b.players[id] < 256
    ensures Number(b, id) == Lookup(b, id)
  {
  }

  lemma FewAreDistinct(b: Players)
    requires Books(b) && |b.free| <= 256
    ensures NumbersDistinct(b)
  {
    forall i, j | i in b.players && j in b.players && Number(b, i) == Number(b, j) ensures i == j {
      OwnNumber(b, i);
      OwnNumber(b, j);
    }
  }

  lemma ManyAreNot(b: Players)
    requires Seated(b, 257)
    ensures !NumbersDistinct(b)
  {
    assert Number(b, 1) == Number(b, 257);
  }

  /** Over every run the byte tells the players apart if and only if there are at most 256. */
  lemma NumbersDistinctIff(maxPlayers: nat, capacity: nat, tasks: nat)
    requires maxPlayers <= capacity && maxPlayers < U64 - 1
    ensures (forall moves :: Orderly(Start(maxPlayers, capacity, tasks), moves) ==>
               var r := Perform(Start(maxPlayers, capacity, tasks), moves);
               r.Some? && NumbersDistinct(r.value.broker))
            <==> maxPlayers <= 256
  {
    if maxPlayers <= 256 {
      forall moves | Orderly(Start(maxPlayers, capacity, tasks), moves)
        ensures var r := Perform(Start(maxPlayers, capacity, tasks), moves);
                r.Some? && NumbersDistinct(r.value.broker)
      {
        NothingFails(maxPlayers, capacity, tasks, moves);
        FewAreDistinct(Perform(Start(maxPlayers, capacity, tasks), moves).value.broker);
      }
    } else {
      CrowdSeated(maxPlayers, capacity, tasks, 257);
      ManyAreNot(Perform(Start(maxPlayers, capacity, tasks), Crowd(257)).value.broker);
      assert Orderly(Start(maxPlayers, capacity, tasks), Crowd(257));
    }
  }
}
