/** While no two frames between the position and the newest arrival share a flag, the receiver
    computes a function of the set of datagrams that arrived, on every lap and across every wrap:
    order, duplication and lateness make no difference. */
module Coverage {
  import opened Constants
  import opened SlidingWindow
  import opened Position
  import opened Burst
  import opened Duplicates

  /** The frames carried by the datagrams that arrived. */
  ghost predicate Covered(w: Window, arrivals: seq<nat>, j: nat) {
    exists i :: 0 <= i < |arrivals| && j <= arrivals[i] < j + w
  }

  /** Every arrival is late, or near the position it meets and not so far ahead that it is
      dropped. */
  ghost predicate InRange(w: Window, arrivals: seq<nat>) {
    forall i :: 0 <= i < |arrivals| ==>
      var p := Run(w, START, arrivals[..i]).pos;
      arrivals[i] < p || (arrivals[i] <= p + MAX_AHEAD && Near(w, p, arrivals[i]))
  }

  ghost predicate Taken(s: State, j: nat) {
    exists e :: e in s.log && e.frame == j
  }

  ghost predicate NoRepeats(log: seq<Take>) {
    forall a, b :: 0 <= a < b < |log| ==> log[a].frame != log[b].frame
  }

  /** Everything behind the position is processed; from the position to `newest` no two frames share
      a flag, and a flag is up exactly if its frame is processed; nothing is processed twice. */
  ghost predicate Good(w: Window, newest: int, s: State) {
    && Witnessed(w, newest, s) && Clear(w, s.pos, newest + 1)
    && (forall e :: e in s.log ==> e.frame <= newest)
    && (forall j: nat :: j < s.pos ==> Taken(s, j))
    && (forall j: nat :: s.pos <= j <= newest ==> (Taken(s, j) <==> Ring(w, j) in s.flags))
    && NoRepeats(s.log)
  }

  /** A datagram near the position is the new newest, or older than the newest. */
  lemma GoodWiden(w: Window, newest: int, s: State, n: nat)
    requires Good(w, newest, s) && newest < n && Clear(w, s.pos, n + 1)
    ensures Good(w, n, s)
  {
  }

  lemma GoodBump(w: Window, newest: int, s: State, n: nat)
    requires Good(w, newest, s) && n <= newest && MayBump(w, s, n)
    ensures Good(w, newest, Bump(w, s))
  {
    if s.pos <= newest { ClearIff(w, s.pos, newest + 1); }
    var q := SpanRemains(w);
    var t := Bump(w, s);
    assert Taken(s, s.pos);
    forall j: nat ensures Taken(t, j) <==> Taken(s, j) {}
  }

  lemma GoodMark(w: Window, newest: int, s: State, n: nat, j: nat)
    requires Good(w, newest, s) && n <= newest && MayMark(w, s, n, j)
    ensures Good(w, newest, Mark(w, s, j))
  {
    var t := Mark(w, s, j);
    assert !Taken(s, j);
    assert t.log[|s.log|] == Take(j, s.pos);
    forall i: nat ensures Taken(t, i) <==> Taken(s, i) || i == j {
      if Taken(s, i) {
        var e :| e in s.log && e.frame == i;
        assert e in t.log;
      }
    }
    WitnessedMark(w, newest, s, n, j);
  }

  /** An accepted datagram no newer than `newest` keeps flags, position and log in agreement. */
  lemma GoodAccept(w: Window, newest: int, s: State, n: nat)
    requires Good(w, newest, s) && n <= newest
    ensures Good(w, newest, Sunk(w, s, n)) && Good(w, newest, Accept(w, s, n))
  {
    var P := (t: State) => Good(w, newest, t);
    forall t | P(t) && MayBump(w, t, n) ensures P(Bump(w, t)) { GoodBump(w, newest, t, n); }
    forall t, j: nat | P(t) && MayMark(w, t, n, j) ensures P(Mark(w, t, j)) {
      GoodMark(w, newest, t, n, j);
    }
    AcceptKeeps(w, s, n, P);
  }

  /** Nothing processed is ever unprocessed, and only the window is added. */
  lemma AcceptAdds(w: Window, s: State, n: nat)
    requires s.pos <= n
    ensures s.log <= Accept(w, s, n).log
    ensures forall e :: e in Accept(w, s, n).log ==> e in s.log || e.frame <= n < e.frame + w
  {
    CatchUpPos(w, s, Excess(w, s, n));
    SinkMoves(w, CaughtUp(w, s, n), n, w);
    AdvanceMoves(w, Sunk(w, s, n));
    var P := (t: State) => forall e :: e in t.log ==> e in s.log || e.frame <= n < e.frame + w;
    AcceptKeeps(w, s, n, P);
  }

  /** An accepted datagram adds exactly the frames of its window. */
  lemma AcceptTakes(w: Window, newest: int, s: State, n: nat, j: nat)
    requires Good(w, newest, s) && s.pos <= n <= newest
    ensures Taken(Accept(w, s, n), j) <==> Taken(s, j) || j <= n < j + w
  {
    AcceptAdds(w, s, n);
    if Taken(s, j) {
      var e :| e in s.log && e.frame == j;
      assert e in Accept(w, s, n).log;
    } else if j <= n < j + w {
      var t := Sunk(w, s, n);
      ClearIff(w, s.pos, newest + 1);
      var q := SpanRemains(w);
      SinkRaises(w, s, n, w, j);
      GoodAccept(w, newest, s, n);
      AdvanceMoves(w, t);
      assert Taken(t, j);
    }
  }

  /** The receiver is a function of the set of arrived datagrams: it has processed exactly the
      covered frames, each once; it stands at the least uncovered frame; its flags are those of
      the covered frames ahead. */
  lemma {:induction false} RunIsCoverage(w: Window, arrivals: seq<nat>)
    requires InRange(w, arrivals)
    ensures var r := Run(w, START, arrivals);
            && Good(w, Last(arrivals), r)
            && (forall j: nat :: Taken(r, j) <==> Covered(w, arrivals, j))
            && !Covered(w, arrivals, r.pos)
  {
    var r := Run(w, START, arrivals);
    if |arrivals| > 0 {
      var before := arrivals[..|arrivals| - 1];
      var n := arrivals[|arrivals| - 1];
      assert forall i :: 0 <= i < |before| ==> before[..i] == arrivals[..i];
      RunIsCoverage(w, before);
      var s := Run(w, START, before);
      StepIsCoverage(w, Last(before), s, n);
      forall j: nat ensures Taken(r, j) <==> Covered(w, arrivals, j) {
        CoveredByLast(w, arrivals, j);
        CoveredByLast(w, arrivals, r.pos);
      }
    }
    RestIsUntaken(w, arrivals);
  }

  /** One near datagram: the state stays good and takes exactly the window. */
  lemma StepIsCoverage(w: Window, newest: int, s: State, n: nat)
    requires Good(w, newest, s)
    requires n < s.pos || (n <= s.pos + MAX_AHEAD && Near(w, s.pos, n))
    ensures Good(w, Max(newest, n), Step(w, s, n))
    ensures s.pos <= n ==> forall j: nat :: Taken(Step(w, s, n), j) <==> Taken(s, j) || j <= n < j + w
    ensures n < s.pos ==> Step(w, s, n) == s && n <= newest
  {
    if s.pos <= n {
      ClearIff(w, s.pos, n + 1);
      if newest < n { GoodWiden(w, newest, s, n); }
      GoodAccept(w, Max(newest, n), s, n);
      forall j: nat ensures Taken(Step(w, s, n), j) <==> Taken(s, j) || j <= n < j + w {
        AcceptTakes(w, Max(newest, n), s, n, j);
      }
    }
  }

  /** A receiver at rest has not processed the frame it waits for. */
  lemma RestIsUntaken(w: Window, arrivals: seq<nat>)
    requires Good(w, Last(arrivals), Run(w, START, arrivals))
    ensures !Taken(Run(w, START, arrivals), Run(w, START, arrivals).pos)
  {
    if |arrivals| > 0 { RestsUnflagged(w, arrivals); }
  }

  lemma {:induction false} RestsUnflagged(w: Window, arrivals: seq<nat>)
    ensures Ring(w, Run(w, START, arrivals).pos) !in Run(w, START, arrivals).flags
  {
    if |arrivals| > 0 { RestsUnflagged(w, arrivals[..|arrivals| - 1]); }
  }

  lemma CoveredByLast(w: Window, arrivals: seq<nat>, j: nat)
    requires |arrivals| > 0
    ensures Covered(w, arrivals, j) <==>
              Covered(w, arrivals[..|arrivals| - 1], j) || j <= arrivals[|arrivals| - 1] < j + w
  {
  }

  /** Two arrival orders of the same datagrams end in the same position with the same flags, and
      have processed every frame equally often. */
  lemma OrderIndependence(w: Window, one: seq<nat>, two: seq<nat>)
    requires InRange(w, one) && InRange(w, two)
    requires forall n :: n in one <==> n in two
    ensures Run(w, START, one).pos == Run(w, START, two).pos
    ensures Run(w, START, one).flags == Run(w, START, two).flags
    ensures forall j: nat :: Times(Run(w, START, one).log, j) == Times(Run(w, START, two).log, j)
  {
    RunIsCoverage(w, one);
    RunIsCoverage(w, two);
    var r1, r2 := Run(w, START, one), Run(w, START, two);
    forall j: nat ensures Taken(r1, j) <==> Taken(r2, j) { SameCover(w, one, two, j); }
    forall j: nat ensures Times(r1.log, j) == Times(r2.log, j) {
      TimesIsTaken(r1, j);
      TimesIsTaken(r2, j);
    }
  }

  lemma SameCover(w: Window, one: seq<nat>, two: seq<nat>, j: nat)
    requires forall n :: n in one <==> n in two
    ensures Covered(w, one, j) <==> Covered(w, two, j)
  {
    if Covered(w, one, j) {
      var i :| 0 <= i < |one| && j <= one[i] < j + w;
      assert one[i] in two;
    }
    if Covered(w, two, j) {
      var i :| 0 <= i < |two| && j <= two[i] < j + w;
      assert two[i] in one;
    }
  }

  /** Nothing is processed twice, so the count is membership. */
  lemma TimesIsTaken(s: State, j: nat)
    requires NoRepeats(s.log)
    ensures Times(s.log, j) == if Taken(s, j) then 1 else 0
  {
    TimesIfPresent(s.log, j);
  }

  lemma {:induction false} TimesIfPresent(log: seq<Take>, j: nat)
    ensures (exists e :: e in log && e.frame == j) <==> 0 < Times(log, j)
    ensures NoRepeats(log) ==> Times(log, j) <= 1
  {
    if |log| > 0 {
      var before, last := log[..|log| - 1], log[|log| - 1];
      TimesIfPresent(before, j);
      assert log == before + [last];
      if last.frame == j {
        assert last in log;
        if NoRepeats(log) { assert forall e :: e in before ==> e.frame != j; }
      }
    }
  }
}
