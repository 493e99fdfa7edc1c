/** Where the receiver can be, for every window size and any number of wraps. */
module Position {
  import opened Constants
  import opened SlidingWindow

  function Max(a: int, b: int): int { if a < b then b else a }

  /** Every raised flag belongs to a frame at or ahead of the position and no newer than `newest`,
      and the position is at most one past `newest`. */
  ghost predicate Witnessed(w: Window, newest: int, s: State) {
    && s.pos <= newest + 1
    && forall x :: x in s.flags ==> exists j: nat :: s.pos <= j <= newest && Ring(w, j) == x
  }

  lemma WitnessedBump(w: Window, newest: int, s: State, n: nat)
    requires Witnessed(w, newest, s) && n <= newest && MayBump(w, s, n)
    ensures Witnessed(w, newest, Bump(w, s))
  {
  }

  lemma WitnessedMark(w: Window, newest: int, s: State, n: nat, j: nat)
    requires Witnessed(w, newest, s) && n <= newest && MayMark(w, s, n, j)
    ensures Witnessed(w, newest, Mark(w, s, j))
  {
  }

  lemma WitnessedAccept(w: Window, newest: int, s: State, n: nat)
    requires Witnessed(w, newest, s) && n <= newest
    ensures Witnessed(w, newest, CaughtUp(w, s, n)) && Witnessed(w, newest, Sunk(w, s, n))
    ensures Witnessed(w, newest, Accept(w, s, n))
  {
    var P := (t: State) => Witnessed(w, newest, t);
    forall t | P(t) && MayBump(w, t, n) ensures P(Bump(w, t)) { WitnessedBump(w, newest, t, n); }
    forall t, j: nat | P(t) && MayMark(w, t, n, j) ensures P(Mark(w, t, j)) {
      WitnessedMark(w, newest, t, n, j);
    }
    AcceptKeeps(w, s, n, P);
  }

  /** The position only moves forward, and over the loops it moves exactly one step for every flag
      it clears. */
  lemma {:induction false} AdvanceMoves(w: Window, s: State)
    ensures Advance(w, s).pos + |Advance(w, s).flags| == s.pos + |s.flags|
    ensures s.pos <= Advance(w, s).pos && Advance(w, s).log == s.log
    ensures Advance(w, s).flags <= s.flags
    decreases s.flags
  {
    if Ring(w, s.pos) in s.flags { AdvanceMoves(w, Bump(w, s)); }
  }

  lemma {:induction false} SinkMoves(w: Window, s: State, n: nat, i: nat)
    ensures s.flags <= Sink(w, s, n, i).flags && s.log <= Sink(w, s, n, i).log
    ensures |Sink(w, s, n, i).log| <= |s.log| + i
    ensures |Sink(w, s, n, i).flags| <= |s.flags| + i
  {
    if i > 0 { SinkMoves(w, s, n, i - 1); }
  }

  /** The newest accepted datagram number over a run, or -1. */
  function Newest(w: Window, s: State, arrivals: seq<nat>): int {
    if |arrivals| == 0 then -1
    else
      var before := arrivals[..|arrivals| - 1];
      var n := arrivals[|arrivals| - 1];
      if Accepts(Run(w, s, before), n) then Max(Newest(w, s, before), n) else Newest(w, s, before)
  }

  /** The two-sided bound: however the run lost, duplicated or reordered datagrams, the position is
      at most MaxBuffered behind the newest accepted number and at most one past it. */
  lemma {:induction false} PositionBound(w: Window, arrivals: seq<nat>)
    ensures var r, newest := Run(w, START, arrivals), Newest(w, START, arrivals);
            newest - MaxBuffered(w) <= r.pos <= newest + 1 && Witnessed(w, newest, r)
  {
    if |arrivals| > 0 {
      var before := arrivals[..|arrivals| - 1];
      var n := arrivals[|arrivals| - 1];
      PositionBound(w, before);
      var s, newest := Run(w, START, before), Newest(w, START, before);
      if Accepts(s, n) {
        WitnessedAccept(w, Max(newest, n), s, n);
        CatchUpPos(w, s, Excess(w, s, n));
        AdvanceMoves(w, Sunk(w, s, n));
      }
    }
  }

  ghost predicate InRing(w: Window, s: State) {
    forall x :: x in s.flags ==> x < MaxBuffered(w)
  }

  lemma {:induction false} BoundedSize(s: set<nat>, k: nat)
    requires forall x :: x in s ==> x < k
    ensures |s| <= k
  {
    if k > 0 {
      BoundedSize(s - {k - 1}, k - 1);
      assert s <= (s - {k - 1}) + {k - 1};
    } else {
      assert s == {};
    }
  }

  /** One datagram of any content, in any state: the position moves forward by no more than the
      larger of its distance and MaxBuffered, and at most a window of frames is processed. */
  lemma StepBounds(w: Window, s: State, n: nat)
    requires InRing(w, s)
    ensures var r := Step(w, s, n);
            && InRing(w, r)
            && s.pos <= r.pos <= Max(s.pos + MaxBuffered(w), n)
            && s.log <= r.log && |r.log| <= |s.log| + w
  {
    if Accepts(s, n) {
      var P := (t: State) => InRing(w, t);
      AcceptKeeps(w, s, n, P);
      CatchUpPos(w, s, Excess(w, s, n));
      SinkMoves(w, CaughtUp(w, s, n), n, w);
      AdvanceMoves(w, Sunk(w, s, n));
      BoundedSize(Sunk(w, s, n).flags, MaxBuffered(w));
    }
  }
}
