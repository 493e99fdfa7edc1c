/** Recovery: after any loss the receiver catches up with an undisturbed stream of datagrams,
    for exactly those window sizes for which the constants allow it. */
module Stabilise {
  import opened Constants
  import opened SlidingWindow
  import opened Position
  import opened Burst
  import opened Duplicates

  /** The receiver after the datagrams n+1 .. m, in order and without loss. */
  function Stream(w: Window, s: State, n: nat, m: nat): State
    decreases m - n
  {
    if m <= n then s else Step(w, Stream(w, s, n, m - 1), m)
  }

  /** Exactly synchronised after datagram `n`. */
  predicate InStep(s: State, n: nat) {
    s.pos == n + 1 && s.flags == {}
  }

  /** A stream is its first part and then the rest. */
  lemma {:induction false} StreamJoin(w: Window, s: State, n: nat, a: nat, m: nat)
    requires n <= a <= m
    ensures Stream(w, s, n, m) == Stream(w, Stream(w, s, n, a), a, m)
    decreases m - a
  {
    if a < m { StreamJoin(w, s, n, a, m - 1); }
  }

  /** The datagrams n+1 .. m as a run. */
  function InOrder(n: nat, m: nat): (r: seq<nat>)
    requires n <= m
    ensures |r| == m - n && forall i :: 0 <= i < |r| ==> r[i] == n + 1 + i
  {
    seq(m - n, i requires 0 <= i < m - n => n + 1 + i)
  }

  lemma {:induction false} StreamIsRun(w: Window, s: State, n: nat, m: nat)
    requires n <= m
    ensures Run(w, s, InOrder(n, m)) == Stream(w, s, n, m)
    decreases m - n
  {
    if n < m {
      assert InOrder(n, m)[..m - 1 - n] == InOrder(n, m - 1);
      StreamIsRun(w, s, n, m - 1);
    }
  }

  // ----- settled frames

  /** Frame `j` cannot be processed again: it is behind, or its own flag is up. */
  ghost predicate Settled(w: Window, s: State, j: nat) {
    j < s.pos || (Ring(w, j) in s.flags && j < s.pos + MaxBuffered(w))
  }

  ghost function KeepsSettled(w: Window, lo: nat, newest: int, j: nat): State -> bool {
    (t: State) => lo <= t.pos && Witnessed(w, newest, t) && Settled(w, t, j)
  }

  /** Where flags follow frame numbers, a settled frame stays settled. */
  lemma SettledStable(w: Window, lo: nat, top: nat, newest: nat, n: nat, j: nat)
    requires Flat(w, lo, top) && n <= newest < top && j <= newest
    ensures Stable(w, n, KeepsSettled(w, lo, newest, j))
  {
    var P := KeepsSettled(w, lo, newest, j);
    forall t | P(t) && MayBump(w, t, n) ensures P(Bump(w, t)) { WitnessedBump(w, newest, t, n); }
    forall t, i: nat | P(t) && MayMark(w, t, n, i) ensures P(Mark(w, t, i)) {
      WitnessedMark(w, newest, t, n, i);
    }
  }

  lemma SettledStays(w: Window, lo: nat, top: nat, s: State, n: nat, j: nat)
    requires Flat(w, lo, top) && lo <= s.pos && Witnessed(w, n, s)
    requires j <= n < top && Settled(w, s, j)
    ensures Settled(w, Accept(w, s, n), j)
  {
    SettledStable(w, lo, top, n, n, j);
    AcceptKeeps(w, s, n, KeepsSettled(w, lo, n, j));
  }

  /** Accepting `n` settles its whole window, `n` itself exactly when it was less than MaxBuffered
      ahead. */
  lemma AcceptSettles(w: Window, lo: nat, top: nat, s: State, n: nat, j: nat)
    requires Flat(w, lo, top) && n < top && lo <= s.pos && Witnessed(w, n, s)
    requires j <= n && n < j + w && (j < n || n < s.pos + MaxBuffered(w))
    ensures Settled(w, Accept(w, s, n), j)
  {
    var c := CaughtUp(w, s, n);
    CatchUpPos(w, s, Excess(w, s, n));
    WitnessedAccept(w, n, s, n);
    if c.pos <= j { SinkRaises(w, c, n, w, j); }
    SettledStable(w, lo, top, n, n, j);
    AdvanceKeeps(w, Sunk(w, s, n), n, KeepsSettled(w, lo, n, j));
  }

  // ----- recovery where flags follow frame numbers

  ghost predicate AtRest(w: Window, newest: int, s: State) {
    Witnessed(w, newest, s) && Ring(w, s.pos) !in s.flags
  }

  /** At rest after a newest datagram the position is strictly inside the buffering range. */
  lemma AcceptAdvances(w: Window, lo: nat, top: nat, s: State, n: nat)
    requires Flat(w, lo, top) && n < top && lo <= s.pos <= n && Witnessed(w, n, s)
    ensures AtRest(w, n, Accept(w, s, n))
    ensures lo <= Accept(w, s, n).pos && n < Accept(w, s, n).pos + MaxBuffered(w)
  {
    WitnessedAccept(w, n, s, n);
    CatchUpPos(w, s, Excess(w, s, n));
    var t := Sunk(w, s, n);
    SinkRaises(w, CaughtUp(w, s, n), n, w, n);
    if t.pos + MaxBuffered(w) == n {
      assert Ring(w, t.pos) == Ring(w, n);
      AdvanceMoves(w, Bump(w, t));
    } else {
      AdvanceMoves(w, t);
    }
  }

  /** Up to datagram `m`, everything in the windows since `n` but the newest frame is settled. */
  ghost predicate Recovering(w: Window, lo: nat, n: nat, m: nat, s: State) {
    && lo <= s.pos && AtRest(w, m, s)
    && m < s.pos + MaxBuffered(w)
    && forall j: nat :: n < j + w && j < m ==> Settled(w, s, j)
  }

  lemma RecoveryStarts(w: Window, top: nat, s: State, n: nat)
    requires Flat(w, s.pos, top) && n < top && Witnessed(w, n, s) && s.pos <= n
    ensures Recovering(w, s.pos, n, n, Accept(w, s, n))
  {
    AcceptAdvances(w, s.pos, top, s, n);
    forall j: nat | n < j + w && j < n ensures Settled(w, Accept(w, s, n), j) {
      AcceptSettles(w, s.pos, top, s, n, j);
    }
  }

  lemma RecoveryStep(w: Window, lo: nat, top: nat, s: State, n: nat, m: nat)
    requires 2 <= w && MaxBuffered(w) <= MAX_AHEAD && n < m < top && Flat(w, lo, top)
    requires Recovering(w, lo, n, m - 1, s)
    ensures Accepts(s, m) && Recovering(w, lo, n, m, Step(w, s, m))
  {
    AcceptAdvances(w, lo, top, s, m);
    var r := Accept(w, s, m);
    forall j: nat | n < j + w && j < m ensures Settled(w, r, j) {
      if j < m - 1 { SettledStays(w, lo, top, s, m, j); } else { AcceptSettles(w, lo, top, s, m, j); }
    }
  }

  lemma {:induction false} RecoveryRun(w: Window, lo: nat, top: nat, s: State, n: nat, m: nat)
    requires 2 <= w && MaxBuffered(w) <= MAX_AHEAD && n <= m < top && Flat(w, lo, top)
    requires Recovering(w, lo, n, n, s)
    ensures Recovering(w, lo, n, m, Stream(w, s, n, m))
    decreases m
  {
    if n < m {
      RecoveryRun(w, lo, top, s, n, m - 1);
      RecoveryStep(w, lo, top, Stream(w, s, n, m - 1), n, m);
    }
  }

  /** Enough datagrams after `n`, the position has left the damage behind. */
  lemma RecoveryEnds(w: Window, lo: nat, top: nat, s: State, n: nat, m: nat)
    requires 2 <= w && MaxBuffered(w) <= MAX_AHEAD && n + 1 < m < top && m == n + Repair(w)
    requires Flat(w, lo, top) && Recovering(w, lo, n, m - 1, s)
    ensures Step(w, s, m).pos == m + 1 && Step(w, s, m).flags == {}
  {
    RecoveryStep(w, lo, top, s, n, m);
    var r := Accept(w, s, m);
    assert !Settled(w, s, s.pos) && m - 1 <= s.pos;
    AcceptSettles(w, lo, top, s, m, m);
    assert !Settled(w, r, r.pos) && m + 1 <= r.pos;
  }

  /** How many datagrams in order repair any damage where flags follow frame numbers. */
  function Repair(w: Window): (k: nat)
    ensures 2 <= w ==> w < k <= MaxBuffered(w)
  {
    MaxBuffered(w) - w + 1
  }

  /** Once a new newest datagram is accepted, whatever was lost or flagged before it, Repair further
      datagrams in order leave the receiver exactly synchronised, if no unaligned wrap comes
      between. */
  lemma SelfStabilisation(w: Window, s: State, n: nat, m: nat)
    requires 2 <= w && MaxBuffered(w) <= MAX_AHEAD
    requires m == n + Repair(w) && Flat(w, s.pos, m + 1)
    requires Witnessed(w, n, s) && Accepts(s, n)
    ensures InStep(Stream(w, Step(w, s, n), n, m), m)
  {
    var r, top := Step(w, s, n), m + 1;
    RecoveryStarts(w, top, s, n);
    RecoveryRun(w, s.pos, top, r, n, m - 1);
    RecoveryEnds(w, s.pos, top, Stream(w, r, n, m - 1), n, m);
  }

  // ----- recovery on every lap, across every wrap

  /** The position is at most MaxBuffered behind datagram `n`, and all flags belong to frames up to
      it. */
  ghost predicate Following(w: Window, s: State, n: nat) {
    Witnessed(w, n, s) && n <= s.pos + MaxBuffered(w)
  }

  /** Accepting a newest datagram, however far the position was behind. */
  lemma AcceptFollows(w: Window, s: State, n: nat)
    requires Witnessed(w, n, s)
    ensures Following(w, Accept(w, s, n), n) && s.pos <= Accept(w, s, n).pos
  {
    WitnessedAccept(w, n, s, n);
    CatchUpPos(w, s, Excess(w, s, n));
    AdvanceMoves(w, Sunk(w, s, n));
  }

  /** A stream in order is accepted throughout, across every wrap, if the buffering range is smaller
      than the range of acceptance. */
  lemma {:induction false} StreamIsAccepted(w: Window, s: State, n: nat, m: nat)
    requires MaxBuffered(w) < MAX_AHEAD && n <= m && Following(w, s, n)
    ensures var r := Stream(w, s, n, m); Following(w, r, m) && s.pos <= r.pos && Accepts(r, m + 1)
    decreases m
  {
    if n < m {
      StreamIsAccepted(w, s, n, m - 1);
      AcceptFollows(w, Stream(w, s, n, m - 1), m);
    }
  }

  /** A synchronised stream stays so. */
  lemma {:induction false} InStepStays(w: Window, s: State, n: nat, m: nat)
    requires n <= m && InStep(s, n)
    ensures InStep(Stream(w, s, n, m), m)
    decreases m
  {
    if n < m {
      InStepStays(w, s, n, m - 1);
      BurstStep(w, Stream(w, s, n, m - 1), m);
    }
  }

  /** A stream that meets no unaligned wrap in the repair after datagram `a` is synchronised from
      there on. */
  lemma RepairedAfter(w: Window, s: State, n: nat, a: nat, b: nat, m: nat)
    requires 2 <= w && MaxBuffered(w) < MAX_AHEAD && Following(w, s, n)
    requires n <= a && b == a + 1 + Repair(w) <= m && Flat(w, Stream(w, s, n, a).pos, b + 1)
    ensures InStep(Stream(w, s, n, m), m)
  {
    var t := Stream(w, s, n, a);
    StreamIsAccepted(w, s, n, a);
    SelfStabilisation(w, t, a + 1, b);
    StreamJoin(w, s, n, a + 1, b);
    InStepStays(w, Stream(w, s, n, b), b, m);
    StreamJoin(w, s, n, b, m);
  }

  /** How many datagrams in order repair any damage on any lap: one repair may meet a wrap, a second
      one MaxBuffered after the wrap cannot. */
  function Bound(w: Window): nat {
    MaxBuffered(w) + 2 * Repair(w) + 2
  }

  /** Two frames from one wrap on, less than a lap after it, are in its lap. */
  lemma LapAfter(w: Window, wrap: int, a: int, b: int)
    requires wrap % MaxCycle(w) == 0 && wrap <= a <= b < wrap + MaxCycle(w)
    ensures Lap(w, a) == Lap(w, b)
  {
    AroundWrap(w, wrap, a);
    AroundWrap(w, wrap, b);
  }

  /** Recovery whatever wraps are met. */
  lemma StreamRepairs(w: Window, s: State, n: nat, m: nat)
    requires 2 <= w && MaxBuffered(w) < MAX_AHEAD && Following(w, s, n) && n + Bound(w) <= m
    ensures InStep(Stream(w, s, n, m), m)
  {
    var b := n + 1 + Repair(w);
    if Lap(w, s.pos) == Lap(w, b) {
      FlatIff(w, s.pos, b + 1);
      RepairedAfter(w, s, n, n, b, m);
    } else {
      var wrap := NextWrap(w, s.pos, b);
      RepairedPastWrap(w, s, n, wrap, m);
    }
  }

  /** A wrap ahead of the position: the repair that starts MaxBuffered after it is within one lap. */
  lemma RepairedPastWrap(w: Window, s: State, n: nat, wrap: nat, m: nat)
    requires 2 <= w && MaxBuffered(w) < MAX_AHEAD && Following(w, s, n)
    requires wrap % MaxCycle(w) == 0 && s.pos < wrap && wrap + MaxBuffered(w) + 1 + Repair(w) <= m
    ensures InStep(Stream(w, s, n, m), m)
  {
    var a := wrap + MaxBuffered(w);
    var b := a + 1 + Repair(w);
    StreamIsAccepted(w, s, n, a);
    var t := Stream(w, s, n, a);
    LapAfter(w, wrap, t.pos, b);
    FlatIff(w, t.pos, b + 1);
    RepairedAfter(w, s, n, a, b, m);
  }

  /** A window wider than the range of acceptance reaches back to the position from every accepted
      datagram, so the receiver is synchronised after every one. */
  lemma {:induction false} WideWindowInStep(w: Window, arrivals: seq<nat>)
    requires MAX_AHEAD < w
    ensures Run(w, START, arrivals).flags == {}
    ensures Run(w, START, arrivals).pos == Newest(w, START, arrivals) + 1
  {
    if |arrivals| > 0 {
      var before := arrivals[..|arrivals| - 1];
      var n := arrivals[|arrivals| - 1];
      WideWindowInStep(w, before);
      if Accepts(Run(w, START, before), n) { BurstStep(w, Run(w, START, before), n); }
    }
  }

  lemma {:induction false} NewestBelow(w: Window, arrivals: seq<nat>)
    ensures Newest(w, START, arrivals) <= Last(arrivals)
  {
    if |arrivals| > 0 { NewestBelow(w, arrivals[..|arrivals| - 1]); }
  }

  /** The windows for which recovery is certain. */
  predicate Recoverable(w: Window) {
    2 <= w && (MaxBuffered(w) < MAX_AHEAD || MAX_AHEAD < w)
  }

  /** After datagram `n` and then n+1 .. m in order the receiver is synchronised. */
  ghost predicate Recovers(w: Window, s: State, n: nat, m: nat) {
    InStep(Stream(w, Step(w, s, n), n, m), m)
  }

  /** After any run, on any lap: once a newest datagram is accepted, Bound more in order leave the
      receiver synchronised. */
  lemma Recovery(w: Window, arrivals: seq<nat>, n: nat, m: nat)
    requires Recoverable(w) && n + Bound(w) <= m
    requires Last(arrivals) <= n && Accepts(Run(w, START, arrivals), n)
    ensures Recovers(w, Run(w, START, arrivals), n, m)
  {
    var s := Run(w, START, arrivals);
    PositionBound(w, arrivals);
    NewestBelow(w, arrivals);
    if MAX_AHEAD < w {
      WideWindowInStep(w, arrivals);
      BurstStep(w, s, n);
      InStepStays(w, Step(w, s, n), n, m);
    } else {
      AcceptFollows(w, s, n);
      StreamRepairs(w, Step(w, s, n), n, m);
    }
  }

  // ----- where recovery fails

  /** Datagrams more than MAX_AHEAD ahead, within a lap, change nothing. */
  lemma {:induction false} DroppedWhileFar(w: Window, s: State, arrivals: seq<nat>)
    requires forall i :: 0 <= i < |arrivals| ==> s.pos + MAX_AHEAD < arrivals[i] < s.pos + MaxCycle(w)
    ensures Run(w, s, arrivals) == s
  {
    if |arrivals| > 0 { DroppedWhileFar(w, s, arrivals[..|arrivals| - 1]); }
  }

  /** After any run the receiver recovers with the next stream, for as long as cycle numbers tell
      laps apart, if and only if the stream begins at most MAX_AHEAD past the position. */
  lemma GapIff(w: Window, arrivals: seq<nat>, n: nat, m: nat)
    requires Recoverable(w) && n + Bound(w) <= m && Last(arrivals) <= n
    requires Run(w, START, arrivals).pos <= n && m < Run(w, START, arrivals).pos + MaxCycle(w)
    ensures Recovers(w, Run(w, START, arrivals), n, m) <==> n <= Run(w, START, arrivals).pos + MAX_AHEAD
  {
    var s := Run(w, START, arrivals);
    if n <= s.pos + MAX_AHEAD {
      Recovery(w, arrivals, n, m);
    } else {
      StreamIsRun(w, s, n, m);
      DroppedWhileFar(w, s, InOrder(n, m));
    }
  }

  /** With a window of one, MaxBuffered behind: the newest frame's flag is the position's own, so
      each datagram moves the position by one and the lag never shrinks in the lap. */
  lemma {:induction false} NarrowWindowLags(s: State, n: nat, m: nat)
    requires s.flags == {} && n + 1 == s.pos + MaxBuffered(1) && n <= m && Lap(1, s.pos) == Lap(1, m)
    ensures Stream(1, s, n, m).pos + MaxBuffered(1) == m + 1 && Stream(1, s, n, m).flags == {}
    decreases m
  {
    if n < m {
      LapBetween(1, s.pos, m - 1, m);
      NarrowWindowLags(s, n, m - 1);
      var t := Stream(1, s, n, m - 1);
      LapBetween(1, s.pos, t.pos, m);
      NarrowStep(t, m);
    }
  }

  lemma NarrowStep(s: State, n: nat)
    requires s.flags == {} && n == s.pos + MaxBuffered(1) && Lap(1, s.pos) == Lap(1, n)
    ensures Step(1, s, n).pos == s.pos + 1 && Step(1, s, n).flags == {}
  {
    SameLap(1, s.pos, n);
    var t := Sunk(1, s, n);
    assert Sink(1, s, n, 1) == Mark(1, s, n);
    assert t.flags == {Ring(1, t.pos)} && t.pos == s.pos;
    var u := Bump(1, t);
    assert u.flags == {} && Advance(1, t) == Advance(1, u) == u;
  }

  /** Where the buffering range covers the range of acceptance, a lost frame whose flag no frame of
      that range shares is never passed by datagrams that do not carry it. */
  lemma {:induction false} StallHolds(w: Window, s: State, q: nat, arrivals: seq<nat>)
    requires MAX_AHEAD <= MaxBuffered(w) && s.pos <= q && Ring(w, q) !in s.flags
    requires forall j: nat :: q < j <= q + MAX_AHEAD ==> Ring(w, j) != Ring(w, q)
    requires forall i :: 0 <= i < |arrivals| ==> q + w <= arrivals[i] < s.pos + MaxCycle(w)
    ensures Run(w, s, arrivals).pos <= q && Ring(w, q) !in Run(w, s, arrivals).flags
  {
    if |arrivals| > 0 {
      var before := arrivals[..|arrivals| - 1];
      var n := arrivals[|arrivals| - 1];
      StallHolds(w, s, q, before);
      var P := (t: State) => t.pos <= q && Ring(w, q) !in t.flags && n <= t.pos + MAX_AHEAD;
      if Accepts(Run(w, s, before), n) { AcceptKeeps(w, Run(w, s, before), n, P); }
    }
  }

  /** With 129 to 256 frames a window: from the start, one datagram MAX_AHEAD ahead is accepted, and
      whatever follows within a lap without frame 0, frame 0 is never passed. */
  lemma MediumWindowStalls(w: Window, arrivals: seq<nat>)
    requires MAX_AHEAD < MaxBuffered(w) && w <= MAX_AHEAD
    requires forall i :: 0 <= i < |arrivals| ==> w <= arrivals[i] < MaxCycle(w)
    ensures Accepts(START, MAX_AHEAD) && Run(w, START, arrivals).pos == 0
  {
    forall j: nat | 0 < j <= MAX_AHEAD ensures Ring(w, j) != Ring(w, 0) {
      ModIs(0, MaxCycle(w), 0, 0);
      ModIs(j, MaxCycle(w), 0, j);
      SameLap(w, 0, j);
    }
    StallHolds(w, START, 0, arrivals);
  }

  /** With 128 frames a window the frame 256 before the first wrap shares its flag with none of the
      256 frames after it. */
  lemma FlagBeforeWrap(j: nat)
    requires 65152 < j <= 65408
    ensures Ring(128, j) != Ring(128, 65152)
  {
    assert MaxCycle(128) == 65408 && MaxBuffered(128) == 256;
    assert Ring(128, 65152) == 128;
  }

  /** With 128 frames a window the wrap does it: after a perfect run to frame 65024, with 65280 next,
      which is accepted, frame 65152 is not passed within a lap. */
  lemma WrapStalls(arrivals: seq<nat>)
    requires forall i :: 0 <= i < |arrivals| ==> 65280 <= arrivals[i] < 65024 + MaxCycle(128)
    ensures var s := Run(128, START, UpTo(65024));
            && s.pos == 65024 && Accepts(s, 65280)
            && Run(128, s, arrivals).pos <= 65152
  {
    PerfectRun(128, 65024);
    forall j: nat | 65152 < j <= 65152 + MAX_AHEAD ensures Ring(128, j) != Ring(128, 65152) {
      FlagBeforeWrap(j);
    }
    StallHolds(128, Run(128, START, UpTo(65024)), 65152, arrivals);
  }

  /** The receiver recovers from every loss after which a newest datagram is accepted, on every lap,
      exactly when the window has 2 to 127 or more than 256 frames; for the other windows no longer
      stream helps. */
  lemma RecoversIff(w: Window, k: nat)
    requires Bound(w) <= k <= 60000
    ensures (forall arrivals: seq<nat>, n: nat ::
               Last(arrivals) <= n && Accepts(Run(w, START, arrivals), n) ==>
                 Recovers(w, Run(w, START, arrivals), n, n + k))
            <==> Recoverable(w)
  {
    if Recoverable(w) {
      forall arrivals: seq<nat>, n: nat | Last(arrivals) <= n && Accepts(Run(w, START, arrivals), n)
        ensures Recovers(w, Run(w, START, arrivals), n, n + k)
      {
        Recovery(w, arrivals, n, n + k);
      }
    } else {
      var arrivals, n := Unrecovered(w, k);
    }
  }

  /** The runs that do not recover. */
  lemma Unrecovered(w: Window, k: nat) returns (arrivals: seq<nat>, n: nat)
    requires !Recoverable(w) && k <= 60000
    ensures Last(arrivals) <= n && Accepts(Run(w, START, arrivals), n)
    ensures !Recovers(w, Run(w, START, arrivals), n, n + k)
  {
    if w == 1 {
      arrivals, n := [], 8;
      NarrowStep(START, 8);
      NarrowWindowLags(Step(1, START, 8), 8, 8 + k);
    } else if w == 128 {
      arrivals, n := UpTo(65024), 65280;
      UpToLast(65024);
      StreamAfter(w, Run(w, START, arrivals), n, n + k);
      WrapStalls([n] + InOrder(n, n + k));
    } else {
      arrivals, n := [], MAX_AHEAD;
      StreamAfter(w, START, n, n + k);
      MediumWindowStalls(w, [n] + InOrder(n, n + k));
    }
  }

  lemma {:induction false} StreamAfter(w: Window, s: State, n: nat, m: nat)
    requires n <= m
    ensures Stream(w, Step(w, s, n), n, m) == Run(w, s, [n] + InOrder(n, m))
    decreases m
  {
    if n == m {
      assert [n] + InOrder(n, n) == [n] && [n][..0] == [];
      assert Run(w, s, [n]) == Step(w, Run(w, s, []), n);
    } else {
      StreamAfter(w, s, n, m - 1);
      var all := [n] + InOrder(n, m);
      assert all[..m - n] == [n] + InOrder(n, m - 1) && all[m - n] == m;
    }
  }
}
