/** Exactly-once delivery when fewer than a window of consecutive datagrams are lost, for every
    window size and any number of wraps. */
module Burst {
  import opened Constants
  import opened SlidingWindow
  import opened Position

  /** The largest step between consecutive first arrivals the receiver bridges: the window itself,
      unless the window is wider than the range of acceptance. */
  function Reach(w: Window): nat {
    if w <= MAX_AHEAD + 1 then w else MAX_AHEAD + 1
  }

  /** Each arrival is a late datagram or is at most Reach past the newest before it. */
  ghost predicate Bursty(w: Window, arrivals: seq<nat>) {
    forall i :: 0 <= i < |arrivals| ==> arrivals[i] <= Last(arrivals[..i]) + Reach(w)
  }

  /** The newest number among the arrivals, or -1. */
  function Last(arrivals: seq<nat>): (r: int)
    ensures -1 <= r
  {
    if |arrivals| == 0 then -1 else Max(Last(arrivals[..|arrivals| - 1]), arrivals[|arrivals| - 1])
  }

  lemma {:induction false} LastIsNewest(arrivals: seq<nat>, i: nat)
    requires i < |arrivals|
    ensures arrivals[i] <= Last(arrivals)
  {
    if i < |arrivals| - 1 { LastIsNewest(arrivals[..|arrivals| - 1], i); }
  }

  /** The frames n, n-1, ..., n-i+1 in that order, processed from position `base`. */
  function Down(n: nat, base: nat, i: nat): seq<Take>
    requires i <= n + 1
  {
    if i == 0 then [] else Down(n, base, i - 1) + [Take(n - (i - 1), base)]
  }

  /** What an exactly-once receiver processes: at each new arrival, the frames newer than the
      newest before it, latest first. */
  function IdealLog(arrivals: seq<nat>): seq<Take> {
    if |arrivals| == 0 then []
    else
      var before := arrivals[..|arrivals| - 1];
      var n := arrivals[|arrivals| - 1];
      if n <= Last(before) then IdealLog(before)
      else IdealLog(before) + Down(n, Last(before) + 1, n - Last(before))
  }

  ghost function Flags(w: Window, lo: int, hi: int): set<nat> {
    set j | lo <= j < hi :: Ring(w, j)
  }

  lemma FlagsBelow(w: Window, lo: nat, hi: nat)
    requires lo < hi <= lo + w
    ensures Flags(w, lo, hi) == Flags(w, lo + 1, hi) + {Ring(w, lo)}
    ensures Ring(w, lo) !in Flags(w, lo + 1, hi)
  {
    WindowIsDistinct(w);
    forall j | lo < j < hi ensures Ring(w, j) != Ring(w, lo) {
      assert lo < j < lo + w;
    }
  }

  lemma {:induction false} BurstSink(w: Window, s: State, n: nat, i: nat)
    requires s.flags == {} && s.pos <= n < s.pos + w && i <= n + 1 - s.pos
    ensures Sink(w, s, n, i) == State(s.pos, Flags(w, n + 1 - i, n + 1), s.log + Down(n, s.pos, i))
  {
    if i > 0 {
      BurstSink(w, s, n, i - 1);
      FlagsBelow(w, n - (i - 1), n + 1);
    }
  }

  lemma {:induction false} BurstSinkRest(w: Window, s: State, n: nat, i: nat)
    requires s.flags == {} && s.pos <= n < s.pos + w && n + 1 - s.pos <= i
    ensures Sink(w, s, n, i) == Sink(w, s, n, n + 1 - s.pos)
  {
    if n + 1 - s.pos < i { BurstSinkRest(w, s, n, i - 1); }
  }

  lemma {:induction false} BurstAdvance(w: Window, s: State, n: nat)
    requires s.pos <= n + 1 <= s.pos + w && s.flags == Flags(w, s.pos, n + 1)
    ensures Advance(w, s) == State(n + 1, {}, s.log)
    decreases n + 1 - s.pos
  {
    if s.pos <= n {
      FlagsBelow(w, s.pos, n + 1);
      BurstAdvance(w, Bump(w, s), n);
    }
  }

  lemma BurstSunk(w: Window, s: State, n: nat)
    requires s.flags == {} && s.pos <= n < s.pos + w
    ensures Sink(w, s, n, w) == State(s.pos, Flags(w, s.pos, n + 1), s.log + Down(n, s.pos, n + 1 - s.pos))
  {
    BurstSink(w, s, n, n + 1 - s.pos);
    BurstSinkRest(w, s, n, w);
  }

  /** One new datagram within reach, from a synchronised state. */
  lemma BurstStep(w: Window, s: State, n: nat)
    requires s.flags == {} && s.pos <= n < s.pos + Reach(w)
    ensures Step(w, s, n) == State(n + 1, {}, s.log + Down(n, s.pos, n + 1 - s.pos))
  {
    WindowIsDistinct(w);
    BurstSunk(w, s, n);
    BurstAdvance(w, Sunk(w, s, n), n);
  }

  /** A synchronised receiver is still synchronised after a new datagram if and only if the
      datagram is within reach. */
  lemma ReachIsExact(w: Window, s: State, n: nat)
    requires s.flags == {} && s.pos <= n
    ensures Step(w, s, n).pos == n + 1 <==> n < s.pos + Reach(w)
  {
    if n < s.pos + Reach(w) {
      BurstStep(w, s, n);
    } else if Accepts(s, n) {
      WindowIsDistinct(w);
      CatchUpPos(w, s, Excess(w, s, n));
      SinkMoves(w, CaughtUp(w, s, n), n, w);
      AdvanceMoves(w, Sunk(w, s, n));
    }
  }

  /** After every arrival the receiver is exactly synchronised and has processed exactly the ideal
      log, whatever late or mirrored copies were mixed in. */
  lemma {:induction false} ExactlyOnce(w: Window, arrivals: seq<nat>)
    requires Bursty(w, arrivals)
    ensures Run(w, START, arrivals) == State(Last(arrivals) + 1, {}, IdealLog(arrivals))
  {
    if |arrivals| > 0 {
      var before := arrivals[..|arrivals| - 1];
      var n := arrivals[|arrivals| - 1];
      assert forall i :: 0 <= i < |before| ==> before[..i] == arrivals[..i];
      ExactlyOnce(w, before);
      if n > Last(before) { BurstStep(w, Run(w, START, before), n); }
    }
  }

  lemma {:induction false} TimesConcat(a: seq<Take>, b: seq<Take>, j: nat)
    ensures Times(a + b, j) == Times(a, j) + Times(b, j)
  {
    if |b| == 0 {
      assert a + b == a;
    } else {
      assert (a + b)[..|a + b| - 1] == a + b[..|b| - 1];
      TimesConcat(a, b[..|b| - 1], j);
    }
  }

  lemma {:induction false} DownOnce(n: nat, base: nat, i: nat, j: nat)
    requires i <= n + 1
    ensures Times(Down(n, base, i), j) == if n - i < j <= n then 1 else 0
  {
    if i > 0 {
      DownOnce(n, base, i - 1, j);
      assert Down(n, base, i)[..|Down(n, base, i)| - 1] == Down(n, base, i - 1);
    }
  }

  /** The ideal log holds every frame up to the newest exactly once and nothing else. */
  lemma {:induction false} IdealLogIsExact(arrivals: seq<nat>, j: nat)
    ensures Times(IdealLog(arrivals), j) == if j <= Last(arrivals) then 1 else 0
  {
    if |arrivals| > 0 {
      var before := arrivals[..|arrivals| - 1];
      var n := arrivals[|arrivals| - 1];
      IdealLogIsExact(before, j);
      if n > Last(before) {
        var base, count := Last(before) + 1, n - Last(before);
        TimesConcat(IdealLog(before), Down(n, base, count), j);
        DownOnce(n, base, count, j);
        assert IdealLog(arrivals) == IdealLog(before) + Down(n, base, count);
      }
    }
  }

  /** The datagrams 0 .. k-1 in order. */
  function UpTo(k: nat): (r: seq<nat>)
    ensures |r| == k && forall i :: 0 <= i < k ==> r[i] == i
  {
    seq(k, i => i)
  }

  lemma {:induction false} UpToLast(k: nat)
    ensures Last(UpTo(k)) == k - 1
  {
    if k > 0 {
      assert UpTo(k)[..k - 1] == UpTo(k - 1);
      UpToLast(k - 1);
    }
  }

  /** A perfect channel up to k: the receiver is at k, nothing pending, k itself not processed. */
  lemma PerfectRun(w: Window, k: nat)
    ensures Run(w, START, UpTo(k)) == State(k, {}, IdealLog(UpTo(k)))
    ensures Times(IdealLog(UpTo(k)), k) == 0
  {
    forall i | 0 <= i < k ensures UpTo(k)[i] <= Last(UpTo(k)[..i]) + Reach(w) {
      assert UpTo(k)[..i] == UpTo(i);
      UpToLast(i);
    }
    ExactlyOnce(w, UpTo(k));
    UpToLast(k);
    IdealLogIsExact(UpTo(k), k);
  }
}
