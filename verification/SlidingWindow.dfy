/** The receiver of crates/longboy/src/proto/receiver.rs over absolute, never-wrapping frame
    numbers.  The stored cycle is `pos` modulo MaxCycle; the stored booleans are the set `flags`
    of ring indices that are true.  The log is history: every frame the sink loop processed,
    with the position at which it did so. */
module SlidingWindow {
  import opened Constants

  datatype Take = Take(frame: nat, base: nat)

  datatype State = State(pos: nat, flags: set<nat>, log: seq<Take>)

  const START := State(0, {}, [])

  /** Datagrams further ahead than this are dropped. */
  const MAX_AHEAD := 256

  // ----- the two primitive moves

  /** Clear the flag at the current position and move past it. */
  function Bump(w: Window, s: State): State {
    s.(pos := s.pos + 1, flags := s.flags - {Ring(w, s.pos)})
  }

  /** Process frame `j` unless its flag is already up. */
  function Mark(w: Window, s: State, j: nat): State {
    if Ring(w, j) in s.flags then s
    else s.(flags := s.flags + {Ring(w, j)}, log := s.log + [Take(j, s.pos)])
  }

  // ----- the three loops

  /** Catch-up: skip `k` frames. */
  function CatchUp(w: Window, s: State, k: nat): State
    decreases k
  {
    if k == 0 then s else CatchUp(w, Bump(w, s), k - 1)
  }

  /** The first `i` rounds of the sink loop for datagram `n`: frames n, n-1, ... while they are
      not behind the position.  Once a frame is behind, so are all later ones, and the loop has
      stopped. */
  function Sink(w: Window, s: State, n: nat, i: nat): (r: State)
    ensures r.pos == s.pos
  {
    if i == 0 then s
    else
      var t := Sink(w, s, n, i - 1);
      if n - (i - 1) < s.pos then t else Mark(w, t, n - (i - 1))
  }

  /** Move past every frame whose flag is up. */
  function Advance(w: Window, s: State): (r: State)
    ensures Ring(w, r.pos) !in r.flags
    decreases s.flags
  {
    if Ring(w, s.pos) !in s.flags then s else Advance(w, Bump(w, s))
  }

  // ----- one datagram

  function Excess(w: Window, s: State, n: nat): nat {
    if n > s.pos + MaxBuffered(w) then n - s.pos - MaxBuffered(w) else 0
  }

  /** State after catch-up, and after the sink loop. */
  function CaughtUp(w: Window, s: State, n: nat): State {
    CatchUp(w, s, Excess(w, s, n))
  }

  function Sunk(w: Window, s: State, n: nat): State {
    Sink(w, CaughtUp(w, s, n), n, w)
  }

  /** An accepted datagram `n`. */
  function Accept(w: Window, s: State, n: nat): (r: State)
    ensures Ring(w, r.pos) !in r.flags
  {
    Advance(w, Sunk(w, s, n))
  }

  predicate Accepts(s: State, n: nat) {
    s.pos <= n <= s.pos + MAX_AHEAD
  }

  /** What datagram `n` does, for n < pos + MaxCycle: beyond that the stored cycle cannot tell `n`
      from a datagram of an earlier lap. */
  function Step(w: Window, s: State, n: nat): State {
    if Accepts(s, n) then Accept(w, s, n) else s
  }

  /** A whole run: the datagram numbers in order of arrival. */
  function Run(w: Window, s: State, arrivals: seq<nat>): State {
    if |arrivals| == 0 then s
    else Step(w, Run(w, s, arrivals[..|arrivals| - 1]), arrivals[|arrivals| - 1])
  }

  /** How often frame `j` was processed. */
  function Times(log: seq<Take>, j: nat): nat {
    if |log| == 0 then 0 else Times(log[..|log| - 1], j) + (if log[|log| - 1].frame == j then 1 else 0)
  }

  // ----- how the loops move

  /** A move the protocol may make while handling datagram `n`. */
  ghost predicate MayBump(w: Window, s: State, n: nat) {
    Ring(w, s.pos) in s.flags || s.pos + MaxBuffered(w) < n
  }

  ghost predicate MayMark(w: Window, s: State, n: nat, j: nat) {
    && Ring(w, j) !in s.flags
    && s.pos <= j <= n && n < j + w
    && n <= s.pos + MaxBuffered(w)
  }

  /** `P` survives both primitive moves while handling datagram `n`. */
  ghost predicate Stable(w: Window, n: nat, P: State -> bool) {
    && (forall s :: P(s) && MayBump(w, s, n) ==> P(Bump(w, s)))
    && (forall s, j: nat :: P(s) && MayMark(w, s, n, j) ==> P(Mark(w, s, j)))
  }

  lemma CatchUpPos(w: Window, s: State, k: nat)
    ensures CatchUp(w, s, k).pos == s.pos + k && CatchUp(w, s, k).log == s.log
    ensures CatchUp(w, s, k).flags <= s.flags
    decreases k
  {
    if k > 0 { CatchUpPos(w, Bump(w, s), k - 1); }
  }

  lemma {:induction false} CatchUpKeeps(w: Window, s: State, n: nat, k: nat, P: State -> bool)
    requires P(s) && Stable(w, n, P)
    requires k == 0 || s.pos + k + MaxBuffered(w) <= n
    ensures P(CatchUp(w, s, k))
    decreases k
  {
    if k > 0 {
      assert MayBump(w, s, n);
      CatchUpKeeps(w, Bump(w, s), n, k - 1, P);
    }
  }

  lemma {:induction false} SinkKeeps(w: Window, s: State, n: nat, i: nat, P: State -> bool)
    requires P(s) && Stable(w, n, P)
    requires i <= w && n <= s.pos + MaxBuffered(w)
    ensures P(Sink(w, s, n, i))
  {
    if i > 0 {
      SinkKeeps(w, s, n, i - 1, P);
      var t := Sink(w, s, n, i - 1);
      if n - (i - 1) >= s.pos && Ring(w, n - (i - 1)) !in t.flags {
        assert MayMark(w, t, n, n - (i - 1));
      }
    }
  }

  lemma {:induction false} AdvanceKeeps(w: Window, s: State, n: nat, P: State -> bool)
    requires P(s) && Stable(w, n, P)
    ensures P(Advance(w, s))
    decreases s.flags
  {
    if Ring(w, s.pos) in s.flags {
      assert MayBump(w, s, n);
      AdvanceKeeps(w, Bump(w, s), n, P);
    }
  }

  /** The induction principle: what both primitive moves keep, an accepted datagram keeps. */
  lemma AcceptKeeps(w: Window, s: State, n: nat, P: State -> bool)
    requires P(s) && Stable(w, n, P)
    ensures P(CaughtUp(w, s, n)) && P(Sunk(w, s, n)) && P(Accept(w, s, n))
  {
    var k := Excess(w, s, n);
    CatchUpKeeps(w, s, n, k, P);
    CatchUpPos(w, s, k);
    SinkKeeps(w, CaughtUp(w, s, n), n, w, P);
    AdvanceKeeps(w, Sunk(w, s, n), n, P);
  }
}
