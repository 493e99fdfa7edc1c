/** When a mirrored copy of a datagram is harmless. */
module Duplicates {
  import opened Constants
  import opened SlidingWindow
  import opened Position
  import opened AtMostTwice
  import opened Burst

  /** The first `i` rounds of the sink loop raise the flags of the frames they visit. */
  lemma {:induction false} SinkRaises(w: Window, s: State, n: nat, i: nat, j: nat)
    requires s.pos <= j <= n && n < j + i
    ensures Ring(w, j) in Sink(w, s, n, i).flags
  {
    if n < j + (i - 1) { SinkRaises(w, s, n, i - 1, j); }
  }

  /** If the flag of `n` is down and the position has not passed `n`, advancing stops at or
      before `n` and leaves the flag down. */
  lemma {:induction false} AdvanceStops(w: Window, s: State, n: nat)
    requires Ring(w, n) !in s.flags && s.pos <= n
    ensures Advance(w, s).pos <= n && Ring(w, n) !in Advance(w, s).flags
    decreases s.flags
  {
    if Ring(w, s.pos) in s.flags { AdvanceStops(w, Bump(w, s), n); }
  }

  /** Advancing clears exactly the flags of the frames it passes. */
  lemma {:induction false} AdvanceClears(w: Window, s: State, x: nat)
    ensures s.pos <= Advance(w, s).pos
    ensures x in Advance(w, s).flags <==>
            x in s.flags && forall p: nat :: s.pos <= p < Advance(w, s).pos ==> Ring(w, p) != x
    decreases s.flags
  {
    if Ring(w, s.pos) in s.flags {
      AdvanceClears(w, Bump(w, s), x);
    }
  }

  lemma {:induction false} SinkOfFlagged(w: Window, s: State, n: nat, i: nat)
    requires forall j: nat :: s.pos <= j <= n && n < j + i ==> Ring(w, j) in s.flags
    ensures Sink(w, s, n, i) == s
  {
    if i > 0 { SinkOfFlagged(w, s, n, i - 1); }
  }

  /** Visiting a frame whose flag is down logs something. */
  lemma {:induction false} SinkTakes(w: Window, s: State, n: nat, i: nat, j: nat)
    requires s.pos <= j <= n && n < j + i && Ring(w, j) !in s.flags
    ensures |s.log| < |Sink(w, s, n, i).log|
  {
    var t := Sink(w, s, n, i - 1);
    SinkMoves(w, s, n, i - 1);
    if n < j + (i - 1) {
      SinkTakes(w, s, n, i - 1, j);
    } else {
      SinkRaisesByLogging(w, s, n, i - 1);
      assert Sink(w, s, n, i) == Mark(w, t, j);
    }
  }

  lemma {:induction false} SinkRaisesByLogging(w: Window, s: State, n: nat, i: nat)
    ensures s.log <= Sink(w, s, n, i).log
    ensures Sink(w, s, n, i).flags != s.flags ==> |s.log| < |Sink(w, s, n, i).log|
  {
    if i > 0 { SinkRaisesByLogging(w, s, n, i - 1); }
  }

  /** Accepting `n` passed a frame whose flag is that of a frame of `n`'s window still ahead. */
  ghost predicate Aliased(w: Window, s: State, n: nat) {
    exists p: nat, j: nat ::
      && CaughtUp(w, s, n).pos <= p < Accept(w, s, n).pos <= j <= n && n < j + w
      && Ring(w, p) == Ring(w, j)
  }

  /** For every state and every lap: a second copy of an accepted datagram changes nothing if and
      only if the first did not pass a frame sharing its flag with one still ahead. */
  lemma DuplicateIffUnaliased(w: Window, s: State, n: nat)
    requires Accepts(s, n)
    ensures Step(w, Step(w, s, n), n) == Step(w, s, n) <==> !Aliased(w, s, n)
  {
    var c, t, r := CaughtUp(w, s, n), Sunk(w, s, n), Accept(w, s, n);
    CatchUpPos(w, s, Excess(w, s, n));
    AdvanceMoves(w, t);
    if r.pos <= n {
      forall j: nat | r.pos <= j <= n && n < j + w
        ensures Ring(w, j) in r.flags <==> forall p: nat :: c.pos <= p < r.pos ==> Ring(w, p) != Ring(w, j)
      {
        SinkRaises(w, c, n, w, j);
        AdvanceClears(w, t, Ring(w, j));
      }
      if Aliased(w, s, n) {
        var p: nat, j: nat :| c.pos <= p < r.pos <= j <= n && n < j + w && Ring(w, p) == Ring(w, j);
        SinkTakes(w, r, n, w, j);
        AdvanceMoves(w, Sunk(w, r, n));
      } else {
        SinkOfFlagged(w, r, n, w);
      }
    }
  }

  /** On every lap, across every wrap: a copy of a datagram whose frames from the position on use
      different flags, in particular one less than SafeSpan ahead, is ignored. */
  lemma DuplicateIgnored(w: Window, s: State, n: nat)
    requires Accepts(s, n) && Near(w, s.pos, n)
    ensures Step(w, Step(w, s, n), n) == Step(w, s, n)
  {
    ClearIff(w, s.pos, n + 1);
    CatchUpPos(w, s, Excess(w, s, n));
    DuplicateIffUnaliased(w, s, n);
  }

  /** With no unaligned wrap between the position and the datagram, a copy is ignored if and only if
      the first was less than MaxBuffered ahead. */
  lemma DuplicateIsNoOpIff(w: Window, s: State, n: nat)
    requires Accepts(s, n) && (Aligned(w) || Lap(w, s.pos) == Lap(w, n))
    ensures Step(w, Step(w, s, n), n) == Step(w, s, n) <==> n < s.pos + MaxBuffered(w)
  {
    if n < s.pos + MaxBuffered(w) {
      var q := SpanRemains(w);
      DuplicateIgnored(w, s, n);
    } else {
      FarIsAliased(w, s, n);
      DuplicateIffUnaliased(w, s, n);
    }
  }

  /** A datagram whose newest frame has the flag of the position: the position passes it and clears
      it. */
  lemma HereIsAliased(w: Window, s: State, n: nat)
    requires CaughtUp(w, s, n).pos < n && Ring(w, CaughtUp(w, s, n).pos) == Ring(w, n)
    ensures Aliased(w, s, n) && Ring(w, n) !in Accept(w, s, n).flags && Accept(w, s, n).pos <= n
  {
    var c, t := CaughtUp(w, s, n), Sunk(w, s, n);
    SinkRaises(w, c, n, w, n);
    AdvanceStops(w, Bump(w, t), n);
    AdvanceMoves(w, Bump(w, t));
  }

  /** MaxBuffered ahead, the frame's flag is the position's. */
  lemma FarIsAliased(w: Window, s: State, n: nat)
    requires s.pos + MaxBuffered(w) <= n && (Aligned(w) || Lap(w, s.pos) == Lap(w, n))
    ensures Aliased(w, s, n) && Ring(w, n) !in Accept(w, s, n).flags && Accept(w, s, n).pos <= n
  {
    CatchUpPos(w, s, Excess(w, s, n));
    FlatPair(w, s.pos, n + 1, CaughtUp(w, s, n).pos, n);
    HereIsAliased(w, s, n);
  }

  /** The first frame of a datagram is logged if its flag is down. */
  lemma {:induction false} SinkTakesFirst(w: Window, s: State, n: nat, i: nat)
    requires s.pos <= n && Ring(w, n) !in s.flags && 0 < i
    ensures s.log + [Take(n, s.pos)] <= Sink(w, s, n, i).log
  {
    if i > 1 { SinkTakesFirst(w, s, n, i - 1); }
  }

  /** What such a copy does: a frame processed from the first copy MaxBuffered ahead is processed a
      second time. */
  lemma FrameTakenTwice(w: Window, s: State, n: nat)
    requires Accepts(s, n) && (Aligned(w) || Lap(w, s.pos) == Lap(w, n))
    requires s.pos + MaxBuffered(w) <= n && Ring(w, n) !in CaughtUp(w, s, n).flags
    ensures var once := Step(w, s, n);
            var twice := Step(w, once, n);
            && s.log + [Take(n, n - MaxBuffered(w))] <= once.log
            && once.log + [Take(n, once.pos)] <= twice.log
  {
    var c, r := CaughtUp(w, s, n), Accept(w, s, n);
    CatchUpPos(w, s, Excess(w, s, n));
    SinkTakesFirst(w, c, n, w);
    AdvanceMoves(w, Sunk(w, s, n));
    FarIsAliased(w, s, n);
    SinkTakesFirst(w, r, n, w);
    AdvanceMoves(w, Sunk(w, r, n));
  }

  lemma {:induction false} TimesPrefix(a: seq<Take>, b: seq<Take>, j: nat)
    requires a <= b
    ensures Times(a, j) <= Times(b, j)
  {
    assert b == a + b[|a|..];
    TimesConcat(a, b[|a|..], j);
  }

  lemma TwoTakes(a: seq<Take>, b: seq<Take>, c: seq<Take>, e: Take, f: Take)
    requires a + [e] <= b && b + [f] <= c && e.frame == f.frame
    ensures Times(a, e.frame) + 2 <= Times(c, e.frame)
  {
    TimesPrefix(a + [e], b, e.frame);
    TimesPrefix(b + [f], c, e.frame);
  }

  lemma RunTwo(w: Window, n: nat)
    ensures Run(w, START, [n, n]) == Step(w, Step(w, START, n), n)
  {
    assert [n, n][..1] == [n] && [n][..0] == [];
    assert Run(w, START, [n]) == Step(w, Run(w, START, []), n);
  }

  /** A run that does it, for every window up to 128: the very first datagram to arrive is number
      MaxBuffered, and a mirrored copy follows. */
  lemma DeliveredTwice(w: Window)
    requires MaxBuffered(w) <= MAX_AHEAD
    ensures Times(Run(w, START, [MaxBuffered(w), MaxBuffered(w)]).log, MaxBuffered(w)) == 2
  {
    var n := MaxBuffered(w);
    ModIs(0, MaxCycle(w), 0, 0);
    ModIs(n, MaxCycle(w), 0, n);
    FrameTakenTwice(w, START, n);
    RunTwo(w, n);
    var once := Step(w, START, n);
    TwoTakes([], once.log, Step(w, once, n).log, Take(n, 0), Take(n, once.pos));
    AtMostTwiceEver(w, [n, n], n);
  }

  // ----- across an unaligned wrap

  /** SafeSpan before a wrap, the first datagram of the next lap has the flag of the position; a
      copy processes its frame a second time, although the first was less than MaxBuffered ahead. */
  lemma DuplicateAtWrap(w: Window, s: State, wrap: nat)
    requires !Aligned(w) && wrap % MaxCycle(w) == 0 && s.pos + SafeSpan(w) == wrap
    requires Accepts(s, wrap) && s.flags == {}
    ensures wrap < s.pos + MaxBuffered(w)
    ensures var once := Step(w, s, wrap);
            var twice := Step(w, once, wrap);
            && s.log + [Take(wrap, s.pos)] <= once.log
            && once.log + [Take(wrap, once.pos)] <= twice.log
  {
    var q := SpanRemains(w);
    AliasAt(w, wrap, s.pos);
    HereIsAliased(w, s, wrap);
    SinkTakesFirst(w, s, wrap, w);
    AdvanceMoves(w, Sunk(w, s, wrap));
    SinkTakesFirst(w, Accept(w, s, wrap), wrap, w);
    AdvanceMoves(w, Sunk(w, Accept(w, s, wrap), wrap));
  }

  lemma RunSplit(w: Window, arrivals: seq<nat>, n: nat)
    ensures Run(w, START, arrivals + [n]) == Step(w, Run(w, START, arrivals), n)
  {
    assert (arrivals + [n])[..|arrivals|] == arrivals;
  }

  /** A run that meets it: perfect up to SafeSpan before the first wrap. */
  lemma WrapTakenTwice(w: Window) returns (arrivals: seq<nat>)
    requires !Aligned(w) && w <= MAX_AHEAD
    ensures var s := Run(w, START, arrivals);
            && Accepts(s, MaxCycle(w)) && MaxCycle(w) < s.pos + MaxBuffered(w)
            && Step(w, Step(w, s, MaxCycle(w)), MaxCycle(w)) != Step(w, s, MaxCycle(w))
            && Times(Run(w, START, arrivals + [MaxCycle(w)] + [MaxCycle(w)]).log, MaxCycle(w)) == 2
  {
    var q := SpanRemains(w);
    SpanIs(w);
    AlignedIff(w);
    var n := MaxCycle(w);
    var k := n - SafeSpan(w);
    PerfectRun(w, k);
    arrivals := UpTo(k);
    ModIs(n, n, 1, 0);
    var s := Run(w, START, arrivals);
    DuplicateAtWrap(w, s, n);
    RunSplit(w, arrivals, n);
    RunSplit(w, arrivals + [n], n);
    var once := Step(w, s, n);
    TwoTakes(s.log, once.log, Step(w, once, n).log, Take(n, s.pos), Take(n, once.pos));
    AtMostTwiceEver(w, arrivals + [n] + [n], n);
  }

  /** Over every run, copies of datagrams less than MaxBuffered ahead are ignored if and only if the
      rings are aligned or the window exceeds the range of acceptance. */
  lemma DuplicatesIgnoredIff(w: Window)
    ensures (forall arrivals: seq<nat>, n: nat ::
               var s := Run(w, START, arrivals);
               Accepts(s, n) && n < s.pos + MaxBuffered(w) ==> Step(w, Step(w, s, n), n) == Step(w, s, n))
            <==> Aligned(w) || MAX_AHEAD < w
  {
    if Aligned(w) || MAX_AHEAD < w {
      forall arrivals: seq<nat>, n: nat |
        Accepts(Run(w, START, arrivals), n) && n < Run(w, START, arrivals).pos + MaxBuffered(w)
        ensures var s := Run(w, START, arrivals); Step(w, Step(w, s, n), n) == Step(w, s, n)
      {
        WindowIsDistinct(w);
        var q := SpanRemains(w);
        DuplicateIgnored(w, Run(w, START, arrivals), n);
      }
    } else {
      var arrivals := WrapTakenTwice(w);
    }
  }
}
